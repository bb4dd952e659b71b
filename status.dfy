/** The command status vocabulary (src/CommandRunner/gui/CommandStatus.java and the identical
    enum src/CommandRunner/CommandStatus.java, modelled once). */
module Status {

  /** A Java `int`. */
  type Int32 = x: int | -0x8000_0000 <= x < 0x8000_0000

  datatype CommandStatus = Idle | Ok | Running | Fail

  /** Decodes an exit code and its two sentinels: -2 is "running", -1 is "not started". */
  function CreateCommandStatus(value: Int32): (s: CommandStatus)
    ensures s == Running <==> value == -2
    ensures s == Idle <==> value == -1
    ensures s == Ok <==> value == 0
    ensures s == Fail <==> value !in {-2, -1, 0}
  {
    match value
    case -2 => Running
    case -1 => Idle
    case 0 => Ok
    case _ => Fail
  }

  /** The status shown in the table's status column. */
  function StringValue(s: CommandStatus): (r: string)
    ensures |r| >= 2
  {
    match s
    case Running => "running"
    case Idle => "idle"
    case Ok => "ok"
    case Fail => "fail"
  }

  /** Distinct statuses have distinct display strings. */
  lemma StringValueInjective(s: CommandStatus, t: CommandStatus)
    ensures StringValue(s) == StringValue(t) <==> s == t
  {
  }

  /** The four display strings of src/CommandRunner/CommandStatus.java, one per constant. */
  lemma StringValuesOfEveryConstant()
    ensures StringValue(Running) == "running" && StringValue(Idle) == "idle"
    ensures StringValue(Ok) == "ok" && StringValue(Fail) == "fail"
    ensures forall s: CommandStatus :: StringValue(s) in {"running", "idle", "ok", "fail"}
  {
  }

  /** Only the exit code 0 reports success; every value outside the sentinels reports failure. */
  lemma OkOnlyFromZero(value: Int32)
    ensures CreateCommandStatus(value) == Ok ==> value == 0
    ensures value != -2 && value != -1 && value != 0 ==> CreateCommandStatus(value) == Fail
  {
  }
}
