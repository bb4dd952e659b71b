/** The priority order of src/CommandRunner/CommandStatus.java: its comparator and the in-place
    sort that callers use to pick the most attention-worthy status first. */
module StatusSort {
  import opened Status

  /** The comparator handed to `List.sort`, branch for branch. */
  function Compare(s1: CommandStatus, s2: CommandStatus): int
  {
    var firstRunning := s1 == Running;
    var secondRunning := s2 == Running;
    var firstFail := s1 == Fail;
    var firstIdle := s1 == Idle;
    var secondFail := s2 == Fail;
    var secondIdle := s2 == Idle;
    if firstRunning && !secondRunning then -1
    else if secondRunning && !firstRunning then 1
    else if firstFail && !secondFail then -1
    else if secondFail && !firstFail then 1
    else if firstIdle && !secondIdle then -1
    else if secondIdle && !firstIdle then 1
    else 0
  }

  /** Position in the order RUNNING, FAIL, IDLE, OK. */
  function Rank(s: CommandStatus): (r: nat)
    ensures r < 4
  {
    match s
    case Running => 0
    case Fail => 1
    case Idle => 2
    case Ok => 3
  }

  /** The comparator is the rank order: negative, zero or positive exactly as the ranks compare,
      zero only for equal statuses, and antisymmetric. */
  lemma CompareIsRankOrder(a: CommandStatus, b: CommandStatus)
    ensures Compare(a, b) < 0 <==> Rank(a) < Rank(b)
    ensures Compare(a, b) > 0 <==> Rank(a) > Rank(b)
    ensures Compare(a, b) == 0 <==> a == b
    ensures Compare(a, b) == -Compare(b, a)
  {
  }

  ghost predicate SortedByRank(s: seq<CommandStatus>)
  {
    forall i, j :: 0 <= i < j < |s| ==> Rank(s[i]) <= Rank(s[j])
  }

  /** A list the comparator considers sorted. */
  ghost predicate Sorted(s: seq<CommandStatus>)
  {
    forall i, j :: 0 <= i < j < |s| ==> Compare(s[i], s[j]) <= 0
  }

  lemma SortedIffSortedByRank(s: seq<CommandStatus>)
    ensures Sorted(s) <==> SortedByRank(s)
  {
    forall i, j | 0 <= i < j < |s| {
      CompareIsRankOrder(s[i], s[j]);
    }
  }

  /** The head of a sorted list has the least rank of all its elements. */
  lemma HeadHasLeastRank(s: seq<CommandStatus>, x: CommandStatus)
    requires SortedByRank(s) && x in multiset(s)
    ensures Rank(s[0]) <= Rank(x)
  {
    assert x in s;
    var k :| 0 <= k < |s| && s[k] == x;
    if k > 0 {
      assert Rank(s[0]) <= Rank(s[k]);
    }
  }

  /** Two sorted arrangements of one multiset start with the same status. */
  lemma HeadsAgree(s: seq<CommandStatus>, t: seq<CommandStatus>)
    requires SortedByRank(s) && SortedByRank(t)
    requires multiset(s) == multiset(t) && |s| > 0
    ensures |t| > 0 && s[0] == t[0]
  {
    assert |t| == |multiset(t)| == |s|;
    assert s[0] in multiset(t) && t[0] in multiset(s);
    HeadHasLeastRank(t, s[0]);
    HeadHasLeastRank(s, t[0]);
  }

  lemma TailsHaveEqualMultisets(s: seq<CommandStatus>, t: seq<CommandStatus>)
    requires |s| > 0 && |t| > 0 && s[0] == t[0] && multiset(s) == multiset(t)
    ensures multiset(s[1..]) == multiset(t[1..])
  {
    assert s == [s[0]] + s[1..] && t == [t[0]] + t[1..];
    calc {
      multiset(s[1..]);
      multiset(s) - multiset{s[0]};
      multiset(t) - multiset{t[0]};
      multiset(t[1..]);
    }
  }

  /** There is only one sorted arrangement of a given multiset of statuses, so the result of the
      sort does not depend on the algorithm (nor on its stability). */
  lemma {:induction false} SortedPermutationUnique(s: seq<CommandStatus>, t: seq<CommandStatus>)
    requires SortedByRank(s) && SortedByRank(t)
    requires multiset(s) == multiset(t)
    ensures s == t
    decreases |s|
  {
    if |s| == 0 {
      assert |t| == |multiset(t)| == 0;
    } else {
      HeadsAgree(s, t);
      TailsHaveEqualMultisets(s, t);
      SortedPermutationUnique(s[1..], t[1..]);
      assert s == [s[0]] + s[1..] && t == [t[0]] + t[1..];
    }
  }

  /** Swaps `a[i]` and `a[j]`. */
  method Swap(a: array<CommandStatus>, i: nat, j: nat)
    requires i < a.Length && j < a.Length
    modifies a
    ensures a[..] == old(a[..])[i := old(a[j])][j := old(a[i])]
    ensures multiset(a[..]) == multiset(old(a[..]))
  {
    a[i], a[j] := a[j], a[i];
  }

  /** Moves every status of rank `r` in `a[lo..]` in front of the rest of `a[lo..]`, whose ranks
      are all at least `r`; returns where the rank-`r` block ends. */
  method MoveRankToFront(a: array<CommandStatus>, lo: nat, r: nat) returns (m: nat)
    requires lo <= a.Length
    requires forall k :: lo <= k < a.Length ==> Rank(a[k]) >= r
    modifies a
    ensures lo <= m <= a.Length
    ensures a[..lo] == old(a[..lo])
    ensures forall k :: lo <= k < m ==> Rank(a[k]) == r
    ensures forall k :: m <= k < a.Length ==> Rank(a[k]) > r
    ensures multiset(a[..]) == multiset(old(a[..]))
  {
    var i: int := lo;
    var j: int := a.Length - 1;
    while i <= j
      invariant lo <= i <= j + 1 <= a.Length
      invariant a[..lo] == old(a[..lo])
      invariant forall k :: lo <= k < i ==> Rank(a[k]) == r
      invariant forall k :: j < k < a.Length ==> Rank(a[k]) > r
      invariant forall k :: lo <= k < a.Length ==> Rank(a[k]) >= r
      invariant multiset(a[..]) == multiset(old(a[..]))
    {
      if Rank(a[i]) == r {
        i := i + 1;
      } else if Rank(a[j]) != r {
        j := j - 1;
      } else {
        Swap(a, i, j);
        i := i + 1;
        j := j - 1;
      }
    }
    m := i;
  }

  /** `sortCommandStatuses`: sorts the caller's list in place so that every RUNNING precedes every
      FAIL, which precedes every IDLE, which precedes every OK. */
  method SortCommandStatuses(a: array<CommandStatus>)
    modifies a
    ensures Sorted(a[..])
    ensures multiset(a[..]) == multiset(old(a[..]))
  {
    var m1 := MoveRankToFront(a, 0, 0);
    var m2 := MoveRankToFront(a, m1, 1);
    var m3 := MoveRankToFront(a, m2, 2);
    assert SortedByRank(a[..]);
    SortedIffSortedByRank(a[..]);
  }
}
