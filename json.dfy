/** The JSON values the serialisers read and write, in place of the org.json library: a
    `JSONObject` is a map from keys to values, a `JSONArray` a sequence. The accessors used by the
    readers are modelled with the exceptions they throw. */
module Json {

  datatype Json =
    | JNull
    | JBool(b: bool)
    | JNumber(n: int)
    | JReal(r: real)
    | JString(s: string)
    | JArray(items: seq<Json>)
    | JObject(fields: map<string, Json>)

  /** The exceptions the readers can raise: org.json's `JSONException` from its accessors, and the
      `ClassCastException` of a Java cast such as `(String) object.get(key)`. */
  datatype Thrown = JSONException | ClassCastException | IllegalArgumentException

  datatype Got<+T> = Got(value: T) | Threw(exception: Thrown)

  /** `object.get(key)`: the value, or a `JSONException` for a missing key. */
  function Get(obj: map<string, Json>, key: string): (r: Got<Json>)
    ensures r.Got? <==> key in obj
    ensures r.Got? ==> r.value == obj[key]
    ensures r.Threw? ==> r.exception == JSONException
  {
    if key in obj then Got(obj[key]) else Threw(JSONException)
  }

  /** `(String) value`. */
  function CastString(v: Json): (r: Got<string>)
    ensures r.Got? <==> v.JString?
    ensures r.Got? ==> r.value == v.s
    ensures r.Threw? ==> r.exception == ClassCastException
  {
    if v.JString? then Got(v.s) else Threw(ClassCastException)
  }

  /** `(String) object.get(key)`: a missing key throws first, a non-string then fails the cast. */
  function GetCastString(obj: map<string, Json>, key: string): (r: Got<string>)
    ensures r.Got? <==> key in obj && obj[key].JString?
    ensures r.Got? ==> r.value == obj[key].s
    ensures key !in obj ==> r == Threw(JSONException)
    ensures key in obj && !obj[key].JString? ==> r == Threw(ClassCastException)
  {
    match Get(obj, key)
    case Threw(e) => Threw(e)
    case Got(v) => CastString(v)
  }

  /** `object.getString(key)`: only a string value is accepted. */
  function GetString(obj: map<string, Json>, key: string): (r: Got<string>)
    ensures r.Got? <==> key in obj && obj[key].JString?
    ensures r.Got? ==> r.value == obj[key].s
    ensures r.Threw? ==> r.exception == JSONException
  {
    if key in obj && obj[key].JString? then Got(obj[key].s) else Threw(JSONException)
  }

  /** `object.getJSONObject(key)`. */
  function GetObject(obj: map<string, Json>, key: string): (r: Got<map<string, Json>>)
    ensures r.Got? <==> key in obj && obj[key].JObject?
    ensures r.Got? ==> r.value == obj[key].fields
    ensures r.Threw? ==> r.exception == JSONException
  {
    if key in obj && obj[key].JObject? then Got(obj[key].fields) else Threw(JSONException)
  }

  /** `c` is the ASCII letter `lower` in either case, as `Character.toUpperCase`/`toLowerCase` see
      it; the long s (U+017F) upper-cases to 'S' and so matches 's'. */
  predicate SameLetterIgnoringCase(c: char, lower: char)
  {
    c == lower || c as int == lower as int - 32 || (lower == 's' && c == 'ſ')
  }

  /** `s.equalsIgnoreCase(word)` for a lower-case ASCII `word`. */
  predicate EqualsIgnoreCase(s: string, word: string)
  {
    |s| == |word| && forall i :: 0 <= i < |s| ==> SameLetterIgnoringCase(s[i], word[i])
  }

  /** `object.getBoolean(key)`: a boolean, or a string equal to "true" or "false" ignoring case. */
  function GetBoolean(obj: map<string, Json>, key: string): (r: Got<bool>)
    ensures r.Got? <==> key in obj &&
                        (obj[key].JBool? ||
                         (obj[key].JString? &&
                          (EqualsIgnoreCase(obj[key].s, "true") || EqualsIgnoreCase(obj[key].s, "false"))))
    ensures key in obj && obj[key].JBool? ==> r == Got(obj[key].b)
    ensures key in obj && obj[key] == JString("true") ==> r == Got(true)
    ensures key in obj && obj[key] == JString("false") ==> r == Got(false)
    ensures r.Threw? ==> r.exception == JSONException
  {
    if key !in obj then Threw(JSONException)
    else
      match obj[key]
      case JBool(b) => Got(b)
      case JString(s) =>
        if EqualsIgnoreCase(s, "false") then Got(false)
        else if EqualsIgnoreCase(s, "true") then Got(true)
        else Threw(JSONException)
      case _ => Threw(JSONException)
  }

  /** `Number.intValue()`: the low 32 bits, as a two's-complement int. */
  function Wrap32(n: int): (r: int)
    ensures -0x8000_0000 <= r < 0x8000_0000
    ensures -0x8000_0000 <= n < 0x8000_0000 ==> r == n
    ensures (r - n) % 0x1_0000_0000 == 0
  {
    (n + 0x8000_0000) % 0x1_0000_0000 - 0x8000_0000
  }

  /** `object.getInt(key)` for an integer value, wrapped to 32 bits. */
  function GetInt(obj: map<string, Json>, key: string): (r: Got<int>)
    ensures r.Got? <==> key in obj && obj[key].JNumber?
    ensures r.Got? ==> r.value == Wrap32(obj[key].n)
    ensures r.Threw? ==> r.exception == JSONException
  {
    if key in obj && obj[key].JNumber? then Got(Wrap32(obj[key].n)) else Threw(JSONException)
  }

  /** `object.getDouble(key)` for a numeric value. */
  function GetDouble(obj: map<string, Json>, key: string): (r: Got<real>)
    ensures r.Got? <==> key in obj && (obj[key].JReal? || obj[key].JNumber?)
    ensures r.Got? && obj[key].JReal? ==> r.value == obj[key].r
    ensures r.Got? && obj[key].JNumber? ==> r.value == obj[key].n as real
    ensures r.Threw? ==> r.exception == JSONException
  {
    if key !in obj then Threw(JSONException)
    else
      match obj[key]
      case JReal(x) => Got(x)
      case JNumber(n) => Got(n as real)
      case _ => Threw(JSONException)
  }

  /** A `JSONObject` under construction; `put` overwrites an existing key. */
  class JsonObject {
    var fields: map<string, Json>

    constructor ()
      ensures fields == map[]
    {
      fields := map[];
    }

    method Put(key: string, value: Json)
      modifies this
      ensures fields == old(fields)[key := value]
    {
      fields := fields[key := value];
    }
  }
}
