/** An abstract JSON document and the accessors of the JSON library the source uses
    (`contains`, `operator[]` in its const and non-const forms, `value`, `get` and
    range-for iteration), with the library's exceptions made explicit. */
module Json {
  import opened Outcomes

  /** A parsed JSON value. Object members are listed in the library's iteration order
      (ascending key order), each key once. Numbers are integers. */
  datatype Json =
    | JNull
    | JBool(b: bool)
    | JNumber(n: int)
    | JString(s: string)
    | JArray(items: seq<Json>)
    | JObject(members: seq<(string, Json)>)

  function Lookup(members: seq<(string, Json)>, key: string): Option<Json>
  {
    if members == [] then None
    else if members[0].0 == key then Some(members[0].1)
    else Lookup(members[1..], key)
  }

  /** `j.contains(key)`: false for every value that is not an object. */
  predicate Contains(j: Json, key: string)
  {
    j.JObject? && Lookup(j.members, key).Some?
  }

  /** A member already known to be present. */
  function Field(j: Json, key: string): Json
    requires Contains(j, key)
  {
    Lookup(j.members, key).value
  }

  /** Non-const `j[key]`: an object yields the member, or a null it inserts when the
      key is missing; a null first becomes an empty object and yields an inserted
      null; any other value throws. The inserted nulls are never read back by the
      source before it throws or returns, so the insertion itself is not kept. */
  function Index(j: Json, key: string): (r: Try<Json>)
    ensures r.Ok? <==> j.JObject? || j.JNull?
    ensures Contains(j, key) ==> r == Ok(Field(j, key))
    ensures r.Ok? && !Contains(j, key) ==> r.value == JNull
  {
    match j
    case JObject(ms) => Ok(if Lookup(ms, key).Some? then Lookup(ms, key).value else JNull)
    case JNull => Ok(JNull)
    case _ => Throws
  }

  /** Const `j[key]`: a present member; a non-object throws. A missing key is an
      assertion failure (undefined behaviour) in the library and is modelled as a
      throw. */
  function At(j: Json, key: string): (r: Try<Json>)
    ensures r.Ok? <==> Contains(j, key)
    ensures r.Ok? ==> Lookup(j.members, key) == Some(r.value)
  {
    if Contains(j, key) then Ok(Field(j, key)) else Throws
  }

  /** `get<std::string>()` and the implicit conversion to `std::string`. */
  function GetString(j: Json): (r: Try<string>)
    ensures r.Ok? <==> j.JString?
    ensures r.Ok? ==> j == JString(r.value)
  {
    if j.JString? then Ok(j.s) else Throws
  }

  /** `get<uint64_t>()`: a number converted with the wrap-around of the cast. */
  function GetU64(j: Json): (r: Try<nat>)
    ensures r.Ok? <==> j.JNumber?
    ensures r.Ok? ==> r.value < 0x1_0000_0000_0000_0000 && (j.n - r.value) % 0x1_0000_0000_0000_0000 == 0
    ensures r.Ok? && 0 <= j.n < 0x1_0000_0000_0000_0000 ==> r.value == j.n
  {
    if j.JNumber? then Ok(j.n % 0x1_0000_0000_0000_0000) else Throws
  }

  /** `j.value(key, default)` for a string: a non-object throws, a present member
      of another type throws, a missing one gives the default. */
  function ValueString(j: Json, key: string, default: string): (r: Try<string>)
    ensures r.Ok? <==> j.JObject? && (Contains(j, key) ==> Field(j, key).JString?)
    ensures j.JObject? && !Contains(j, key) ==> r == Ok(default)
    ensures Contains(j, key) ==> r == GetString(Field(j, key))
  {
    if !j.JObject? then Throws
    else if Contains(j, key) then GetString(Field(j, key))
    else Ok(default)
  }

  /** `get<double>()`: a number; every other value, booleans included, throws. */
  function GetNumber(j: Json): (r: Try<int>)
    ensures r.Ok? <==> j.JNumber?
    ensures r.Ok? ==> j == JNumber(r.value)
  {
    if j.JNumber? then Ok(j.n) else Throws
  }

  /** `j.value(key, default)` for a number. */
  function ValueNumber(j: Json, key: string, default: int): (r: Try<int>)
    ensures r.Ok? <==> j.JObject? && (Contains(j, key) ==> Field(j, key).JNumber?)
    ensures j.JObject? && !Contains(j, key) ==> r == Ok(default)
    ensures Contains(j, key) ==> r == GetNumber(Field(j, key))
  {
    if !j.JObject? then Throws
    else if Contains(j, key) then GetNumber(Field(j, key))
    else Ok(default)
  }

  /** The values a range-for visits: array items, object member values, nothing for
      null, and the value itself for any other scalar. */
  function Elements(j: Json): (r: seq<Json>)
    ensures j.JArray? ==> r == j.items
    ensures j.JObject? ==> |r| == |j.members| && forall i :: 0 <= i < |r| ==> r[i] == j.members[i].1
    ensures j.JNull? ==> r == []
    ensures !(j.JArray? || j.JObject? || j.JNull?) ==> r == [j]
  {
    match j
    case JArray(items) => items
    case JObject(ms) => seq(|ms|, i requires 0 <= i < |ms| => ms[i].1)
    case JNull => []
    case _ => [j]
  }

  /** Where the const access succeeds, the non-const one yields the same member. */
  lemma IndexAgreesWithAt(j: Json, key: string)
    requires At(j, key).Ok?
    ensures Index(j, key) == At(j, key)
  {
  }
}
