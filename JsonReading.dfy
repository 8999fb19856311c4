/**
 * The permissions file as an already tokenised JSON value, and the token
 * accessors of `android.util.JsonReader` that the loader uses on it.
 * Objects keep their members in document order, repeated names included,
 * because the reader streams them one by one.
 */
module JsonReading {
  import opened JavaLang

  datatype Json =
    | JNull
    | JBool(b: bool)
    | JNumber(literal: string)   // a number, kept as the text it was written as
    | JString(s: string)
    | JArray(items: seq<Json>)
    | JObject(members: seq<Member>)

  /** One `"name": value` pair of an object. */
  datatype Member = Member(name: string, value: Json)

  /**
   * `nextString()`: a string token gives its text and a number token its
   * literal text; any other token throws IllegalStateException.
   */
  function NextString(v: Json): (r: Result<string>)
    ensures r.Success? <==> v.JString? || v.JNumber?
    ensures v.JString? ==> r == Success(v.s)
    ensures v.JNumber? ==> r == Success(v.literal)
    ensures r.Failure? ==> r.fault == IllegalState
  {
    match v
    case JString(s) => Success(s)
    case JNumber(literal) => Success(literal)
    case _ => Failure(IllegalState)
  }

  /** `nextBoolean()`: only a boolean token is accepted. */
  function NextBoolean(v: Json): (r: Result<bool>)
    ensures r.Success? <==> v.JBool?
    ensures r.Success? ==> r.value == v.b
    ensures r.Failure? ==> r.fault == IllegalState
  {
    if v.JBool? then Success(v.b) else Failure(IllegalState)
  }
}
