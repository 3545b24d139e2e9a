/** The JSON object model that the extension codecs and the texture reader/writer
    exchange (a minimal stand-in for Newtonsoft's JToken / JProperty). */
module Json {
  import opened Wrappers
  import opened Exceptions
  import opened Numbers

  datatype JValue =
    | JNull
    | JBool(b: bool)
    | JInt(i: int)
    | JNum(r: real)
    | JStr(s: string)
    | JArr(items: seq<JValue>)
    | JObj(props: seq<JProperty>)

  /** A named member of a JSON object (Newtonsoft's JProperty). */
  datatype JProperty = JProperty(name: string, value: JValue)

  /** The value stored under `key` among `props`, the first one if the key repeats;
      `None` when absent (JObject's indexer returns null). */
  function Lookup(props: seq<JProperty>, key: string): (r: Option<JValue>)
    ensures r.None? <==> forall i :: 0 <= i < |props| ==> props[i].name != key
    ensures r.Some? ==> exists i :: 0 <= i < |props| && props[i].name == key && props[i].value == r.value
  {
    if props == [] then None
    else if props[0].name == key then Some(props[0].value)
    else Lookup(props[1..], key)
  }

  /** `token[key]`: a child access, which Newtonsoft allows on objects only. */
  function Child(token: JValue, key: string): (r: Result<Option<JValue>, Exception>)
    ensures r.Success? <==> token.JObj?
    ensures r.Success? ==> r.value == Lookup(token.props, key)
  {
    match token
    case JObj(props) => Success(Lookup(props, key))
    case _ => Failure(InvalidOperation("child access on a JSON value that is not an object"))
  }

  /** The reader for a numeric field (UnityGLTF's DeserializeAsDouble): a number. */
  function AsDouble(v: JValue): (r: Result<real, Exception>)
    ensures r.Success? <==> (v.JNum? || v.JInt?)
    ensures v.JNum? ==> r == Success(v.r)
    ensures v.JInt? ==> r == Success(v.i as real)
  {
    match v
    case JNum(x) => Success(x)
    case JInt(n) => Success(n as real)
    case _ => Failure(Format("not a number"))
  }

  /** The reader for an integer field (UnityGLTF's DeserializeAsInt, and the
      reader's ReadAsInt32): an integer token whose value fits a C# `int`; a
      larger one throws an OverflowException. */
  function AsInt(v: JValue): (r: Result<int, Exception>)
    ensures r.Success? <==> v.JInt? && IsInt32(v.i)
    ensures r.Success? ==> r.value == v.i
    ensures v.JInt? && !IsInt32(v.i) ==> r.Failure? && r.error.Overflow?
  {
    match v
    case JInt(n) => if IsInt32(n) then Success(n) else Failure(Overflow("value was too large or too small for an Int32"))
    case _ => Failure(Format("not an integer"))
  }
}
