/**
 Serialization of values JSON cannot express: values are tagged top-down on the way
 out and untagged bottom-up on the way in. `JSON.stringify` and `JSON.parse` appear as
 walks over trees, not over text.
 */
module Grout {
  import opened Wrappers
  import opened Bits

  datatype Number = Finite(r: real) | NotANumber | Infinite(negative: bool)

  /** `Obj` is a plain object; `Foreign` is anything else that JSON cannot express, a function say.
      A `Date` without a time is an invalid one. */
  datatype Value =
    | Undefined
    | Null
    | Bool(b: bool)
    | Num(n: Number)
    | Str(s: string)
    | Arr(items: seq<Value>)
    | Obj(props: map<string, Value>)
    | Date(time: Option<int>)
    | DateTime(millis: int, zoneName: string)
    | Error(message: string)
    | Result(isOk: bool, value: Value)
    | Buffer(bytes: seq<byte>)
    | Foreign(kind: string)

  datatype Json =
    | JNull
    | JBool(b: bool)
    | JNum(r: real)
    | JStr(s: string)
    | JArr(items: seq<Json>)
    | JObj(members: map<string, Json>)

  const TYPE_KEY := "__grout_type"
  const VALUE_KEY := "__grout_value"

  /** The host's scalar conversions; `None` where they throw. Reading takes any value. */
  datatype Host = Host(
    isoOf: int -> string,
    dateOf: Value -> Option<int>,
    luxonIsoOf: int -> string,
    luxonOf: Value -> Option<int>,
    messageOf: Value -> Option<string>,
    base64Of: seq<byte> -> string,
    bytesOf: Value -> Option<seq<byte>>)

  /** Each conversion has an inverse. */
  ghost predicate Lossless(h: Host) {
    && (forall t :: h.dateOf(Str(h.isoOf(t))) == Some(t))
    && (forall t :: h.luxonOf(Str(h.luxonIsoOf(t))) == Some(t))
    && (forall s :: h.messageOf(Obj(map["message" := Str(s)])) == Some(s))
    && (forall b :: h.bytesOf(Str(h.base64Of(b))) == Some(b))
  }

  // ---- serialize

  function Tagged(tag: string, payload: Json): Json {
    JObj(map[TYPE_KEY := JStr(tag), VALUE_KEY := payload])
  }

  function Serialize(h: Host, v: Value): Option<Json> {
    match v
    case Undefined => Some(Tagged("undefined", JStr("undefined")))
    case Null => Some(JNull)
    case Bool(b) => Some(JBool(b))
    case Num(n) => if n.Finite? then Some(JNum(n.r)) else None
    case Str(s) => Some(JStr(s))
    case Arr(items) =>
      var js :- SerializeAll(h, items);
      Some(JArr(js))
    case Obj(props) =>
      if forall k | k in props :: Serialize(h, props[k]).Some?
      then Some(JObj(map k | k in props :: Serialize(h, props[k]).value))
      else None
    case Date(time) => if time.Some? then Some(Tagged("Date", JStr(h.isoOf(time.value)))) else None
    case DateTime(millis, zoneName) =>
      if zoneName == "UTC" then Some(Tagged("DateTime", JStr(h.luxonIsoOf(millis)))) else None
    case Error(message) => Some(Tagged("Error", JObj(map["message" := JStr(message)])))
    case Result(isOk, value) =>
      var j :- Serialize(h, value);
      Some(Tagged("Result", JObj(map["isOk" := JBool(isOk), "value" := j])))
    case Buffer(bytes) => Some(Tagged("Buffer", JStr(h.base64Of(bytes))))
    case Foreign(_) => None
  }

  function SerializeAll(h: Host, items: seq<Value>): (r: Option<seq<Json>>)
    ensures r.Some? ==> |r.value| == |items|
  {
    if items == [] then Some([])
    else
      var j :- Serialize(h, items[0]);
      var js :- SerializeAll(h, items[1..]);
      Some([j] + js)
  }

  // ---- deserialize

  function Get(props: map<string, Value>, key: string): Value {
    if key in props then props[key] else Undefined
  }

  predicate Truthy(v: Value)
    ensures Truthy(v) <==> v !in {Undefined, Null, Bool(false), Num(NotANumber), Num(Finite(0.0)), Str("")}
  {
    match v
    case Undefined => false
    case Null => false
    case Bool(b) => b
    case Num(n) => n.Infinite? || (n.Finite? && n.r != 0.0)
    case Str(s) => s != ""
    case _ => true
  }

  /** `value.isOk ? ok(value.value) : err(value.value)`; a result's own `isOk` is a method, hence truthy. */
  function ToResult(payload: Value): Option<Value> {
    match payload
    case Null => None
    case Undefined => None
    case Obj(props) => Some(Result(Truthy(Get(props, "isOk")), Get(props, "value")))
    case Result(isOk, value) => Some(Result(true, if isOk then value else Undefined))
    case _ => Some(Result(false, Undefined))
  }

  function Untag(h: Host, props: map<string, Value>): Option<Value> {
    if TYPE_KEY !in props || VALUE_KEY !in props then Some(Obj(props))
    else
      var payload := props[VALUE_KEY];
      match props[TYPE_KEY]
      case Str("undefined") => Some(Undefined)
      case Str("Date") => Some(Date(h.dateOf(payload)))
      case Str("DateTime") => (match h.luxonOf(payload) case None => None case Some(t) => Some(DateTime(t, "UTC")))
      case Str("Error") => (match h.messageOf(payload) case None => None case Some(s) => Some(Error(s)))
      case Str("Result") => ToResult(payload)
      case Str("Buffer") => (match h.bytesOf(payload) case None => None case Some(b) => Some(Buffer(b)))
      case _ => None
  }

  function Kept(props: map<string, Value>): map<string, Value> {
    map k | k in props && props[k] != Undefined :: props[k]
  }

  /** Children first; a child revived to `undefined` is deleted, which leaves a hole in an array. */
  function Deserialize(h: Host, j: Json): Option<Value>
    decreases j, 1
  {
    match j
    case JNull => Some(Null)
    case JBool(b) => Some(Bool(b))
    case JNum(r) => Some(Num(Finite(r)))
    case JStr(s) => Some(Str(s))
    case JArr(items) =>
      var vs :- DeserializeAll(h, items);
      Some(Arr(vs))
    case JObj(_) =>
      var props :- DeserializeMembers(h, j);
      Untag(h, Kept(props))
  }

  function DeserializeMembers(h: Host, j: Json): (r: Option<map<string, Value>>)
    requires j.JObj?
    ensures r.Some? <==> forall k :: k in j.members ==> Deserialize(h, j.members[k]).Some?
    ensures r.Some? ==> r.value.Keys == j.members.Keys
    ensures r.Some? ==> forall k :: k in j.members ==> Deserialize(h, j.members[k]) == Some(r.value[k])
    decreases j, 0
  {
    if forall k | k in j.members :: Deserialize(h, j.members[k]).Some?
    then Some(map k | k in j.members :: Deserialize(h, j.members[k]).value)
    else None
  }

  function DeserializeAll(h: Host, items: seq<Json>): (r: Option<seq<Value>>)
    ensures r.Some? ==> |r.value| == |items|
    decreases items, 0
  {
    if items == [] then Some([])
    else
      var v :- Deserialize(h, items[0]);
      var vs :- DeserializeAll(h, items[1..]);
      Some([v] + vs)
  }
}
