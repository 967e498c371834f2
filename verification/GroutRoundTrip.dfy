/** When deserializing undoes serializing, and which values can be serialized at all. */
module GroutRoundTrip {
  import opened Wrappers
  import opened Bits
  import opened Grout

  /** Equal at every key and index, where an absent key reads as undefined. */
  predicate ReadsSame(v: Value, w: Value) {
    match v
    case Arr(items) =>
      w.Arr? && |w.items| == |items| && forall i :: 0 <= i < |items| ==> ReadsSame(items[i], w.items[i])
    case Obj(props) =>
      && w.Obj?
      && (forall k :: k in w.props ==> k in props)
      && (forall k :: k in props ==>
            if props[k].Undefined? then Get(w.props, k) == Undefined
            else k in w.props && ReadsSame(props[k], w.props[k]))
    case Result(isOk, value) => w.Result? && w.isOk == isOk && ReadsSame(value, w.value)
    case _ => w == v
  }

  predicate BothKeysSet(props: map<string, Value>) {
    Get(props, TYPE_KEY) != Undefined && Get(props, VALUE_KEY) != Undefined
  }

  /** No plain object anywhere in the value has something under both tag keys. */
  predicate TagFree(v: Value) {
    match v
    case Arr(items) => forall i :: 0 <= i < |items| ==> TagFree(items[i])
    case Obj(props) => !BothKeysSet(props) && forall k :: k in props ==> TagFree(props[k])
    case Result(_, value) => TagFree(value)
    case _ => true
  }

  /** `r`, read back from `v`, is a faithful copy exactly when `v` is free of look-alike tags. */
  ghost predicate FaithfulExactly(v: Value, r: Option<Value>) {
    && (TagFree(v) <==> r.Some? && ReadsSame(v, r.value))
    && (v.Undefined? ==> r == Some(Undefined))
  }

  lemma MembersRead(h: Host, members: map<string, Json>, values: map<string, Value>)
    requires members.Keys == values.Keys
    requires forall k :: k in members ==> Deserialize(h, members[k]) == Some(values[k])
    ensures Deserialize(h, JObj(members)) == Untag(h, Kept(values))
  {
    hide Untag, Kept;
    assert DeserializeMembers(h, JObj(members)).value == values;
  }

  lemma UntagPlain(h: Host, props: map<string, Value>)
    ensures TYPE_KEY !in props || VALUE_KEY !in props ==> Untag(h, props) == Some(Obj(props))
    ensures TYPE_KEY in props && VALUE_KEY in props ==> Untag(h, props).None? || !Untag(h, props).value.Obj?
  {
  }

  lemma TaggedReads(h: Host, tag: string, payload: Json, w: Value)
    requires Deserialize(h, payload) == Some(w) && w != Undefined
    ensures Deserialize(h, Tagged(tag, payload)) == Untag(h, map[TYPE_KEY := Str(tag), VALUE_KEY := w])
  {
    hide Untag;
    var values := map[TYPE_KEY := Str(tag), VALUE_KEY := w];
    MembersRead(h, map[TYPE_KEY := JStr(tag), VALUE_KEY := payload], values);
    assert Kept(values) == values;
  }

  lemma TaggedTextReads(h: Host, tag: string, text: string)
    ensures Deserialize(h, Tagged(tag, JStr(text))) == Untag(h, map[TYPE_KEY := Str(tag), VALUE_KEY := Str(text)])
  {
    TaggedReads(h, tag, JStr(text), Str(text));
  }

  lemma TaggedFails(h: Host, tag: string, payload: Json)
    requires Deserialize(h, payload).None?
    ensures Deserialize(h, Tagged(tag, payload)).None?
  {
    var members := map[TYPE_KEY := JStr(tag), VALUE_KEY := payload];
    assert VALUE_KEY in members && DeserializeMembers(h, JObj(members)).None?;
  }

  lemma ErrorReads(h: Host, message: string)
    requires Lossless(h)
    ensures Deserialize(h, Serialize(h, Error(message)).value) == Some(Error(message))
  {
    hide Deserialize;
    var values := map["message" := Str(message)];
    ErrorPayloadReads(h, message);
    assert TYPE_KEY !in values;
    UntagPlain(h, values);
    TaggedReads(h, "Error", JObj(map["message" := JStr(message)]), Obj(values));
    UntagByTag(h, "Error", Obj(values));
  }

  lemma ErrorPayloadReads(h: Host, message: string)
    ensures Deserialize(h, JObj(map["message" := JStr(message)])) == Untag(h, map["message" := Str(message)])
  {
    hide Untag;
    var values := map["message" := Str(message)];
    MembersRead(h, map["message" := JStr(message)], values);
    assert Kept(values) == values;
  }

  /** The tagger that answers to each tag. */
  lemma UntagByTag(h: Host, tag: string, payload: Value)
    ensures Untag(h, map[TYPE_KEY := Str(tag), VALUE_KEY := payload]) ==
              match tag {
                case "undefined" => Some(Undefined)
                case "Date" => Some(Date(h.dateOf(payload)))
                case "DateTime" => match h.luxonOf(payload) { case None => None case Some(t) => Some(DateTime(t, "UTC")) }
                case "Error" => match h.messageOf(payload) { case None => None case Some(s) => Some(Error(s)) }
                case "Result" => ToResult(payload)
                case "Buffer" => match h.bytesOf(payload) { case None => None case Some(b) => Some(Buffer(b)) }
                case _ => None
              }
  {
    hide ToResult;
  }

  lemma ResultReads(h: Host, isOk: bool, j: Json)
    ensures Deserialize(h, Tagged("Result", JObj(map["isOk" := JBool(isOk), "value" := j]))) ==
              match Deserialize(h, j) { case None => None case Some(w) => Some(Result(isOk, w)) }
  {
    hide Serialize;
    var members := map["isOk" := JBool(isOk), "value" := j];
    var read := Deserialize(h, j);
    if read.Some? {
      var values := map["isOk" := Bool(isOk), "value" := read.value];
      MembersRead(h, members, values);
      ResultPayload(h, isOk, read.value);
      TaggedReads(h, "Result", JObj(members), Obj(Kept(values)));
      UntagByTag(h, "Result", Obj(Kept(values)));
    } else {
      assert "value" in members && DeserializeMembers(h, JObj(members)).None?;
      TaggedFails(h, "Result", JObj(members));
    }
  }

  lemma ResultPayload(h: Host, isOk: bool, w: Value)
    ensures var values := Kept(map["isOk" := Bool(isOk), "value" := w]);
            && Untag(h, values) == Some(Obj(values))
            && ToResult(Obj(values)) == Some(Result(isOk, w))
  {
    var values := Kept(map["isOk" := Bool(isOk), "value" := w]);
    assert TYPE_KEY !in values;
    UntagPlain(h, values);
  }

  /** A plain object survives exactly when its children do and it does not look tagged. */
  lemma ObjectReads(h: Host, v: Value)
    requires v.Obj? && Serialize(h, v).Some?
    requires forall k :: k in v.props ==> FaithfulExactly(v.props[k], Deserialize(h, Serialize(h, v.props[k]).value))
    ensures FaithfulExactly(v, Deserialize(h, Serialize(h, v).value))
  {
    hide Untag, Kept;
    var props := v.props;
    var members := Serialize(h, v).value.members;
    assert members.Keys == props.Keys;
    var read := DeserializeMembers(h, JObj(members));
    if read.Some? {
      PlainSurvives(h, props, read.value);
    } else {
      var k :| k in members && Deserialize(h, members[k]).None?;
      assert !TagFree(props[k]);
    }
  }

  lemma PlainSurvives(h: Host, props: map<string, Value>, values: map<string, Value>)
    requires props.Keys == values.Keys
    requires forall k :: k in props ==> FaithfulExactly(props[k], Some(values[k]))
    ensures FaithfulExactly(Obj(props), Untag(h, Kept(values)))
  {
    UntagPlain(h, Kept(values));
    PlainParts(props, values);
    forall k | k in props
      ensures KeptSame(props, values, k) <==> TagFree(props[k])
    {
      KeptFaithfully(props, values, k);
    }
    if forall k :: k in props ==> TagFree(props[k]) {
      TagsKept(props, values);
    }
    hide Untag, TagFree, ReadsSame, KeptSame, Kept;
  }

  lemma PlainParts(props: map<string, Value>, values: map<string, Value>)
    requires props.Keys == values.Keys
    ensures TagFree(Obj(props)) <==> !BothKeysSet(props) && forall k :: k in props ==> TagFree(props[k])
    ensures ReadsSame(Obj(props), Obj(Kept(values))) <==> forall k :: k in props ==> KeptSame(props, values, k)
    ensures forall w :: ReadsSame(Obj(props), w) ==> w.Obj?
  {
  }

  /** The property reads the same once undefined ones are deleted. */
  predicate KeptSame(props: map<string, Value>, values: map<string, Value>, k: string)
    requires k in props
  {
    if props[k].Undefined? then Get(Kept(values), k) == Undefined
    else k in Kept(values) && ReadsSame(props[k], Kept(values)[k])
  }

  lemma KeptFaithfully(props: map<string, Value>, values: map<string, Value>, k: string)
    requires k in props && k in values && FaithfulExactly(props[k], Some(values[k]))
    ensures KeptSame(props, values, k) <==> TagFree(props[k])
  {
  }

  /** Both tags are kept when both are set and survive; only then can the object look tagged. */
  lemma TagsKept(props: map<string, Value>, values: map<string, Value>)
    requires props.Keys == values.Keys
    requires forall k :: k in props ==> FaithfulExactly(props[k], Some(values[k]))
    requires forall k :: k in props ==> TagFree(props[k])
    ensures BothKeysSet(props) <==> TYPE_KEY in Kept(values) && VALUE_KEY in Kept(values)
  {
    hide TagFree;
  }

  predicate AllTagFree(items: seq<Value>) {
    forall i :: 0 <= i < |items| ==> TagFree(items[i])
  }

  predicate AllReadSame(items: seq<Value>, others: seq<Value>)
    requires |items| == |others|
  {
    forall i :: 0 <= i < |items| ==> ReadsSame(items[i], others[i])
  }

  lemma FirstAndRest(items: seq<Value>, others: seq<Value>)
    requires |items| == |others| > 0
    ensures AllTagFree(items) <==> TagFree(items[0]) && AllTagFree(items[1..])
    ensures AllReadSame(items, others) <==> ReadsSame(items[0], others[0]) && AllReadSame(items[1..], others[1..])
  {
    hide TagFree, ReadsSame;
    assert forall i :: 0 <= i < |items| ==> items[i] == (if i == 0 then items[0] else items[1..][i - 1]);
    assert forall i :: 0 <= i < |items| - 1 ==> items[1..][i] == items[i + 1];
    assert forall i :: 0 <= i < |items| ==> others[i] == (if i == 0 then others[0] else others[1..][i - 1]);
    assert forall i :: 0 <= i < |items| - 1 ==> others[1..][i] == others[i + 1];
  }

  lemma {:induction false} ArrayReads(h: Host, items: seq<Value>)
    requires SerializeAll(h, items).Some?
    requires forall i :: 0 <= i < |items| ==>
               Serialize(h, items[i]).Some? && FaithfulExactly(items[i], Deserialize(h, Serialize(h, items[i]).value))
    ensures var r := DeserializeAll(h, SerializeAll(h, items).value);
            AllTagFree(items) <==> r.Some? && AllReadSame(items, r.value)
  {
    hide Serialize, Deserialize, TagFree, ReadsSame;
    if items != [] {
      var js := SerializeAll(h, items).value;
      assert js[1..] == SerializeAll(h, items[1..]).value && js[0] == Serialize(h, items[0]).value;
      assert FaithfulExactly(items[0], Deserialize(h, js[0]));
      ArrayReads(h, items[1..]);
      var r := DeserializeAll(h, js);
      FirstAndRest(items, if r.Some? then r.value else items);
    }
  }

  /**
   What `deserialize(serialize(v))` gives back reads the same as `v` at every key and index
   exactly when no plain object in `v` has something under both tag keys.
   */
  lemma {:induction false} RoundTripExactly(h: Host, v: Value)
    requires Lossless(h) && Serialize(h, v).Some?
    ensures FaithfulExactly(v, Deserialize(h, Serialize(h, v).value))
  {
    match v
    case Arr(items) =>
      ItemsSerializable(h, items);
      forall i | 0 <= i < |items|
        ensures FaithfulExactly(items[i], Deserialize(h, Serialize(h, items[i]).value))
      {
        RoundTripExactly(h, items[i]);
      }
      ArrayReads(h, items);
    case Obj(props) =>
      forall k | k in props
        ensures FaithfulExactly(props[k], Deserialize(h, Serialize(h, props[k]).value))
      {
        RoundTripExactly(h, props[k]);
      }
      ObjectReads(h, v);
    case Result(isOk, value) =>
      RoundTripExactly(h, value);
      ResultReads(h, isOk, Serialize(h, value).value);
    case Error(message) =>
      ErrorReads(h, message);
    case _ =>
      LeafReads(h, v);
  }

  lemma LeafReads(h: Host, v: Value)
    requires Lossless(h) && Serialize(h, v).Some?
    requires !v.Arr? && !v.Obj? && !v.Result? && !v.Error?
    ensures Deserialize(h, Serialize(h, v).value) == Some(v)
  {
    hide Untag;
    match v
    case Undefined =>
      TaggedTextReads(h, "undefined", "undefined");
      UntagByTag(h, "undefined", Str("undefined"));
    case Date(time) =>
      var t: int := time.value;
      TaggedTextReads(h, "Date", h.isoOf(t));
      UntagByTag(h, "Date", Str(h.isoOf(t)));
      assert h.dateOf(Str(h.isoOf(t))) == Some(t);
    case DateTime(millis, _) =>
      TaggedTextReads(h, "DateTime", h.luxonIsoOf(millis));
      UntagByTag(h, "DateTime", Str(h.luxonIsoOf(millis)));
    case Buffer(bytes) =>
      TaggedTextReads(h, "Buffer", h.base64Of(bytes));
      UntagByTag(h, "Buffer", Str(h.base64Of(bytes)));
    case _ =>
  }

  // ---- the form of what is sent

  lemma TaggedIs(tag: string, payload: Json)
    ensures Tagged(tag, payload) == JObj(map["__grout_type" := JStr(tag), "__grout_value" := payload])
  {
  }

  /** Each value that JSON cannot express is sent as an object with the two tag keys. */
  lemma TaggedForm(h: Host, isOk: bool, v: Value, time: int, bytes: seq<byte>, message: string)
    requires Serialize(h, v).Some?
    ensures Serialize(h, Undefined) == Some(Tagged("undefined", JStr("undefined")))
    ensures Serialize(h, Date(Some(time))) == Some(Tagged("Date", JStr(h.isoOf(time))))
    ensures Serialize(h, DateTime(time, "UTC")) == Some(Tagged("DateTime", JStr(h.luxonIsoOf(time))))
    ensures Serialize(h, Error(message)) == Some(Tagged("Error", JObj(map["message" := JStr(message)])))
    ensures Serialize(h, Buffer(bytes)) == Some(Tagged("Buffer", JStr(h.base64Of(bytes))))
    ensures Serialize(h, Result(isOk, v))
         == Some(Tagged("Result", JObj(map["isOk" := JBool(isOk), "value" := Serialize(h, v).value])))
  {
    hide Tagged;
  }

  /** A tagged result whose `isOk` is not a boolean is ok exactly when that is truthy. */
  lemma ForeignResult(h: Host, ok: Json, read: Value)
    requires Deserialize(h, ok) == Some(read) && read != Undefined
    ensures Deserialize(h, Tagged("Result", JObj(map["isOk" := ok])))
         == Some(Result(read !in {Null, Bool(false), Num(NotANumber), Num(Finite(0.0)), Str("")}, Undefined))
  {
    hide Deserialize;
    var values := map["isOk" := read];
    ForeignPayload(h, ok, read);
    TaggedReads(h, "Result", JObj(map["isOk" := ok]), Obj(values));
    UntagByTag(h, "Result", Obj(values));
  }

  lemma ForeignPayload(h: Host, ok: Json, read: Value)
    requires Deserialize(h, ok) == Some(read) && read != Undefined
    ensures Deserialize(h, JObj(map["isOk" := ok])) == Some(Obj(map["isOk" := read]))
  {
    var values := map["isOk" := read];
    MembersRead(h, map["isOk" := ok], values);
    assert Kept(values) == values;
    UntagPlain(h, values);
  }

  /** A result tagged as a result once more: its own `isOk` is a method and so truthy, whichever it is. */
  lemma ResultTaggedAgain(h: Host, payload: Json, isOk: bool, v: Value)
    requires Deserialize(h, payload) == Some(Result(isOk, v))
    ensures Deserialize(h, Tagged("Result", payload)) == Some(Result(true, if isOk then v else Undefined))
  {
    hide Deserialize;
    TaggedReads(h, "Result", payload, Result(isOk, v));
    UntagByTag(h, "Result", Result(isOk, v));
  }

  /** What is tagged as a result and has no `isOk` is a failure with nothing in it, and `null` is refused. */
  lemma OddResultPayload(h: Host, payload: Json, w: Value)
    requires Deserialize(h, payload) == Some(w) && w != Undefined && !w.Obj? && !w.Result?
    ensures Deserialize(h, Tagged("Result", payload)) == if w == Null then None else Some(Result(false, Undefined))
  {
    hide Deserialize;
    TaggedReads(h, "Result", payload, w);
    UntagByTag(h, "Result", w);
  }

  /** Nor is a tag that no tagger knows accepted, whatever it tags. */
  lemma UnknownTagRefused(h: Host, tag: string, payload: Json)
    requires tag !in {"undefined", "Date", "DateTime", "Error", "Result", "Buffer"}
    requires Deserialize(h, payload) != Some(Undefined)
    ensures Deserialize(h, Tagged(tag, payload)) == None
  {
    hide Deserialize;
    var read := Deserialize(h, payload);
    if read.Some? {
      TaggedReads(h, tag, payload, read.value);
      UntagByTag(h, tag, read.value);
    } else {
      TaggedFails(h, tag, payload);
    }
  }

  // ---- what can be serialized

  datatype Step = Key(key: string) | Index(index: nat) | Inside

  /** The sub-value a path leads to. */
  function Reach(v: Value, path: seq<Step>): Option<Value> {
    if path == [] then Some(v)
    else
      match (v, path[0])
      case (Arr(items), Index(i)) => if i < |items| then Reach(items[i], path[1..]) else None
      case (Obj(props), Key(k)) => if k in props then Reach(props[k], path[1..]) else None
      case (Result(_, value), Inside) => Reach(value, path[1..])
      case _ => None
  }

  /** Supported on its own, whatever it contains. */
  predicate Supported(v: Value) {
    match v
    case Num(n) => n.Finite?
    case Date(time) => time.Some?
    case DateTime(_, zoneName) => zoneName == "UTC"
    case Foreign(_) => false
    case _ => true
  }

  ghost predicate AllSupported(v: Value) {
    forall path :: Reach(v, path).Some? ==> Supported(Reach(v, path).value)
  }

  lemma {:induction false} ItemsSerializable(h: Host, items: seq<Value>)
    ensures SerializeAll(h, items).Some? <==> forall i :: 0 <= i < |items| ==> Serialize(h, items[i]).Some?
  {
    if items != [] {
      ItemsSerializable(h, items[1..]);
      assert forall i :: 0 <= i < |items| ==> items[i] == if i == 0 then items[0] else items[1..][i - 1];
      assert forall i :: 0 <= i < |items| - 1 ==> items[1..][i] == items[i + 1];
    }
  }

  lemma SupportedBelow(v: Value, step: Step, child: Value)
    requires AllSupported(v) && Reach(v, [step]) == Some(child)
    ensures AllSupported(child)
  {
    assert [step][1..] == [];
    forall path | Reach(child, path).Some?
      ensures Supported(Reach(child, path).value)
    {
      assert ([step] + path)[1..] == path;
      assert Reach(v, [step] + path) == Reach(child, path);
    }
  }

  /** `serialize` succeeds exactly when every value reachable inside is a supported one. */
  lemma {:induction false} SerializableExactly(h: Host, v: Value)
    ensures Serialize(h, v).Some? <==> AllSupported(v)
  {
    if AllSupported(v) {
      SupportedSerializes(h, v);
    }
    if Serialize(h, v).Some? {
      forall path | Reach(v, path).Some?
        ensures Supported(Reach(v, path).value)
      {
        SerializedSupported(h, v, path);
      }
    }
  }

  lemma {:induction false} SupportedSerializes(h: Host, v: Value)
    requires AllSupported(v)
    ensures Serialize(h, v).Some?
  {
    assert Reach(v, []) == Some(v);
    match v
    case Arr(items) =>
      forall i: nat | i < |items|
        ensures Serialize(h, items[i]).Some?
      {
        assert [Index(i)][1..] == [];
        SupportedBelow(v, Index(i), items[i]);
        SupportedSerializes(h, items[i]);
      }
      ItemsSerializable(h, items);
    case Obj(props) =>
      forall k | k in props
        ensures Serialize(h, props[k]).Some?
      {
        assert [Key(k)][1..] == [];
        SupportedBelow(v, Key(k), props[k]);
        SupportedSerializes(h, props[k]);
      }
    case Result(_, value) =>
      assert [Inside][1..] == [];
      SupportedBelow(v, Inside, value);
      SupportedSerializes(h, value);
    case _ =>
  }

  lemma {:induction false} SerializedSupported(h: Host, v: Value, path: seq<Step>)
    requires Serialize(h, v).Some? && Reach(v, path).Some?
    ensures Supported(Reach(v, path).value)
    decreases v
  {
    if path != [] {
      match v
      case Arr(items) =>
        ItemsSerializable(h, items);
        SerializedSupported(h, items[path[0].index], path[1..]);
      case Obj(props) => SerializedSupported(h, props[path[0].key], path[1..]);
      case Result(_, value) => SerializedSupported(h, value, path[1..]);
      case _ =>
    }
  }
}
