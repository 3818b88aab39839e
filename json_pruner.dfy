/** `extractDataAndRemoveResult`: choose the node to emit and remove the
    `result` field below its `imageInfos`. Jackson mutates the parsed nodes in
    place; here each mutation is a rewrite of the freshly parsed value, which
    nothing else can observe. */
module JsonPruner {
  import opened Wrappers
  import opened JsonTree

  const DataKey := "data"
  const ImageInfosKey := "imageInfos"
  const ResultKey := "result"

  /** One element of an `imageInfos` array: an object loses its `result`
      field, anything else is left alone. */
  function StripResult(j: Json): (r: Json)
    ensures j.Object? ==> r.Object? && ResultKey !in Keys(r.members)
    ensures j.Object? ==> forall k :: k != ResultKey ==> Get(r.members, k) == Get(j.members, k)
    ensures !j.Object? ==> r == j
  {
    if j.Object? then Object(Remove(j.members, ResultKey)) else j
  }

  /** Every element of an `imageInfos` array, stripped in place: the same
      length and order, no object element keeps a `result` field but every
      other field keeps its value, and the other elements are unchanged. */
  function StripEach(items: seq<Json>): (r: seq<Json>)
    ensures |r| == |items|
    ensures forall i :: 0 <= i < |items| && items[i].Object? ==>
      r[i].Object? && ResultKey !in Keys(r[i].members)
    ensures forall i, k :: 0 <= i < |items| && items[i].Object? && k != ResultKey ==>
      Get(r[i].members, k) == Get(items[i].members, k)
    ensures forall i :: 0 <= i < |items| && !items[i].Object? ==> r[i] == items[i]
  {
    seq(|items|, i requires 0 <= i < |items| => StripResult(items[i]))
  }

  /** The new value of an `imageInfos` field: an object loses its `result`
      field, an array has each of its object elements stripped (same length,
      same order), and any other value is unchanged. */
  function PruneImageInfos(v: Json): (r: Json)
    ensures v.Object? ==> r == StripResult(v)
    ensures v.Array? ==> r.Array? && |r.items| == |v.items|
    ensures v.Array? ==> forall i :: 0 <= i < |v.items| ==> r.items[i] == StripResult(v.items[i])
    ensures !v.Object? && !v.Array? ==> r == v
  {
    match v
    case Object(m) => Object(Remove(m, ResultKey))
    case Array(items) => Array(StripEach(items))
    case _ => v
  }

  /** The target container after pruning: only its `imageInfos` field may
      change, it keeps its position, and every other field, including a
      `result` sitting directly in the container, is kept. */
  function PruneContainer(m: seq<(string, Json)>): (r: seq<(string, Json)>)
    ensures Keys(r) == Keys(m)
    ensures forall k :: k != ImageInfosKey ==> Get(r, k) == Get(m, k)
    ensures Get(m, ImageInfosKey).None? ==> r == m
    ensures Get(m, ImageInfosKey).Some? ==> Get(r, ImageInfosKey) == Some(PruneImageInfos(Get(m, ImageInfosKey).value))
  {
    match Get(m, ImageInfosKey)
    case None => m
    case Some(v) => Replace(m, ImageInfosKey, PruneImageInfos(v))
  }

  /** What the pruner answers for a parsed root: the JSON node it serialises,
      or the original text (a root that is neither an object nor holds `data`). */
  datatype Outcome = Serialize(node: Json) | ReturnInput

  /** The branch structure of `extractDataAndRemoveResult` on a parsed root:
      only a root that is not an object yields the input text; a non-object
      `data` is emitted as it is; otherwise an object keeping the field names
      of the target container is emitted. */
  function Select(root: Json): (r: Outcome)
    ensures r.ReturnInput? <==> !root.Object?
    ensures Has(root, DataKey) && !Get(root.members, DataKey).value.Object? ==>
      r == Serialize(Get(root.members, DataKey).value)
    ensures Has(root, DataKey) && Get(root.members, DataKey).value.Object? ==>
      r.node.Object? && Keys(r.node.members) == Keys(Get(root.members, DataKey).value.members)
    ensures root.Object? && !Has(root, DataKey) ==>
      r.node.Object? && Keys(r.node.members) == Keys(root.members)
  {
    if Has(root, DataKey) then
      var data := Get(root.members, DataKey).value;
      if data.Object? then Serialize(Object(PruneContainer(data.members)))
      else Serialize(data)
    else if root.Object? then Serialize(Object(PruneContainer(root.members)))
    else ReturnInput
  }

  /** The whole of `extractDataAndRemoveResult`: None is the exception thrown
      when the text does not parse, and it is the only failure; a root that
      is not an object gives back the input text itself. */
  function Extract(parse: string -> Option<Json>, ser: Json -> string, jsonStr: string): (r: Option<string>)
    ensures r.None? <==> parse(jsonStr).None?
    ensures parse(jsonStr).Some? && !parse(jsonStr).value.Object? ==> r == Some(jsonStr)
    ensures parse(jsonStr).Some? && parse(jsonStr).value.Object? ==> r == Some(ser(Select(parse(jsonStr).value).node))
  {
    match parse(jsonStr)
    case None => None
    case Some(root) =>
      match Select(root)
      case Serialize(node) => Some(ser(node))
      case ReturnInput => Some(jsonStr)
  }

  /** The loop over an `imageInfos` array, each object element losing its
      `result` field in place. */
  method RemoveResultFromEach(items: seq<Json>) returns (pruned: seq<Json>)
    ensures pruned == StripEach(items)
  {
    pruned := items;
    for i := 0 to |items|
      invariant |pruned| == |items|
      invariant forall k :: 0 <= k < i ==> pruned[k] == StripResult(items[k])
      invariant forall k :: i <= k < |items| ==> pruned[k] == items[k]
    {
      var imageInfo := pruned[i];
      if imageInfo.Object? {
        pruned := pruned[i := Object(Remove(imageInfo.members, ResultKey))];
      }
    }
  }

  /** The `imageInfos` step applied to a target container. */
  method RemoveResultFromImageInfos(container: seq<(string, Json)>) returns (r: seq<(string, Json)>)
    ensures r == PruneContainer(container)
  {
    r := container;
    var imageInfos := Get(container, ImageInfosKey);
    if imageInfos.Some? {
      match imageInfos.value {
        case Object(m) =>
          r := Replace(container, ImageInfosKey, Object(Remove(m, ResultKey)));
        case Array(items) =>
          var pruned := RemoveResultFromEach(items);
          r := Replace(container, ImageInfosKey, Array(pruned));
        case _ =>
          ReplaceSame(container, ImageInfosKey);
      }
    }
  }

  /** Storing back the value a field already holds changes nothing. */
  lemma {:induction false} ReplaceSame(m: seq<(string, Json)>, key: string)
    requires Get(m, key).Some?
    ensures Replace(m, key, Get(m, key).value) == m
  {
    if m[0].0 != key {
      assert Get(m, key) == Get(m[1..], key);
      ReplaceSame(m[1..], key);
      assert Replace(m, key, Get(m, key).value) == [m[0]] + m[1..];
    } else {
      assert Replace(m, key, Get(m, key).value) == [m[0]] + m[1..];
    }
    assert [m[0]] + m[1..] == m;
  }

  method ExtractDataAndRemoveResult(parse: string -> Option<Json>, ser: Json -> string, jsonStr: string)
    returns (r: Option<string>)
    ensures r == Extract(parse, ser, jsonStr)
  {
    var rootNode := parse(jsonStr);
    if rootNode.None? {
      return None;
    }
    var root := rootNode.value;
    if Has(root, DataKey) {
      var dataNode := Get(root.members, DataKey).value;
      if dataNode.Object? {
        var pruned := RemoveResultFromImageInfos(dataNode.members);
        return Some(ser(Object(pruned)));
      } else {
        return Some(ser(dataNode));
      }
    } else if root.Object? {
      var pruned := RemoveResultFromImageInfos(root.members);
      return Some(ser(Object(pruned)));
    }
    return Some(jsonStr);
  }

  // ---- What each branch of the selection yields ----

  /** An object-valued `data` becomes the answer: it keeps its field names in
      order, every field but `imageInfos` keeps its value, and the root's
      other fields play no part. The clause on `result` is implied by the one
      before it and is stated on its own for emphasis: a `result` directly
      under `data` survives. */
  lemma DataObjectSelected(root: Json, data: seq<(string, Json)>)
    requires root.Object? && Get(root.members, DataKey) == Some(Object(data))
    ensures Select(root).Serialize? && Select(root).node.Object?
    ensures Keys(Select(root).node.members) == Keys(data)
    ensures forall k :: k != ImageInfosKey ==> Get(Select(root).node.members, k) == Get(data, k)
    ensures Get(Select(root).node.members, ResultKey) == Get(data, ResultKey)
    ensures Get(data, ImageInfosKey).Some? ==>
      Get(Select(root).node.members, ImageInfosKey) == Some(PruneImageInfos(Get(data, ImageInfosKey).value))
    ensures forall other: Json :: other.Object? && Get(other.members, DataKey) == Some(Object(data)) ==> Select(other) == Select(root)
  {
  }

  /** With `imageInfos` an object, reached through `data` or in a root without
      `data`, its `result` field is gone and all its other fields are unchanged. */
  lemma ImageInfosObjectPruned(root: Json, container: seq<(string, Json)>, infos: seq<(string, Json)>)
    requires root.Object?
    requires Get(root.members, DataKey) == Some(Object(container))
      || (Get(root.members, DataKey).None? && container == root.members)
    requires Get(container, ImageInfosKey) == Some(Object(infos))
    ensures Select(root).Serialize? && Select(root).node.Object?
    ensures var out := Get(Select(root).node.members, ImageInfosKey);
      out.Some? && out.value.Object? && ResultKey !in Keys(out.value.members)
      && forall k :: k != ResultKey ==> Get(out.value.members, k) == Get(infos, k)
  {
  }

  /** With `imageInfos` an array, reached through `data` or in a root without
      `data`, the answer's array has the same length and order, object
      elements lose `result` and nothing else, other elements are unchanged. */
  lemma ImageInfosArrayPruned(root: Json, container: seq<(string, Json)>, items: seq<Json>)
    requires root.Object?
    requires Get(root.members, DataKey) == Some(Object(container))
      || (Get(root.members, DataKey).None? && container == root.members)
    requires Get(container, ImageInfosKey) == Some(Array(items))
    ensures Select(root).Serialize? && Select(root).node.Object?
    ensures var out := Get(Select(root).node.members, ImageInfosKey);
      out.Some? && out.value.Array? && |out.value.items| == |items|
      && forall i :: 0 <= i < |items| ==>
           (items[i].Object? ==> out.value.items[i] == Object(Remove(items[i].members, ResultKey)))
           && (!items[i].Object? ==> out.value.items[i] == items[i])
  {
  }

  /** An `imageInfos` that is neither object nor array leaves the container as it was. */
  lemma ImageInfosScalarKept(container: seq<(string, Json)>)
    requires Get(container, ImageInfosKey).Some?
    requires !Get(container, ImageInfosKey).value.Object? && !Get(container, ImageInfosKey).value.Array?
    ensures PruneContainer(container) == container
  {
    ReplaceSame(container, ImageInfosKey);
  }

  /** A `data` that is present but not an object, JSON null included, is the
      answer as it is. */
  lemma DataNotObjectSelected(root: Json)
    requires root.Object? && Get(root.members, DataKey).Some?
    requires !Get(root.members, DataKey).value.Object?
    ensures Select(root) == Serialize(Get(root.members, DataKey).value)
  {
  }

  /** Without `data`, an object root is the answer with only its `imageInfos` pruned. */
  lemma NoDataRootSelected(root: Json)
    requires root.Object? && !Has(root, DataKey)
    ensures Select(root).Serialize? && Select(root).node.Object?
    ensures Keys(Select(root).node.members) == Keys(root.members)
    ensures forall k :: k != ImageInfosKey ==> Get(Select(root).node.members, k) == Get(root.members, k)
    ensures Get(root.members, ImageInfosKey).Some? ==>
      Get(Select(root).node.members, ImageInfosKey) == Some(PruneImageInfos(Get(root.members, ImageInfosKey).value))
  {
  }

  /** A root that is not an object (an array or a scalar) makes the pruner
      return its input text unchanged, without serialising. */
  lemma NonObjectRootReturnsInput(parse: string -> Option<Json>, ser: Json -> string, jsonStr: string)
    requires parse(jsonStr).Some? && !parse(jsonStr).value.Object?
    ensures Extract(parse, ser, jsonStr) == Some(jsonStr)
  {
  }

  // ---- Idempotence and well-formedness ----

  /** Pruning an already pruned `imageInfos` value changes nothing. */
  lemma PruneImageInfosIdempotent(v: Json)
    ensures PruneImageInfos(PruneImageInfos(v)) == PruneImageInfos(v)
  {
    if v.Array? {
      var once := PruneImageInfos(v).items;
      var twice := PruneImageInfos(PruneImageInfos(v)).items;
      forall i | 0 <= i < |once| ensures twice[i] == once[i] {
        if v.items[i].Object? {
          RemoveIdempotent(v.items[i].members, ResultKey);
        }
      }
    } else if v.Object? {
      RemoveIdempotent(v.members, ResultKey);
    }
  }

  /** Pruning an already pruned container changes nothing. */
  lemma PruneContainerIdempotent(m: seq<(string, Json)>)
    ensures PruneContainer(PruneContainer(m)) == PruneContainer(m)
  {
    if Get(m, ImageInfosKey).Some? {
      var v := Get(m, ImageInfosKey).value;
      PruneImageInfosIdempotent(v);
      ReplaceTwice(m, ImageInfosKey, PruneImageInfos(v), PruneImageInfos(PruneImageInfos(v)));
    }
  }

  /** Re-running the pruner on its own output, re-parsed, gives the same text,
      provided serialisation round-trips the node it emitted and that node has
      no `data` field of its own (otherwise the second run descends again). */
  lemma ReprocessIsNoOp(parse: string -> Option<Json>, ser: Json -> string, jsonStr: string)
    requires parse(jsonStr).Some?
    requires Select(parse(jsonStr).value).Serialize? ==>
      var node := Select(parse(jsonStr).value).node;
      parse(ser(node)) == Some(node) && !Has(node, DataKey)
    ensures Extract(parse, ser, jsonStr).Some?
    ensures Extract(parse, ser, Extract(parse, ser, jsonStr).value) == Extract(parse, ser, jsonStr)
  {
    var root := parse(jsonStr).value;
    if Select(root).Serialize? {
      var node := Select(root).node;
      if node.Object? {
        var m :| node == Object(PruneContainer(m));
        PruneContainerIdempotent(m);
      }
    }
  }

  /** Pruning keeps every object's field names unique. */
  lemma {:induction false} PruneImageInfosWellFormed(v: Json)
    requires WellFormed(v)
    ensures WellFormed(PruneImageInfos(v))
  {
    match v
    case Object(m) =>
      RemovePreservesWellFormed(m, ResultKey);
    case Array(items) =>
      var out := PruneImageInfos(v).items;
      forall i | 0 <= i < |out| ensures WellFormed(out[i]) {
        if items[i].Object? {
          RemovePreservesWellFormed(items[i].members, ResultKey);
        }
      }
    case _ =>
  }

  /** Pruning a well-formed container keeps it well formed. */
  lemma PruneContainerWellFormed(m: seq<(string, Json)>)
    requires WellFormed(Object(m))
    ensures WellFormed(Object(PruneContainer(m)))
  {
    if Get(m, ImageInfosKey).Some? {
      var v := Get(m, ImageInfosKey).value;
      var k :| 0 <= k < |m| && m[k] == (ImageInfosKey, v);
      PruneImageInfosWellFormed(v);
      ReplacePreservesWellFormed(m, ImageInfosKey, PruneImageInfos(v));
    }
  }

  /** The node the pruner emits is well formed whenever the parsed root is. */
  lemma SelectWellFormed(root: Json)
    requires WellFormed(root)
    ensures Select(root).Serialize? ==> WellFormed(Select(root).node)
  {
    if Has(root, DataKey) {
      var data := Get(root.members, DataKey).value;
      var k :| 0 <= k < |root.members| && root.members[k] == (DataKey, data);
      if data.Object? {
        PruneContainerWellFormed(data.members);
      }
    } else if root.Object? {
      PruneContainerWellFormed(root.members);
    }
  }

  // ---- Worked examples ----

  /** An `imageInfos` array under `data`: both elements keep `url` and lose `result`. */
  lemma ArrayUnderDataExample()
    ensures var root := Object([(DataKey, Object([(ImageInfosKey, Array([
              Object([("url", Str("img1.jpg")), (ResultKey, Str("ok"))]),
              Object([("url", Str("img2.jpg")), (ResultKey, Str("failed"))])]))]))]);
      Select(root) == Serialize(Object([(ImageInfosKey, Array([
        Object([("url", Str("img1.jpg"))]),
        Object([("url", Str("img2.jpg"))])]))]))
  {
    var items := [
      Object([("url", Str("img1.jpg")), (ResultKey, Str("ok"))]),
      Object([("url", Str("img2.jpg")), (ResultKey, Str("failed"))])];
    var stripped := [Object([("url", Str("img1.jpg"))]), Object([("url", Str("img2.jpg"))])];
    assert Remove(items[0].members, ResultKey) == stripped[0].members;
    assert Remove(items[1].members, ResultKey) == stripped[1].members;
    assert StripEach(items) == stripped;
    var data := [(ImageInfosKey, Array(items))];
    assert Get(data, ImageInfosKey) == Some(Array(items));
    assert PruneContainer(data) == [(ImageInfosKey, Array(stripped))];
    var root := Object([(DataKey, Object(data))]);
    assert Get(root.members, DataKey) == Some(Object(data));
  }

  /** A `result` directly under `data`, with no `imageInfos`, is kept: the
      answer is the whole `data` object. */
  lemma ResultDirectlyUnderDataExample()
    ensures var data := [("user", Str("John")), ("age", Num(30.0)), (ResultKey, Str("success"))];
      Select(Object([(DataKey, Object(data))])) == Serialize(Object(data))
  {
  }

  /** Why re-processing needs the emitted node to lack `data`: a `data` nested
      in `data` is unwrapped once per run, so `{"data":{"data":{"x":1}}}`
      gives `{"data":{"x":1}}` and then `{"x":1}`. */
  lemma NestedDataExample()
    ensures var inner := Object([("x", Num(1.0))]);
      var once := Object([(DataKey, inner)]);
      Select(Object([(DataKey, once)])) == Serialize(once)
      && Select(once) == Serialize(inner)
      && once != inner
  {
    var inner := Object([("x", Num(1.0))]);
    var once := Object([(DataKey, inner)]);
    assert Get([("x", Num(1.0))], ImageInfosKey).None?;
    assert Get(once.members, ImageInfosKey).None?;
  }
}
