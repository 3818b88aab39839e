/** The parsed JSON tree (a Jackson `JsonNode`) and the two operations the
    pruner performs on an object node: looking a field up and removing one.
    An object is an ordered association list; Jackson keeps its fields in
    insertion order and with unique names. */
module JsonTree {
  import opened Wrappers

  datatype Json =
    | Object(members: seq<(string, Json)>)
    | Array(items: seq<Json>)
    | Str(text: string)
    | Num(value: real)
    | Bool(b: bool)
    | Null

  /** The field names of an object, in order. */
  function Keys(m: seq<(string, Json)>): (ks: seq<string>)
    ensures |ks| == |m|
    ensures forall i :: 0 <= i < |m| ==> ks[i] == m[i].0
  {
    if |m| == 0 then [] else [m[0].0] + Keys(m[1..])
  }

  /** No field name occurs twice. */
  predicate UniqueKeys(m: seq<(string, Json)>)
  {
    forall i, j :: 0 <= i < j < |m| ==> m[i].0 != m[j].0
  }

  /** Every object anywhere in the tree has unique field names. */
  predicate WellFormed(j: Json)
  {
    match j
    case Object(m) => UniqueKeys(m) && forall i :: 0 <= i < |m| ==> WellFormed(m[i].1)
    case Array(items) => forall i :: 0 <= i < |items| ==> WellFormed(items[i])
    case _ => true
  }

  /** `ObjectNode.get(key)`: the value of the field named `key`, or None when
      the object has no such field. */
  function Get(m: seq<(string, Json)>, key: string): (r: Option<Json>)
    ensures r.Some? <==> key in Keys(m)
    ensures r.Some? ==> (key, r.value) in m
  {
    if |m| == 0 then None
    else if m[0].0 == key then Some(m[0].1)
    else Get(m[1..], key)
  }

  /** `JsonNode.has(key)`: true exactly for an object with a field `key`
      (Jackson answers false for arrays and scalars). */
  predicate Has(j: Json, key: string)
    ensures Has(j, key) <==> j.Object? && key in Keys(j.members)
    ensures Has(j, key) ==> exists v :: (key, v) in j.members
  {
    j.Object? && Get(j.members, key).Some?
  }

  /** `ObjectNode.remove(key)`: the object without its field `key`; removing
      a field that is not there changes nothing. */
  function Remove(m: seq<(string, Json)>, key: string): (r: seq<(string, Json)>)
    ensures key !in Keys(r)
    ensures forall p :: p in r <==> p in m && p.0 != key
    ensures forall k :: k != key ==> Get(r, k) == Get(m, k)
    ensures key !in Keys(m) ==> r == m
  {
    if |m| == 0 then []
    else if m[0].0 == key then Remove(m[1..], key)
    else [m[0]] + Remove(m[1..], key)
  }

  /** The effect on a parent object of mutating the node stored under `key`:
      the first field named `key` now holds `v`, at the same position. */
  function Replace(m: seq<(string, Json)>, key: string, v: Json): (r: seq<(string, Json)>)
    ensures Keys(r) == Keys(m)
    ensures Get(r, key) == if key in Keys(m) then Some(v) else None
    ensures forall k :: k != key ==> Get(r, k) == Get(m, k)
  {
    if |m| == 0 then []
    else if m[0].0 == key then [(key, v)] + m[1..]
    else [m[0]] + Replace(m[1..], key, v)
  }

  /** With unique field names, removing a present field deletes exactly its
      one entry and keeps the order of all the others. */
  lemma {:induction false} RemoveAt(m: seq<(string, Json)>, key: string, i: nat)
    requires UniqueKeys(m)
    requires i < |m| && m[i].0 == key
    ensures Remove(m, key) == m[..i] + m[i + 1..]
  {
    UniqueTail(m);
    if i == 0 {
      assert Remove(m, key) == Remove(m[1..], key) == m[1..];
      assert m[..0] + m[1..] == m[1..];
    } else {
      assert m[0].0 != key;
      RemoveAt(m[1..], key, i - 1);
      ConsSplit(m, i);
    }
  }

  lemma UniqueTail(m: seq<(string, Json)>)
    requires UniqueKeys(m) && |m| > 0
    ensures UniqueKeys(m[1..])
    ensures m[0].0 !in Keys(m[1..])
  {
    var tail := m[1..];
    forall a, b | 0 <= a < b < |tail| ensures tail[a].0 != tail[b].0 {
      assert tail[a] == m[a + 1] && tail[b] == m[b + 1];
    }
    forall j | 0 <= j < |tail| ensures Keys(tail)[j] != m[0].0 {
      assert tail[j] == m[j + 1];
    }
  }

  lemma ConsSplit(m: seq<(string, Json)>, i: nat)
    requires 0 < i < |m|
    ensures [m[0]] + (m[1..][..i - 1] + m[1..][i..]) == m[..i] + m[i + 1..]
  {
    assert m[1..][..i - 1] == m[1..i] && m[1..][i..] == m[i + 1..];
    assert [m[0]] + m[1..i] == m[..i];
  }

  /** Removing a field twice is the same as removing it once. */
  lemma RemoveIdempotent(m: seq<(string, Json)>, key: string)
    ensures Remove(Remove(m, key), key) == Remove(m, key)
  {
  }

  /** Replacing the same field twice keeps only the second value. */
  lemma {:induction false} ReplaceTwice(m: seq<(string, Json)>, key: string, v: Json, w: Json)
    ensures Replace(Replace(m, key, v), key, w) == Replace(m, key, w)
  {
    if |m| > 0 && m[0].0 != key {
      ReplaceTwice(m[1..], key, v, w);
      assert Replace(m, key, v)[1..] == Replace(m[1..], key, v);
    }
  }

  /** Removing a field keeps the names unique and every remaining value well formed. */
  lemma RemovePreservesWellFormed(m: seq<(string, Json)>, key: string)
    requires WellFormed(Object(m))
    ensures WellFormed(Object(Remove(m, key)))
  {
    var r := Remove(m, key);
    RemoveUnique(m, key);
    forall i | 0 <= i < |r| ensures WellFormed(r[i].1) {
      assert r[i] in r;
      var j :| 0 <= j < |m| && m[j] == r[i];
    }
  }

  lemma {:induction false} RemoveUnique(m: seq<(string, Json)>, key: string)
    requires UniqueKeys(m)
    ensures UniqueKeys(Remove(m, key))
  {
    if |m| > 0 {
      UniqueTail(m);
      RemoveUnique(m[1..], key);
      if m[0].0 != key {
        RemoveKeepsAbsent(m[1..], key, m[0].0);
        ConsUnique(m[0], Remove(m[1..], key));
      }
    }
  }

  lemma {:induction false} RemoveKeepsAbsent(m: seq<(string, Json)>, key: string, k: string)
    requires k !in Keys(m)
    ensures k !in Keys(Remove(m, key))
  {
    if |m| > 0 {
      assert Keys(m) == [m[0].0] + Keys(m[1..]);
      RemoveKeepsAbsent(m[1..], key, k);
    }
  }

  lemma ConsUnique(x: (string, Json), rest: seq<(string, Json)>)
    requires UniqueKeys(rest) && x.0 !in Keys(rest)
    ensures UniqueKeys([x] + rest)
  {
    var r := [x] + rest;
    forall i, j | 0 <= i < j < |r| ensures r[i].0 != r[j].0 {
      assert r[j] == rest[j - 1];
      if i == 0 {
        assert Keys(rest)[j - 1] == rest[j - 1].0;
      } else {
        assert r[i] == rest[i - 1];
      }
    }
  }

  /** Replacing a field's value by a well-formed value keeps the object well formed. */
  lemma {:induction false} ReplacePreservesWellFormed(m: seq<(string, Json)>, key: string, v: Json)
    requires WellFormed(Object(m))
    requires WellFormed(v)
    ensures WellFormed(Object(Replace(m, key, v)))
  {
    var r := Replace(m, key, v);
    assert UniqueKeys(r) by {
      forall i, j | 0 <= i < j < |r| ensures r[i].0 != r[j].0 {
        assert Keys(r)[i] == Keys(m)[i] && Keys(r)[j] == Keys(m)[j];
      }
    }
    if |m| > 0 {
      if m[0].0 == key {
        forall i | 0 <= i < |r| ensures WellFormed(r[i].1) {
          if i > 0 { assert r[i] == m[i]; }
        }
      } else {
        assert WellFormed(Object(m[1..])) by {
          UniqueTail(m);
          forall i | 0 <= i < |m[1..]| ensures WellFormed(m[1..][i].1) {
            assert m[1..][i] == m[i + 1];
          }
        }
        ReplacePreservesWellFormed(m[1..], key, v);
        forall i | 0 <= i < |r| ensures WellFormed(r[i].1) {
          if i > 0 { assert r[i] == Replace(m[1..], key, v)[i - 1]; }
        }
      }
    }
  }
}
