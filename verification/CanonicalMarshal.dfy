// marshalCanonicalJSON as it runs: keys gathered in whatever order the map is
// walked, sorted in place, parts appended one by one and joined.
module CanonicalMarshal {
  import opened Text
  import opened Json
  import opened Sorting

  lemma KeyOrder()
    ensures TotalOrder(KeyLeq)
  {
    forall a, b ensures KeyLeq(a, b) || KeyLeq(b, a) { KeyLeqTotal(a, b); }
    forall a, b | KeyLeq(a, b) && KeyLeq(b, a) ensures a == b { KeyLeqAntisymmetric(a, b); }
    forall a, b, c | KeyLeq(a, b) && KeyLeq(b, c) ensures KeyLeq(a, c) { KeyLeqTransitive(a, b, c); }
  }

  lemma SameMembers(ks: seq<string>, keys: set<string>)
    requires multiset(ks) == multiset(keys)
    ensures forall k :: k in ks <==> k in keys
  {
    forall k ensures k in ks <==> k in keys {
      assert k in multiset(ks) <==> k in multiset(keys);
    }
  }

  lemma SortedKeysStep(keys: set<string>)
    ensures SortedKeys(keys)
         == if keys == {} then [] else [LeastKey(keys)] + SortedKeys(keys - {LeastKey(keys)})
  {
  }

  /** A sorted list of the keys of a set is the one list `SortedKeys` names. */
  lemma {:induction false} SortedIsUnique(ks: seq<string>, keys: set<string>)
    requires Sorted(ks, KeyLeq) && multiset(ks) == multiset(keys)
    ensures ks == SortedKeys(keys)
  {
    hide KeyLeq, LeastKey, SortedKeys;
    SameMembers(ks, keys);
    SortedKeysStep(keys);
    if ks == [] {
      assert keys == {};
    } else {
      assert ks[0] in ks;
      var least := LeastKey(keys);
      assert least in ks;
      KeyLeqAntisymmetric(ks[0], least) by {
        if ks[0] != least { assert KeyLeq(ks[0], least); }
        else { KeyLeqTotal(least, least); }
      }
      assert ks == [least] + ks[1..];
      assert multiset(ks[1..]) == multiset(ks) - multiset{least};
      assert multiset(keys - {least}) == multiset(keys) - multiset{least};
      SortedIsUnique(ks[1..], keys - {least});
    }
  }

  lemma {:induction false} DistinctIsSet(ks: seq<string>, keys: set<string>)
    requires forall i, j :: 0 <= i < j < |ks| ==> ks[i] != ks[j]
    requires forall k :: k in ks <==> k in keys
    ensures multiset(ks) == multiset(keys)
  {
    if ks == [] {
      assert keys == {};
    } else {
      assert ks == [ks[0]] + ks[1..];
      assert ks[0] in ks;
      DistinctIsSet(ks[1..], keys - {ks[0]});
      assert multiset(keys) == multiset(keys - {ks[0]}) + multiset{ks[0]};
    }
  }

  /** The list `SortedKeys` names is in order and holds each key once. */
  lemma {:induction false} SortedKeysInOrder(keys: set<string>)
    ensures multiset(SortedKeys(keys)) == multiset(keys)
    ensures Sorted(SortedKeys(keys), KeyLeq)
  {
    hide KeyLeq, LeastKey, SortedKeys;
    var ks := SortedKeys(keys);
    SortedKeysStep(keys);
    if keys != {} {
      var least := LeastKey(keys);
      var rest := SortedKeys(keys - {least});
      SortedKeysInOrder(keys - {least});
      assert multiset(keys) == multiset(keys - {least}) + multiset{least};
      forall i, j | 0 <= i < j < |ks|
        ensures KeyLeq(ks[i], ks[j])
      {
        assert ks[j] in ks;
        if i > 0 { assert ks[i] == rest[i - 1] && ks[j] == rest[j - 1]; }
      }
    }
  }

  /** Walk a map in an order nobody promises, then sort. */
  method CollectKeys(keys: set<string>) returns (out: seq<string>)
    ensures out == SortedKeys(keys)
  {
    out := [];
    var left := keys;
    while left != {}
      invariant left <= keys
      invariant multiset(out) + multiset(left) == multiset(keys)
      decreases left
    {
      var k :| k in left;
      assert multiset(left) == multiset(left - {k}) + multiset{k};
      out := out + [k];
      left := left - {k};
    }
    var a := new string[|out|](i requires 0 <= i < |out| => out[i]);
    assert a[..] == out;
    KeyOrder();
    Sort(a, KeyLeq);
    SortedIsUnique(a[..], keys);
    out := a[..];
  }

  /** The text does not depend on the order in which the maps are walked: at
      every depth the keys arrive in an arbitrary order, and the result is
      still the canonical text. */
  method MarshalCanonicalJSON(v: Json) returns (text: string)
    ensures text == Canonical(v)
    decreases v, 1
  {
    match v
    case Object(fields) => text := MarshalObject(v);
    case Array(items) => text := MarshalArray(v);
    case Null => text := "null";
    case Bool(b) => text := if b then "true" else "false";
    case Number(t) => text := t;
    case String(s) => text := Quote(s);
  }

  lemma CanonicalObject(v: Json)
    requires v.Object?
    ensures Canonical(v) == "{" + Join(MemberTexts(SortedKeys(v.fields.Keys), v), ",") + "}"
  {
    hide Join, MemberTexts, SortedKeys;
  }

  method MarshalObject(v: Json) returns (text: string)
    requires v.Object?
    ensures text == Canonical(v)
    decreases v, 0
  {
    hide Canonical, Join, Escape, SortedKeys, MemberTexts;
    var keys := CollectKeys(v.fields.Keys);
    var parts := [];
    for i := 0 to |keys|
      invariant |parts| == i
      invariant forall j :: 0 <= j < i ==> parts[j] == MemberText(keys[j], v)
    {
      assert keys[i] in keys;
      var valueJSON := MarshalCanonicalJSON(v.fields[keys[i]]);
      parts := parts + [Quote(keys[i]) + ":" + valueJSON];
    }
    assert parts == MemberTexts(keys, v);
    CanonicalObject(v);
    text := "{" + Join(parts, ",") + "}";
  }

  method MarshalArray(v: Json) returns (text: string)
    requires v.Array?
    ensures text == Canonical(v)
    decreases v, 0
  {
    var parts := [];
    for i := 0 to |v.items|
      invariant |parts| == i
      invariant forall j :: 0 <= j < i ==> parts[j] == Canonical(v.items[j])
    {
      var itemJSON := MarshalCanonicalJSON(v.items[i]);
      parts := parts + [itemJSON];
    }
    assert parts == ItemTexts(v.items);
    text := "[" + Join(parts, ",") + "]";
  }
}
