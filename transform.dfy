/** The loops of main.go as methods. Each is proved to compute the function
    of module Decoder that follows the same loop, so every property proved
    about those functions holds of the methods. */
module Transform {
  import opened Text
  import opened Values
  import opened Scalars
  import Decoder
  import NormalizeFacts
  import opened Sorting

  /** main.go `criteriaChecks`. The first loop copies every value to its
      trimmed key; the second dispatches on the first entry whose trimmed key
      is a recognised tag. Go updates the caller's map in place, and
      transformMap can reach that map again through the alias the first loop
      added; the model works on a local copy, which decodes the same because
      normalising twice is normalising once (Renormalize.CriteriaChecksNormalized). */
  method CriteriaChecks(node: seq<Entry>) returns (r: Outcome)
    ensures r == Decoder.CriteriaChecks(node)
    decreases Size(JObject(node)), 3
  {
    var cur := NormalizeKeys(node);
    ghost var bound := Size(JObject(node));
    assert Decoder.CriteriaChecks(node) == Decoder.Dispatch(cur, 0, bound);
    for i := 0 to |cur|
      invariant Decoder.Dispatch(cur, i, bound) == Decoder.CriteriaChecks(node)
    {
      var val := cur[i].1;
      assert cur[i] in cur;
      ghost var here := Decoder.Dispatch(cur, i, bound);
      var tag := Decoder.TagOf(TrimSpace(cur[i].0));
      if tag.Some? {
        NormalizeFacts.DispatchAt(cur, i, bound, tag.value);
      } else {
        NormalizeFacts.DispatchSkip(cur, i, bound);
      }
      match tag {
        case Some(StringTag) =>
          if !val.JString? {
            assert here == Panic;
            return Panic;
          }
          assert here == FromOption(TransformString(val.s));
          return FromOption(TransformString(val.s));
        case Some(NumberTag) =>
          if !val.JString? {
            assert here == Panic;
            return Panic;
          }
          assert here == FromOption(TransformNumeric(val.s));
          return FromOption(TransformNumeric(val.s));
        case Some(BoolTag) =>
          if !val.JString? {
            assert here == Panic;
            return Panic;
          }
          assert here == FromOption(TransformBool(val.s));
          return FromOption(TransformBool(val.s));
        case Some(NullTag) =>
          if !val.JString? {
            assert here == Panic;
            return Panic;
          }
          if TrimSpace(val.s) == "" {
            assert here == Nil;
            return Nil;
          }
          assert here == FromOption(TransformNull(val.s));
          return FromOption(TransformNull(val.s));
        case Some(ListTag) =>
          if !val.JArray? {
            assert here == Nil;
            return Nil;
          }
          var res := TransformList(val.items);
          if res != Nil {
            assert here == res;
            return res;
          }
          assert here == Decoder.Dispatch(cur, i + 1, bound);
        case Some(MapTag) =>
          assert here == Decoder.DecodeMap(cur, bound);
          r := TransformMap(cur, bound);
          return;
        case None =>
          assert here == Decoder.Dispatch(cur, i + 1, bound);
      }
    }
    return Nil;
  }

  /** The first loop of criteriaChecks (main.go:37-44): each original key's
      value is stored again under its trimmed form, unless that is blank. */
  method NormalizeKeys(node: seq<Entry>) returns (cur: seq<Entry>)
    ensures cur == Decoder.Normalize(node)
  {
    cur := node;
    for i := 0 to |node|
      invariant Decoder.NormalizeFrom(node, i, cur) == Decoder.Normalize(node)
    {
      var key := node[i].0;
      var temp := Lookup(cur, key);
      var t := TrimSpace(key);
      if t == "" {
        continue;
      }
      if temp.Some? {
        cur := Put(cur, t, temp.value);
      }
    }
  }

  /** main.go `transformList`: object elements are decoded, nil decodings
      dropped, other elements skipped; an empty result is nil. */
  method TransformList(items: seq<Json>) returns (r: Outcome)
    ensures r == Decoder.DecodeList(items)
    decreases Size(JArray(items)), 1
  {
    var result: seq<Plain> := [];
    for i := 0 to |items|
      invariant Decoder.ListFrom(items, i, result) == Decoder.DecodeList(items)
    {
      var item := items[i];
      if !item.JObject? {
        continue;
      }
      ItemSmaller(items, i);
      var transformed := CriteriaChecks(item.fields);
      match transformed {
        case Panic => return Panic;
        case Nil =>
        case Val(p) => result := result + [p];
      }
    }
    if |result| == 0 {
      return Nil;
    }
    return Val(List(result));
  }

  /** main.go `transformMap`: the attributes of every object entry with a
      non-blank key are decoded and merged into one map, later ones
      replacing earlier ones; the map is then copied in sorted key order. */
  method TransformMap(node: seq<Entry>, ghost bound: nat) returns (r: Outcome)
    requires forall e :: e in node ==> Size(e.1) < bound
    ensures r == Decoder.DecodeMap(node, bound)
    decreases bound, 1
  {
    var result: map<string, Plain> := map[];
    for i := 0 to |node|
      invariant Decoder.MapFrom(node, i, result, bound) == Decoder.DecodeMap(node, bound)
    {
      var key := node[i].0;
      var value := node[i].1;
      if TrimSpace(key) == "" || !value.JObject? {
        continue;
      }
      assert node[i] in node;
      var merged := MergeAttributes(value.fields, result);
      match merged {
        case Crashed => return Panic;
        case Done(m) => result := m;
      }
    }
    var sortedResult := SortedCopy(result);
    return Val(Obj(sortedResult));
  }

  /** The inner loop of transformMap (main.go:98-105) over the attributes of
      one entry: each must be an object; a non-nil decoding is stored under
      the attribute's key. */
  method MergeAttributes(inner: seq<Entry>, acc: map<string, Plain>) returns (r: Run<map<string, Plain>>)
    ensures r == Decoder.MergeInner(inner, 0, acc)
    decreases Size(JObject(inner)), 0
  {
    var result := acc;
    for j := 0 to |inner|
      invariant Decoder.MergeInner(inner, j, result) == Decoder.MergeInner(inner, 0, acc)
    {
      var val := inner[j].1;
      if !val.JObject? {
        return Crashed;
      }
      FieldSmaller(inner, j);
      var transformed := CriteriaChecks(val.fields);
      match transformed {
        case Panic => return Crashed;
        case Nil =>
        case Val(p) => result := result[inner[j].0 := p];
      }
    }
    return Done(result);
  }

  /** The end of transformMap (main.go:109-121): the keys are collected,
      sorted, and the entries copied into a new map in that order. A Go map
      has no order, so the copy equals the original. */
  method SortedCopy(result: map<string, Plain>) returns (sortedResult: map<string, Plain>)
    ensures sortedResult == result
  {
    var keys := CollectKeys(result);
    var sorted := new string[|keys|](k requires 0 <= k < |keys| => keys[k]);
    assert sorted[..] == keys;
    SortStrings(sorted);
    forall k
      ensures k in sorted[..] <==> k in result
    {
      assert k in sorted[..] <==> k in multiset(sorted[..]);
      assert k in keys <==> k in multiset(keys);
    }
    sortedResult := Rebuild(result, sorted[..]);
  }

  /** The keys of `m` in some order, each once (main.go:109-112). */
  method CollectKeys(m: map<string, Plain>) returns (keys: seq<string>)
    ensures forall k :: k in keys <==> k in m
    ensures forall p, q :: 0 <= p < q < |keys| ==> keys[p] != keys[q]
  {
    keys := [];
    var rest := m.Keys;
    while rest != {}
      invariant rest <= m.Keys
      invariant forall k :: k in keys <==> k in m && k !in rest
      invariant forall p, q :: 0 <= p < q < |keys| ==> keys[p] != keys[q]
      decreases |rest|
    {
      var k :| k in rest;
      keys := keys + [k];
      rest := rest - {k};
    }
  }

  /** Copies the entries of `m` under `keys` into a fresh map (main.go:116-119);
      with every key of `m` listed, the copy is `m` itself. */
  method Rebuild(m: map<string, Plain>, keys: seq<string>) returns (r: map<string, Plain>)
    requires forall k :: k in keys <==> k in m
    ensures r == m
  {
    r := map[];
    for i := 0 to |keys|
      invariant forall k :: k in r <==> k in keys[..i]
      invariant forall k :: k in r ==> k in m && r[k] == m[k]
    {
      r := r[keys[i] := m[keys[i]]];
    }
    assert keys[..|keys|] == keys;
  }

  /** main.go `transformationCriteria`: every object entry with a non-blank
      key is decoded and kept under its key unless the decoding is nil. */
  method TransformationCriteria(input: seq<Entry>) returns (r: Run<map<string, Plain>>)
    ensures r == Decoder.Document(input)
  {
    var resultMap: map<string, Plain> := map[];
    for i := 0 to |input|
      invariant Decoder.DocumentFrom(input, i, resultMap) == Decoder.Document(input)
    {
      var k := input[i].0;
      var v := input[i].1;
      if TrimSpace(k) == "" || !v.JObject? {
        continue;
      }
      var transformed := CriteriaChecks(v.fields);
      match transformed {
        case Panic => return Crashed;
        case Nil =>
        case Val(p) => resultMap := resultMap[k := p];
      }
    }
    return Done(resultMap);
  }
}
