/** What transformList, transformMap and transformationCriteria return,
    stated against reference definitions that do not follow their loops. */
module DecodeFacts {
  import opened Text
  import opened Values
  import opened Decoder

  /* --- transformList (main.go:124-148) --- */

  /** The decoded elements of a list, in order: non-object elements and
      elements decoding to nil are dropped, and a panic anywhere is a panic. */
  function Survivors(items: seq<Json>): Run<seq<Plain>> {
    if items == [] then Done([])
    else
      var rest := Survivors(items[1..]);
      if !items[0].JObject? then rest
      else
        match CriteriaChecks(items[0].fields)
        case Panic => Crashed
        case Nil => rest
        case Val(p) => if rest.Crashed? then Crashed else Done([p] + rest.value)
  }

  /** The list outcome for `acc` followed by the survivors `r`: nil when empty. */
  function ListResult(acc: seq<Plain>, r: Run<seq<Plain>>): Outcome {
    match r
    case Crashed => Panic
    case Done(s) => if acc + s == [] then Nil else Val(List(acc + s))
  }

  lemma {:induction false} ListFromSurvivors(items: seq<Json>, i: nat, acc: seq<Plain>)
    requires i <= |items|
    ensures ListFrom(items, i, acc) == ListResult(acc, Survivors(items[i..]))
    decreases |items| - i
  {
    if i == |items| {
      assert items[i..] == [];
      assert acc + [] == acc;
    } else {
      assert items[i..][1..] == items[i + 1..];
      if items[i].JObject? {
        match CriteriaChecks(items[i].fields)
        case Panic =>
        case Nil => ListFromSurvivors(items, i + 1, acc);
        case Val(p) =>
          ListFromSurvivors(items, i + 1, acc + [p]);
          var r := Survivors(items[i + 1..]);
          if r.Done? {
            assert acc + [p] + r.value == acc + ([p] + r.value);
          }
      } else {
        ListFromSurvivors(items, i + 1, acc);
      }
    }
  }

  /** transformList returns the survivors as a list, nil when there are none. */
  lemma DecodeListIsFilter(items: seq<Json>)
    ensures DecodeList(items) ==
      match Survivors(items)
      case Crashed => Panic
      case Done(s) => if s == [] then Nil else Val(List(s))
  {
    ListFromSurvivors(items, 0, []);
    assert items[0..] == items;
  }

  function Join(a: Run<seq<Plain>>, b: Run<seq<Plain>>): Run<seq<Plain>> {
    if a.Done? && b.Done? then Done(a.value + b.value) else Crashed
  }

  /** Filtering keeps order: the survivors of a concatenation are the
      survivors of each part, concatenated. */
  lemma {:induction false} SurvivorsAppend(a: seq<Json>, b: seq<Json>)
    ensures Survivors(a + b) == Join(Survivors(a), Survivors(b))
  {
    if a == [] {
      assert a + b == b;
      if Survivors(b).Done? {
        assert [] + Survivors(b).value == Survivors(b).value;
      }
    } else {
      var ab := a + b;
      assert ab[0] == a[0];
      assert ab[1..] == a[1..] + b;
      SurvivorsAppend(a[1..], b);
      var ra, rb := Survivors(a[1..]), Survivors(b);
      if a[0].JObject? {
        match CriteriaChecks(a[0].fields)
        case Panic =>
        case Nil =>
        case Val(p) =>
          if ra.Done? && rb.Done? {
            assert [p] + (ra.value + rb.value) == ([p] + ra.value) + rb.value;
          }
      }
    }
  }

  /** Each element decodes on its own: a single object element survives
      exactly when it decodes to a value. */
  lemma SurvivorsSingle(x: Json)
    ensures Survivors([x]) ==
      if !x.JObject? then Done([])
      else match CriteriaChecks(x.fields)
        case Panic => Crashed
        case Nil => Done([])
        case Val(p) => Done([p])
  {
    assert [x][1..] == [];
    if x.JObject? {
      match CriteriaChecks(x.fields)
      case Panic =>
      case Nil =>
      case Val(p) => assert [p] + [] == [p];
    }
  }

  /** transformList panics exactly when some object element panics. */
  lemma {:induction false} SurvivorsCrash(items: seq<Json>)
    ensures Survivors(items).Crashed? <==>
      exists j :: 0 <= j < |items| && items[j].JObject? && CriteriaChecks(items[j].fields) == Panic
  {
    if items != [] {
      SurvivorsCrash(items[1..]);
      if Survivors(items[1..]).Crashed? {
        var j :| 0 <= j < |items[1..]| && items[1..][j].JObject? && CriteriaChecks(items[1..][j].fields) == Panic;
        assert items[j + 1] == items[1..][j];
      }
      if exists j :: 0 <= j < |items| && items[j].JObject? && CriteriaChecks(items[j].fields) == Panic {
        var j :| 0 <= j < |items| && items[j].JObject? && CriteriaChecks(items[j].fields) == Panic;
        if j > 0 {
          assert items[1..][j - 1] == items[j];
        }
      }
    }
  }

  /** No more elements come out than went in. */
  lemma {:induction false} SurvivorsBound(items: seq<Json>)
    ensures Survivors(items).Done? ==> |Survivors(items).value| <= |items|
  {
    if items != [] {
      SurvivorsBound(items[1..]);
    }
  }

  /* --- transformMap (main.go:86-122) --- */

  /** Attribute `j` of `inner` is an object node decoding to `p`, under key `k`. */
  ghost predicate InnerDecodes(inner: seq<Entry>, k: string, p: Plain) {
    exists j :: 0 <= j < |inner| && inner[j].0 == k && inner[j].1.JObject? && CriteriaChecks(inner[j].1.fields) == Val(p)
  }

  /** The outer entries transformMap merges: a non-blank key and an object value. */
  predicate Merged(e: Entry) {
    TrimSpace(e.0) != "" && e.1.JObject?
  }

  /** `k` and `p` come from an attribute of a merged entry of `node`. */
  ghost predicate MapSource(node: seq<Entry>, k: string, p: Plain) {
    exists i :: 0 <= i < |node| && Merged(node[i]) && InnerDecodes(node[i].1.fields, k, p)
  }

  /** An attribute that makes transformMap panic: not an object, or one whose
      decoding panics. */
  predicate Broken(v: Json) {
    !v.JObject? || CriteriaChecks(v.fields) == Panic
  }

  lemma {:induction false} MergeInnerSources(inner: seq<Entry>, j: nat, acc: map<string, Plain>)
    requires j <= |inner|
    ensures MergeInner(inner, j, acc).Done? ==>
      var m := MergeInner(inner, j, acc).value;
      forall k :: k in m ==> (k in acc && m[k] == acc[k]) || InnerDecodes(inner, k, m[k])
    decreases |inner| - j
  {
    if j < |inner| && inner[j].1.JObject? {
      match CriteriaChecks(inner[j].1.fields)
      case Panic =>
      case Nil => MergeInnerSources(inner, j + 1, acc);
      case Val(p) =>
        var k0 := inner[j].0;
        MergeInnerSources(inner, j + 1, acc[k0 := p]);
        var r := MergeInner(inner, j + 1, acc[k0 := p]);
        if r.Done? {
          forall k | k in r.value && !(k in acc && r.value[k] == acc[k])
            ensures InnerDecodes(inner, k, r.value[k])
          {
            if k == k0 && r.value[k] == p {
              assert inner[j].0 == k;
            }
          }
        }
    }
  }

  lemma {:induction false} MergeInnerComplete(inner: seq<Entry>, j: nat, acc: map<string, Plain>)
    requires j <= |inner|
    ensures MergeInner(inner, j, acc).Done? ==>
      forall j' :: j <= j' < |inner| && inner[j'].1.JObject? && CriteriaChecks(inner[j'].1.fields).Val? ==>
        inner[j'].0 in MergeInner(inner, j, acc).value
    decreases |inner| - j
  {
    var r := MergeInner(inner, j, acc);
    if j == |inner| {
      assert r == Done(acc);
    } else if !inner[j].1.JObject? {
      assert r == Crashed;
    } else {
      match CriteriaChecks(inner[j].1.fields)
      case Panic =>
        assert r == Crashed;
      case Nil =>
        assert r == MergeInner(inner, j + 1, acc);
        MergeInnerComplete(inner, j + 1, acc);
        if r.Done? {
          forall j' | j <= j' < |inner| && inner[j'].1.JObject? && CriteriaChecks(inner[j'].1.fields).Val?
            ensures inner[j'].0 in r.value
          {
            assert j' != j;
          }
        }
      case Val(p) =>
        var acc' := acc[inner[j].0 := p];
        assert r == MergeInner(inner, j + 1, acc');
        MergeInnerComplete(inner, j + 1, acc');
        if r.Done? {
          forall j' | j <= j' < |inner| && inner[j'].1.JObject? && CriteriaChecks(inner[j'].1.fields).Val?
            ensures inner[j'].0 in r.value
          {
            if j' == j {
              assert inner[j].0 in acc';
            }
          }
        }
    }
  }

  /** Some attribute of `inner` from the `j`-th on is broken. */
  ghost predicate BrokenAttr(inner: seq<Entry>, j: nat)
    decreases |inner| - j
  {
    j < |inner| && (Broken(inner[j].1) || BrokenAttr(inner, j + 1))
  }

  lemma {:induction false} MergeInnerCrash(inner: seq<Entry>, j: nat, acc: map<string, Plain>)
    requires j <= |inner|
    ensures MergeInner(inner, j, acc).Crashed? <==> BrokenAttr(inner, j)
    decreases |inner| - j
  {
    var r := MergeInner(inner, j, acc);
    if j == |inner| {
      assert r == Done(acc);
    } else {
      if !inner[j].1.JObject? {
        assert r == Crashed;
      } else {
        match CriteriaChecks(inner[j].1.fields)
        case Panic =>
          assert r == Crashed;
        case Nil =>
          assert r == MergeInner(inner, j + 1, acc);
          MergeInnerCrash(inner, j + 1, acc);
        case Val(p) =>
          var acc' := acc[inner[j].0 := p];
          assert r == MergeInner(inner, j + 1, acc');
          MergeInnerCrash(inner, j + 1, acc');
      }
    }
  }

  lemma {:induction false} MapFromSources(node: seq<Entry>, i: nat, acc: map<string, Plain>, bound: nat)
    requires i <= |node|
    requires forall e :: e in node ==> Size(e.1) < bound
    ensures MapFrom(node, i, acc, bound).Val? ==>
      var m := MapFrom(node, i, acc, bound).v.entries;
      forall k :: k in m ==> (k in acc && m[k] == acc[k]) || MapSource(node, k, m[k])
    decreases |node| - i
  {
    var out := MapFrom(node, i, acc, bound);
    if i == |node| {
      assert out == Val(Obj(acc));
    } else if !Merged(node[i]) {
      assert out == MapFrom(node, i + 1, acc, bound);
      MapFromSources(node, i + 1, acc, bound);
    } else {
      var inner := node[i].1.fields;
      MergeInnerSources(inner, 0, acc);
      var r := MergeInner(inner, 0, acc);
      if r.Crashed? {
        assert out == Panic;
      } else {
        assert out == MapFrom(node, i + 1, r.value, bound);
        MapFromSources(node, i + 1, r.value, bound);
        if out.Val? {
          SourcesThroughMerge(node, i, acc, r.value, out.v.entries);
        }
      }
    }
  }

  /** Merging entry `i` then the rest keeps every binding traceable. */
  lemma SourcesThroughMerge(node: seq<Entry>, i: nat, acc: map<string, Plain>, mid: map<string, Plain>, m: map<string, Plain>)
    requires i < |node| && Merged(node[i])
    requires forall k :: k in mid ==> (k in acc && mid[k] == acc[k]) || InnerDecodes(node[i].1.fields, k, mid[k])
    requires forall k :: k in m ==> (k in mid && m[k] == mid[k]) || MapSource(node, k, m[k])
    ensures forall k :: k in m ==> (k in acc && m[k] == acc[k]) || MapSource(node, k, m[k])
  {
    forall k | k in m && !(k in acc && m[k] == acc[k])
      ensures MapSource(node, k, m[k])
    {
      if k in mid && m[k] == mid[k] {
        assert InnerDecodes(node[i].1.fields, k, m[k]);
      }
    }
  }

  lemma {:induction false} MapFromComplete(node: seq<Entry>, i: nat, acc: map<string, Plain>, bound: nat)
    requires i <= |node|
    requires forall e :: e in node ==> Size(e.1) < bound
    ensures MapFrom(node, i, acc, bound).Val? ==>
      forall i', j ::
        (i <= i' < |node| && Merged(node[i']) && 0 <= j < |node[i'].1.fields| &&
         node[i'].1.fields[j].1.JObject? && CriteriaChecks(node[i'].1.fields[j].1.fields).Val?) ==>
          node[i'].1.fields[j].0 in MapFrom(node, i, acc, bound).v.entries
    decreases |node| - i
  {
    var out := MapFrom(node, i, acc, bound);
    if i == |node| {
      return;
    }
    if !Merged(node[i]) {
      assert out == MapFrom(node, i + 1, acc, bound);
      MapFromComplete(node, i + 1, acc, bound);
      if out.Val? {
        CompleteAfterSkip(node, i, out.v.entries);
      }
      return;
    }
    var inner := node[i].1.fields;
    MergeInnerComplete(inner, 0, acc);
    var r := MergeInner(inner, 0, acc);
    if r.Crashed? {
      assert out == Panic;
      return;
    }
    assert out == MapFrom(node, i + 1, r.value, bound);
    MapFromComplete(node, i + 1, r.value, bound);
    if out.Val? {
      CompleteAfterMerge(node, i, r.value, out.v.entries);
    }
  }

  lemma CompleteAfterSkip(node: seq<Entry>, i: nat, m: map<string, Plain>)
    requires i < |node| && !Merged(node[i])
    requires forall i', j ::
      (i + 1 <= i' < |node| && Merged(node[i']) && 0 <= j < |node[i'].1.fields| &&
       node[i'].1.fields[j].1.JObject? && CriteriaChecks(node[i'].1.fields[j].1.fields).Val?) ==>
        node[i'].1.fields[j].0 in m
    ensures forall i', j ::
      (i <= i' < |node| && Merged(node[i']) && 0 <= j < |node[i'].1.fields| &&
       node[i'].1.fields[j].1.JObject? && CriteriaChecks(node[i'].1.fields[j].1.fields).Val?) ==>
        node[i'].1.fields[j].0 in m
  {
    forall i', j |
      (i <= i' < |node| && Merged(node[i']) && 0 <= j < |node[i'].1.fields| &&
       node[i'].1.fields[j].1.JObject? && CriteriaChecks(node[i'].1.fields[j].1.fields).Val?)
      ensures node[i'].1.fields[j].0 in m
    {
      assert i' != i;
    }
  }

  lemma CompleteAfterMerge(node: seq<Entry>, i: nat, mid: map<string, Plain>, m: map<string, Plain>)
    requires i < |node| && Merged(node[i])
    requires forall j ::
      (0 <= j < |node[i].1.fields| && node[i].1.fields[j].1.JObject? &&
       CriteriaChecks(node[i].1.fields[j].1.fields).Val?) ==> node[i].1.fields[j].0 in mid
    requires mid.Keys <= m.Keys
    requires forall i', j ::
      (i + 1 <= i' < |node| && Merged(node[i']) && 0 <= j < |node[i'].1.fields| &&
       node[i'].1.fields[j].1.JObject? && CriteriaChecks(node[i'].1.fields[j].1.fields).Val?) ==>
        node[i'].1.fields[j].0 in m
    ensures forall i', j ::
      (i <= i' < |node| && Merged(node[i']) && 0 <= j < |node[i'].1.fields| &&
       node[i'].1.fields[j].1.JObject? && CriteriaChecks(node[i'].1.fields[j].1.fields).Val?) ==>
        node[i'].1.fields[j].0 in m
  {
    forall i', j |
      (i <= i' < |node| && Merged(node[i']) && 0 <= j < |node[i'].1.fields| &&
       node[i'].1.fields[j].1.JObject? && CriteriaChecks(node[i'].1.fields[j].1.fields).Val?)
      ensures node[i'].1.fields[j].0 in m
    {
      if i' == i {
        assert node[i].1.fields[j].0 in mid;
      }
    }
  }

  /** Some merged entry of `node` from the `i`-th on has a broken attribute. */
  ghost predicate BrokenFrom(node: seq<Entry>, i: nat)
    decreases |node| - i
  {
    i < |node| && ((Merged(node[i]) && BrokenAttr(node[i].1.fields, 0)) || BrokenFrom(node, i + 1))
  }

  lemma {:induction false} MapFromPanic(node: seq<Entry>, i: nat, acc: map<string, Plain>, bound: nat)
    requires i <= |node|
    requires forall e :: e in node ==> Size(e.1) < bound
    ensures MapFrom(node, i, acc, bound) == Panic <==> BrokenFrom(node, i)
    decreases |node| - i
  {
    var out := MapFrom(node, i, acc, bound);
    if i == |node| {
      assert out == Val(Obj(acc));
    } else {
      if !Merged(node[i]) {
        assert out == MapFrom(node, i + 1, acc, bound);
        MapFromPanic(node, i + 1, acc, bound);
      } else {
        var inner := node[i].1.fields;
        MergeInnerCrash(inner, 0, acc);
        var r := MergeInner(inner, 0, acc);
        if r.Crashed? {
          assert out == Panic;
        } else {
          assert out == MapFrom(node, i + 1, r.value, bound);
          MapFromPanic(node, i + 1, r.value, bound);
        }
      }
    }
  }

  /** transformMap never returns nil. It returns the attributes of the
      node's merged entries that decode to a value, under their own keys,
      and panics exactly when one of those attributes is broken. */
  lemma DecodeMapMeaning(node: seq<Entry>, bound: nat)
    requires forall e :: e in node ==> Size(e.1) < bound
    ensures DecodeMap(node, bound) != Nil
    ensures DecodeMap(node, bound) == Panic <==> BrokenFrom(node, 0)
    ensures DecodeMap(node, bound).Val? ==>
      var m := DecodeMap(node, bound).v.entries;
      && (forall k :: k in m ==> MapSource(node, k, m[k]))
      && (forall i, j ::
            (0 <= i < |node| && Merged(node[i]) && 0 <= j < |node[i].1.fields| &&
             node[i].1.fields[j].1.JObject? && CriteriaChecks(node[i].1.fields[j].1.fields).Val?) ==>
              node[i].1.fields[j].0 in m)
  {
    MapFromSources(node, 0, map[], bound);
    MapFromComplete(node, 0, map[], bound);
    MapFromPanic(node, 0, map[], bound);
  }

  /* --- transformationCriteria (main.go:13-33) --- */

  /** The top-level entries that are decoded: non-blank key, object value. */
  predicate Kept(e: Entry, p: Plain) {
    Merged(e) && CriteriaChecks(e.1.fields) == Val(p)
  }

  /** `k` and `p` come from a kept entry of `input` from the `i`-th on. */
  ghost predicate KeptFrom(input: seq<Entry>, i: nat, k: string, p: Plain) {
    exists i' :: i <= i' < |input| && input[i'].0 == k && Kept(input[i'], p)
  }

  lemma KeptFromStep(input: seq<Entry>, i: nat)
    requires i < |input|
    ensures forall k, p :: KeptFrom(input, i + 1, k, p) ==> KeptFrom(input, i, k, p)
  {
    forall k, p | KeptFrom(input, i + 1, k, p)
      ensures KeptFrom(input, i, k, p)
    {
      var i' :| i + 1 <= i' < |input| && input[i'].0 == k && Kept(input[i'], p);
    }
  }

  lemma KeptHere(input: seq<Entry>, i: nat, p: Plain)
    requires i < |input| && Kept(input[i], p)
    ensures KeptFrom(input, i, input[i].0, p)
  {
  }

  lemma {:induction false} DocumentFromSources(input: seq<Entry>, i: nat, acc: map<string, Plain>)
    requires i <= |input|
    ensures DocumentFrom(input, i, acc).Done? ==>
      var out := DocumentFrom(input, i, acc).value;
      forall k :: k in out ==> (k in acc && out[k] == acc[k]) || KeptFrom(input, i, k, out[k])
    decreases |input| - i
  {
    var r := DocumentFrom(input, i, acc);
    if i == |input| {
      assert r == Done(acc);
    } else if !Merged(input[i]) {
      assert r == DocumentFrom(input, i + 1, acc);
      DocumentFromSources(input, i + 1, acc);
      KeptFromStep(input, i);
    } else {
      match CriteriaChecks(input[i].1.fields)
      case Panic =>
        assert r == Crashed;
      case Nil =>
        assert r == DocumentFrom(input, i + 1, acc);
        DocumentFromSources(input, i + 1, acc);
        KeptFromStep(input, i);
      case Val(p) =>
        var k0 := input[i].0;
        var acc' := acc[k0 := p];
        assert r == DocumentFrom(input, i + 1, acc');
        DocumentFromSources(input, i + 1, acc');
        KeptFromStep(input, i);
        if r.Done? {
          forall k | k in r.value && !(k in acc && r.value[k] == acc[k])
            ensures KeptFrom(input, i, k, r.value[k])
          {
            if k == k0 && r.value[k] == p {
              KeptHere(input, i, p);
            }
          }
        }
    }
  }

  /** Entries after position `i` whose key is not `k` leave `k` alone. */
  lemma {:induction false} DocumentFromKeeps(input: seq<Entry>, i: nat, acc: map<string, Plain>, k: string)
    requires i <= |input|
    requires forall i' :: i <= i' < |input| ==> input[i'].0 != k
    requires k in acc
    ensures DocumentFrom(input, i, acc).Done? ==>
      k in DocumentFrom(input, i, acc).value && DocumentFrom(input, i, acc).value[k] == acc[k]
    decreases |input| - i
  {
    var r := DocumentFrom(input, i, acc);
    if i == |input| {
      assert r == Done(acc);
    } else if !Merged(input[i]) {
      assert r == DocumentFrom(input, i + 1, acc);
      DocumentFromKeeps(input, i + 1, acc, k);
    } else {
      match CriteriaChecks(input[i].1.fields)
      case Panic =>
        assert r == Crashed;
      case Nil =>
        assert r == DocumentFrom(input, i + 1, acc);
        DocumentFromKeeps(input, i + 1, acc, k);
      case Val(p) =>
        var acc' := acc[input[i].0 := p];
        assert r == DocumentFrom(input, i + 1, acc');
        assert k in acc' && acc'[k] == acc[k];
        DocumentFromKeeps(input, i + 1, acc', k);
    }
  }

  /** What the top-level loop binds after visiting `e` without panicking. */
  function AccAfter(acc: map<string, Plain>, e: Entry): map<string, Plain> {
    if Merged(e) && CriteriaChecks(e.1.fields).Val? then acc[e.0 := CriteriaChecks(e.1.fields).v] else acc
  }

  lemma DocumentFromUnfold(input: seq<Entry>, i: nat, acc: map<string, Plain>)
    requires i < |input|
    ensures Merged(input[i]) && CriteriaChecks(input[i].1.fields) == Panic ==> DocumentFrom(input, i, acc) == Crashed
    ensures !(Merged(input[i]) && CriteriaChecks(input[i].1.fields) == Panic) ==>
      DocumentFrom(input, i, acc) == DocumentFrom(input, i + 1, AccAfter(acc, input[i]))
  {
  }

  lemma {:induction false} DocumentFromComplete(input: seq<Entry>, i: nat, acc: map<string, Plain>)
    requires i <= |input| && DistinctKeys(input)
    ensures DocumentFrom(input, i, acc).Done? ==>
      var out := DocumentFrom(input, i, acc).value;
      forall i', p :: i <= i' < |input| && Kept(input[i'], p) ==> input[i'].0 in out && out[input[i'].0] == p
    decreases |input| - i
  {
    if i < |input| {
      DocumentFromUnfold(input, i, acc);
      var e := input[i];
      if !(Merged(e) && CriteriaChecks(e.1.fields) == Panic) {
        var acc' := AccAfter(acc, e);
        DocumentFromComplete(input, i + 1, acc');
        var r := DocumentFrom(input, i + 1, acc');
        if Merged(e) && CriteriaChecks(e.1.fields).Val? {
          forall i' | i + 1 <= i' < |input|
            ensures input[i'].0 != e.0
          {
            assert input[i].0 != input[i'].0;
          }
          DocumentFromKeeps(input, i + 1, acc', e.0);
        }
        if r.Done? {
          forall i', p | i <= i' < |input| && Kept(input[i'], p)
            ensures input[i'].0 in r.value && r.value[input[i'].0] == p
          {
            if i' == i {
              assert acc'[e.0] == p;
            }
          }
        }
      }
    }
  }

  /** A top-level entry whose decoding panics. */
  predicate Panics(e: Entry) {
    Merged(e) && CriteriaChecks(e.1.fields) == Panic
  }

  /** Some decoded entry of `input` from the `i`-th on panics. */
  ghost predicate PanicsFrom(input: seq<Entry>, i: nat)
    decreases |input| - i
  {
    i < |input| && (Panics(input[i]) || PanicsFrom(input, i + 1))
  }

  lemma {:induction false} DocumentFromCrash(input: seq<Entry>, i: nat, acc: map<string, Plain>)
    requires i <= |input|
    ensures DocumentFrom(input, i, acc).Crashed? <==> PanicsFrom(input, i)
    decreases |input| - i
  {
    var r := DocumentFrom(input, i, acc);
    if i == |input| {
      assert r == Done(acc);
    } else {
      if !Merged(input[i]) {
        assert r == DocumentFrom(input, i + 1, acc);
        DocumentFromCrash(input, i + 1, acc);
      } else {
        match CriteriaChecks(input[i].1.fields)
        case Panic =>
          assert r == Crashed;
        case Nil =>
          assert r == DocumentFrom(input, i + 1, acc);
          DocumentFromCrash(input, i + 1, acc);
        case Val(p) =>
          var acc' := acc[input[i].0 := p];
          assert r == DocumentFrom(input, i + 1, acc');
          DocumentFromCrash(input, i + 1, acc');
      }
    }
  }

  /** transformationCriteria panics exactly when a decoded entry panics;
      otherwise its result binds exactly the keys of the entries kept, each to
      that entry's decoding. Entries decoding to nil are left out. */
  lemma DocumentMeaning(input: seq<Entry>)
    requires DistinctKeys(input)
    ensures Document(input).Crashed? <==> PanicsFrom(input, 0)
    ensures Document(input).Done? ==>
      var out := Document(input).value;
      && (forall k :: k in out ==> KeptFrom(input, 0, k, out[k]))
      && (forall i, p :: 0 <= i < |input| && Kept(input[i], p) ==> input[i].0 in out && out[input[i].0] == p)
  {
    DocumentFromCrash(input, 0, map[]);
    DocumentFromSources(input, 0, map[]);
    DocumentFromComplete(input, 0, map[]);
  }

  lemma {:induction false} KeysBound(m: seq<Entry>)
    ensures |Keys(m)| <= |m|
  {
    if m != [] {
      KeysBound(m[1..]);
      KeysCons(m[0], m[1..]);
      assert m == [m[0]] + m[1..];
    }
  }

  /** The result has at most one key per input entry, all of them input keys. */
  lemma DocumentSize(input: seq<Entry>)
    requires DistinctKeys(input)
    ensures Document(input).Done? ==> Document(input).value.Keys <= Keys(input) && |Document(input).value| <= |input|
  {
    DocumentMeaning(input);
    if Document(input).Done? {
      var out := Document(input).value;
      forall k | k in out
        ensures k in Keys(input)
      {
        var i :| 0 <= i < |input| && input[i].0 == k && Kept(input[i], out[k]);
        assert input[i] in input;
      }
      KeysBound(input);
      assert |out.Keys| <= |Keys(input)| by {
        SubsetCard(out.Keys, Keys(input));
      }
    }
  }

  lemma SubsetCard(a: set<string>, b: set<string>)
    requires a <= b
    ensures |a| <= |b|
  {
    assert b == a + (b - a);
  }
}
