/** The typed-attribute decoder of main.go as mutually recursive functions
    over the JSON tree. Each function follows one loop of the source with its
    accumulator as a parameter; module Transform proves the loops compute them. */
module Decoder {
  import opened Text
  import opened Values
  import opened Scalars

  /** The recognised type tags, as written in keys. */
  const Tags: set<string> := {"S", "N", "BOOL", "NULL", "L", "M"}

  datatype Tag = StringTag | NumberTag | BoolTag | NullTag | ListTag | MapTag

  /** The tag a trimmed key names, if any. */
  function TagOf(t: string): Option<Tag> {
    if t == "S" then Some(StringTag)
    else if t == "N" then Some(NumberTag)
    else if t == "BOOL" then Some(BoolTag)
    else if t == "NULL" then Some(NullTag)
    else if t == "L" then Some(ListTag)
    else if t == "M" then Some(MapTag)
    else None
  }

  /** TagOf recognises exactly the listed tags. */
  lemma TagOfTags(t: string)
    ensures TagOf(t).Some? <==> t in Tags
  {
  }

  /* --- criteriaChecks, first loop (main.go:37-44): key normalisation --- */

  /** One iteration of the first loop for original key `key`: a key whose
      trimmed form is not blank has its current value copied to that form. */
  function Visit(cur: seq<Entry>, key: string): seq<Entry> {
    var t := TrimSpace(key);
    if t == "" then cur
    else
      match Lookup(cur, key)
      // an original key is never removed, so this case does not arise
      case None => cur
      case Some(v) => Put(cur, t, v)
  }

  /** The first loop from the `i`-th original key on. */
  function NormalizeFrom(orig: seq<Entry>, i: nat, cur: seq<Entry>): seq<Entry>
    requires i <= |orig|
    decreases |orig| - i
  {
    if i == |orig| then cur else NormalizeFrom(orig, i + 1, Visit(cur, orig[i].0))
  }

  /** The node as criteriaChecks leaves it after its first loop. Keys added
      while ranging are trimmed already, so visiting them changes nothing. */
  function Normalize(node: seq<Entry>): (r: seq<Entry>)
    ensures forall e :: e in r ==> Size(e.1) < Size(JObject(node))
  {
    NormalizeBounded(node);
    NormalizeFrom(node, 0, node)
  }

  /** Every value normalisation stores was already stored somewhere. */
  lemma {:induction false} NormalizeFromBounded(orig: seq<Entry>, i: nat, cur: seq<Entry>, bound: nat)
    requires i <= |orig|
    requires forall e :: e in cur ==> Size(e.1) < bound
    ensures forall e :: e in NormalizeFrom(orig, i, cur) ==> Size(e.1) < bound
    decreases |orig| - i
  {
    if i < |orig| {
      NormalizeFromBounded(orig, i + 1, Visit(cur, orig[i].0), bound);
    }
  }

  lemma NormalizeBounded(node: seq<Entry>)
    ensures forall e :: e in NormalizeFrom(node, 0, node) ==> Size(e.1) < Size(JObject(node))
  {
    FieldsSmaller(node);
    NormalizeFromBounded(node, 0, node, Size(JObject(node)));
  }

  /* --- The mutually recursive decoder --- */

  /** main.go `criteriaChecks` on a node given as its entries. */
  function CriteriaChecks(node: seq<Entry>): Outcome
    decreases Size(JObject(node)), 3, 0
  {
    Dispatch(Normalize(node), 0, Size(JObject(node)))
  }

  /** criteriaChecks, second loop (main.go:45-83), from the `i`-th entry of
      the normalised node on. `bound` exceeds the size of every value. */
  function Dispatch(node: seq<Entry>, i: nat, ghost bound: nat): Outcome
    requires i <= |node|
    requires forall e :: e in node ==> Size(e.1) < bound
    decreases bound, 2, |node| - i
  {
    if i == |node| then Nil
    else
      var key := node[i].0;
      var val := node[i].1;
      assert node[i] in node;
      match TagOf(TrimSpace(key))
      case Some(StringTag) => if val.JString? then FromOption(TransformString(val.s)) else Panic
      case Some(NumberTag) => if val.JString? then FromOption(TransformNumeric(val.s)) else Panic
      case Some(BoolTag) => if val.JString? then FromOption(TransformBool(val.s)) else Panic
      case Some(NullTag) =>
        if !val.JString? then Panic
        else if TrimSpace(val.s) == "" then Nil
        else FromOption(TransformNull(val.s))
      case Some(ListTag) =>
        if !val.JArray? then Nil
        else
          var res := DecodeList(val.items);
          if res != Nil then res else Dispatch(node, i + 1, bound)
      case Some(MapTag) => DecodeMap(node, bound)
      case None => Dispatch(node, i + 1, bound)
  }

  /** main.go `transformList`. */
  function DecodeList(items: seq<Json>): (r: Outcome)
    ensures r.Val? ==> r.v.List? && r.v.items != []
    decreases Size(JArray(items)), 1, |items| + 1
  {
    ListFrom(items, 0, [])
  }

  /** transformList's loop from the `i`-th element on, `acc` holding the
      decoded elements kept so far; an empty result is nil. */
  function ListFrom(items: seq<Json>, i: nat, acc: seq<Plain>): (r: Outcome)
    requires i <= |items|
    ensures r.Val? ==> r.v.List? && |acc| <= |r.v.items| && r.v.items != []
    decreases Size(JArray(items)), 1, |items| - i
  {
    if i == |items| then (if acc == [] then Nil else Val(List(acc)))
    else if !items[i].JObject? then ListFrom(items, i + 1, acc)
    else
      ItemSmaller(items, i);
      match CriteriaChecks(items[i].fields)
      case Panic => Panic
      case Nil => ListFrom(items, i + 1, acc)
      case Val(p) => ListFrom(items, i + 1, acc + [p])
  }

  /** main.go `transformMap`, given the whole node (main.go:78). */
  function DecodeMap(node: seq<Entry>, ghost bound: nat): (r: Outcome)
    requires forall e :: e in node ==> Size(e.1) < bound
    ensures r == Panic || (r.Val? && r.v.Obj?)
    decreases bound, 1, |node| + 1
  {
    MapFrom(node, 0, map[], bound)
  }

  /** transformMap's outer loop from the `i`-th entry on: entries with a
      blank key or a non-object value are skipped, the others are merged. */
  function MapFrom(node: seq<Entry>, i: nat, acc: map<string, Plain>, ghost bound: nat): (r: Outcome)
    requires i <= |node|
    requires forall e :: e in node ==> Size(e.1) < bound
    ensures r == Panic || (r.Val? && r.v.Obj? && acc.Keys <= r.v.entries.Keys)
    decreases bound, 1, |node| - i
  {
    if i == |node| then Val(Obj(acc))
    else
      var key := node[i].0;
      var value := node[i].1;
      if TrimSpace(key) == "" || !value.JObject? then MapFrom(node, i + 1, acc, bound)
      else
        assert node[i] in node;
        match MergeInner(value.fields, 0, acc)
        case Crashed => Panic
        case Done(merged) => MapFrom(node, i + 1, merged, bound)
  }

  /** transformMap's inner loop (main.go:98-105) from the `j`-th entry on: a
      non-object attribute fails its type assertion; a non-nil decoding is
      stored under its key, replacing what was there. */
  function MergeInner(inner: seq<Entry>, j: nat, acc: map<string, Plain>): (r: Run<map<string, Plain>>)
    requires j <= |inner|
    ensures r.Done? ==> acc.Keys <= r.value.Keys
    decreases Size(JObject(inner)), 0, |inner| - j
  {
    if j == |inner| then Done(acc)
    else
      var k := inner[j].0;
      var val := inner[j].1;
      if !val.JObject? then Crashed
      else
        FieldSmaller(inner, j);
        match CriteriaChecks(val.fields)
        case Panic => Crashed
        case Nil => MergeInner(inner, j + 1, acc)
        case Val(p) => MergeInner(inner, j + 1, acc[k := p])
  }

  /** The dispatch table: what a node whose one recognised tag is `tag`,
      bound to `val`, decodes to. `node` is the whole (normalised) node, which
      the map case hands on. A non-string scalar fails its type assertion. */
  function Converted(tag: Tag, val: Json, node: seq<Entry>, ghost bound: nat): (r: Outcome)
    requires forall e :: e in node ==> Size(e.1) < bound
    ensures tag != ListTag && tag != MapTag ==> (r == Panic <==> !val.JString?)
    ensures tag == ListTag && !val.JArray? ==> r == Nil
    ensures tag == MapTag ==> r != Nil
  {
    match tag
    case StringTag => if val.JString? then FromOption(TransformString(val.s)) else Panic
    case NumberTag => if val.JString? then FromOption(TransformNumeric(val.s)) else Panic
    case BoolTag => if val.JString? then FromOption(TransformBool(val.s)) else Panic
    case NullTag => if val.JString? then FromOption(TransformNull(val.s)) else Panic
    case ListTag => if val.JArray? then DecodeList(val.items) else Nil
    case MapTag => DecodeMap(node, bound)
  }

  /* --- transformationCriteria (main.go:13-33) --- */

  /** The top-level loop from the `i`-th entry on: blank keys and non-object
      values are skipped, nil decodings omitted, the rest kept under the
      original key. */
  function DocumentFrom(input: seq<Entry>, i: nat, acc: map<string, Plain>): Run<map<string, Plain>>
    requires i <= |input|
    decreases |input| - i
  {
    if i == |input| then Done(acc)
    else
      var k := input[i].0;
      var v := input[i].1;
      if TrimSpace(k) == "" || !v.JObject? then DocumentFrom(input, i + 1, acc)
      else
        match CriteriaChecks(v.fields)
        case Panic => Crashed
        case Nil => DocumentFrom(input, i + 1, acc)
        case Val(p) => DocumentFrom(input, i + 1, acc[k := p])
  }

  /** main.go `transformationCriteria`. */
  function Document(input: seq<Entry>): Run<map<string, Plain>> {
    DocumentFrom(input, 0, map[])
  }
}
