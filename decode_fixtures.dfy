/** The list, map and whole-document expectations of main_test.go, proved of
    the decoder. Go visits map entries in no fixed order; each object below
    is listed in the order the test writes it. */
module DecodeFixtures {
  import opened Text
  import opened Values
  import opened Scalars
  import opened Decoder
  import opened NormalizeFacts
  import opened Fixtures

  /** A node with a single attribute whose key trims to a tag. */
  lemma Attribute(k: string, v: Json, tag: Tag)
    requires TagOf(TrimSpace(k)) == Some(tag)
    ensures CriteriaChecks([(k, v)]) == Converted(tag, v, Normalize([(k, v)]), Size(JObject([(k, v)])))
  {
    SingleTagDecodes([(k, v)], 0);
  }

  lemma StringAttribute(k: string, s: string)
    requires TagOf(TrimSpace(k)) == Some(StringTag)
    ensures CriteriaChecks([(k, JString(s))]) == FromOption(TransformString(s))
  {
    Attribute(k, JString(s), StringTag);
  }

  lemma NumberAttribute(k: string, s: string)
    requires TagOf(TrimSpace(k)) == Some(NumberTag)
    ensures CriteriaChecks([(k, JString(s))]) == FromOption(TransformNumeric(s))
  {
    Attribute(k, JString(s), NumberTag);
  }

  lemma BoolAttribute(k: string, s: string)
    requires TagOf(TrimSpace(k)) == Some(BoolTag)
    ensures CriteriaChecks([(k, JString(s))]) == FromOption(TransformBool(s))
  {
    Attribute(k, JString(s), BoolTag);
  }

  lemma NullAttribute(k: string, s: string)
    requires TagOf(TrimSpace(k)) == Some(NullTag)
    ensures CriteriaChecks([(k, JString(s))]) == FromOption(TransformNull(s))
  {
    var node := [(k, JString(s))];
    Attribute(k, JString(s), NullTag);
    ConvertedNull(s, Normalize(node), Size(JObject(node)));
  }

  lemma ConvertedNull(s: string, node: seq<Entry>, bound: nat)
    requires forall e :: e in node ==> Size(e.1) < bound
    ensures Converted(NullTag, JString(s), node, bound) == FromOption(TransformNull(s))
  {
  }

  lemma ConvertedList(items: seq<Json>, node: seq<Entry>, bound: nat)
    requires forall e :: e in node ==> Size(e.1) < bound
    ensures Converted(ListTag, JArray(items), node, bound) == DecodeList(items)
  {
  }

  lemma ListAttribute(k: string, items: seq<Json>)
    requires TagOf(TrimSpace(k)) == Some(ListTag)
    ensures CriteriaChecks([(k, JArray(items))]) == DecodeList(items)
  {
    var node := [(k, JArray(items))];
    Attribute(k, JArray(items), ListTag);
    ConvertedList(items, Normalize(node), Size(JObject(node)));
  }

  lemma TagS()
    ensures TagOf(TrimSpace("S")) == Some(StringTag)
  {
    TrimSpaceOfTrimmed("S");
  }

  lemma TagN()
    ensures TagOf(TrimSpace("N")) == Some(NumberTag)
  {
    TrimSpaceOfTrimmed("N");
  }

  lemma TagBool()
    ensures TagOf(TrimSpace("BOOL")) == Some(BoolTag)
  {
    TrimSpaceOfTrimmed("BOOL");
  }

  lemma TagNull()
    ensures TagOf(TrimSpace("NULL")) == Some(NullTag)
  {
    TrimSpaceOfTrimmed("NULL");
  }

  lemma TagL()
    ensures TagOf(TrimSpace("L")) == Some(ListTag)
  {
    TrimSpaceOfTrimmed("L");
  }

  lemma TagM()
    ensures TagOf(TrimSpace("M")) == Some(MapTag)
  {
    TrimSpaceOfTrimmed("M");
  }

  lemma PaddedNull()
    ensures TagOf(TrimSpace("NULL ")) == Some(NullTag)
  {
    assert "" + "NULL" + " " == "NULL ";
    TrimSpacePadded("", "NULL", " ");
  }

  /* --- Test_transformList --- */

  const ListItems: seq<Json> := [
    JObject([("S", JString(""))]),
    JObject([("N", JString("011"))]),
    JObject([("N", JString("5215s"))]),
    JObject([("BOOL", JString("f"))]),
    JObject([("NULL", JString("0"))])
  ]

  lemma EmptyStringItem()
    ensures CriteriaChecks([("S", JString(""))]) == Nil
  {
    TagS();
    StringAttribute("S", "");
  }

  lemma NumberItem()
    ensures CriteriaChecks([("N", JString("011"))]) == Val(Int(11))
  {
    TagN();
    NumberAttribute("N", "011");
    NumericZeroPadded();
  }

  lemma InvalidNumberItem()
    ensures CriteriaChecks([("N", JString("5215s"))]) == Nil
  {
    TagN();
    NumberAttribute("N", "5215s");
    NumericInvalid();
  }

  lemma FalseItem()
    ensures CriteriaChecks([("BOOL", JString("f"))]) == Val(Bool(false))
  {
    TagBool();
    BoolAttribute("BOOL", "f");
    BoolFalseLetter();
  }

  lemma NullFalseItem()
    ensures CriteriaChecks([("NULL", JString("0"))]) == Nil
  {
    TagNull();
    NullAttribute("NULL", "0");
    NullZero();
  }

  lemma ListStepNil(xs: seq<Json>, i: nat, acc: seq<Plain>)
    requires i < |xs| && xs[i].JObject? && CriteriaChecks(xs[i].fields) == Nil
    ensures ListFrom(xs, i, acc) == ListFrom(xs, i + 1, acc)
  {
  }

  lemma ListStepVal(xs: seq<Json>, i: nat, acc: seq<Plain>, p: Plain)
    requires i < |xs| && xs[i].JObject? && CriteriaChecks(xs[i].fields) == Val(p)
    ensures ListFrom(xs, i, acc) == ListFrom(xs, i + 1, acc + [p])
  {
  }

  lemma ListAt0(acc: seq<Plain>)
    ensures ListFrom(ListItems, 0, acc) == ListFrom(ListItems, 1, acc)
  {
    EmptyStringItem();
    ListStepNil(ListItems, 0, acc);
  }

  lemma ListAt1(acc: seq<Plain>)
    ensures ListFrom(ListItems, 1, acc) == ListFrom(ListItems, 2, acc + [Int(11)])
  {
    assert ListItems[1].fields == [("N", JString("011"))];
    NumberItem();
    ListStepVal(ListItems, 1, acc, Int(11));
  }

  lemma ListAt2(acc: seq<Plain>)
    ensures ListFrom(ListItems, 2, acc) == ListFrom(ListItems, 3, acc)
  {
    assert ListItems[2].fields == [("N", JString("5215s"))];
    InvalidNumberItem();
    ListStepNil(ListItems, 2, acc);
  }

  lemma ListAt3(acc: seq<Plain>)
    ensures ListFrom(ListItems, 3, acc) == ListFrom(ListItems, 4, acc + [Bool(false)])
  {
    FalseItem();
    ListStepVal(ListItems, 3, acc, Bool(false));
  }

  lemma ListAt4(acc: seq<Plain>)
    ensures ListFrom(ListItems, 4, acc) == ListFrom(ListItems, 5, acc)
  {
    NullFalseItem();
    ListStepNil(ListItems, 4, acc);
  }

  lemma ListEnd(xs: seq<Json>, acc: seq<Plain>)
    requires acc != []
    ensures ListFrom(xs, |xs|, acc) == Val(List(acc))
  {
  }

  lemma ListFromStart(acc: seq<Plain>)
    ensures ListFrom(ListItems, 0, acc) == Val(List(acc + [Int(11), Bool(false)]))
  {
    assert acc + [Int(11)] + [Bool(false)] == acc + [Int(11), Bool(false)];
    ListAt0(acc);
    ListAt1(acc);
    ListAt2(acc + [Int(11)]);
    ListAt3(acc + [Int(11)]);
    ListAt4(acc + [Int(11), Bool(false)]);
    ListEnd(ListItems, acc + [Int(11), Bool(false)]);
  }

  /** Elements decoding to nil are dropped; the others keep their order. */
  lemma ListFixture()
    ensures DecodeList(ListItems) == Val(List([Int(11), Bool(false)]))
  {
    ListFromStart([]);
    assert [] + [Int(11), Bool(false)] == [Int(11), Bool(false)];
  }

  /* --- Test_transformMap --- */

  const Attributes: seq<Entry> := [
    ("bool_1", JObject([("BOOL", JString("truthy"))])),
    ("null_1", JObject([("NULL ", JString("true"))])),
    ("list_1", JObject([("L", JArray(ListItems))]))
  ]

  const MapNode: seq<Entry> := [("M", JObject(Attributes))]

  const MapResult: map<string, Plain> := map["list_1" := List([Int(11), Bool(false)]), "null_1" := Bool(true)]

  lemma TruthyItem()
    ensures CriteriaChecks([("BOOL", JString("truthy"))]) == Nil
  {
    TagBool();
    BoolAttribute("BOOL", "truthy");
    BoolNotLiteral();
  }

  lemma PaddedNullItem()
    ensures CriteriaChecks([("NULL ", JString("true"))]) == Val(Bool(true))
  {
    PaddedNull();
    NullAttribute("NULL ", "true");
    NullTrue();
  }

  lemma ListItem()
    ensures CriteriaChecks([("L", JArray(ListItems))]) == Val(List([Int(11), Bool(false)]))
  {
    TagL();
    ListAttribute("L", ListItems);
    ListFixture();
  }

  lemma MergeStepNil(a: seq<Entry>, j: nat, acc: map<string, Plain>)
    requires j < |a| && a[j].1.JObject? && CriteriaChecks(a[j].1.fields) == Nil
    ensures MergeInner(a, j, acc) == MergeInner(a, j + 1, acc)
  {
  }

  lemma MergeStepVal(a: seq<Entry>, j: nat, acc: map<string, Plain>, p: Plain)
    requires j < |a| && a[j].1.JObject? && CriteriaChecks(a[j].1.fields) == Val(p)
    ensures MergeInner(a, j, acc) == MergeInner(a, j + 1, acc[a[j].0 := p])
  {
  }

  lemma MergeAt0(acc: map<string, Plain>)
    ensures MergeInner(Attributes, 0, acc) == MergeInner(Attributes, 1, acc)
  {
    assert Attributes[0].1.fields == [("BOOL", JString("truthy"))];
    TruthyItem();
    MergeStepNil(Attributes, 0, acc);
  }

  lemma MergeAt1(acc: map<string, Plain>)
    ensures MergeInner(Attributes, 1, acc) == MergeInner(Attributes, 2, acc["null_1" := Bool(true)])
  {
    assert Attributes[1].1.fields == [("NULL ", JString("true"))];
    PaddedNullItem();
    MergeStepVal(Attributes, 1, acc, Bool(true));
  }

  lemma MergeAt2(acc: map<string, Plain>)
    ensures MergeInner(Attributes, 2, acc) == Done(acc["list_1" := List([Int(11), Bool(false)])])
  {
    assert Attributes[2].1.fields == [("L", JArray(ListItems))];
    ListItem();
    MergeStepVal(Attributes, 2, acc, List([Int(11), Bool(false)]));
    assert |Attributes| == 3;
  }

  /** An attribute decoding to nil is omitted; the others are merged under
      their own keys. */
  lemma MergeFixture()
    ensures MergeInner(Attributes, 0, map[]) == Done(MapResult)
  {
    var m := map["null_1" := Bool(true)];
    assert m["list_1" := List([Int(11), Bool(false)])] == MapResult;
    MergeAt0(map[]);
    MergeAt1(map[]);
    MergeAt2(m);
  }

  lemma MapStepMerged(node: seq<Entry>, i: nat, acc: map<string, Plain>, bound: nat, m: map<string, Plain>)
    requires i < |node| && forall e :: e in node ==> Size(e.1) < bound
    requires TrimSpace(node[i].0) != "" && node[i].1.JObject?
    requires MergeInner(node[i].1.fields, 0, acc) == Done(m)
    ensures MapFrom(node, i, acc, bound) == MapFrom(node, i + 1, m, bound)
  {
  }

  lemma MapFixture(bound: nat)
    requires forall e :: e in MapNode ==> Size(e.1) < bound
    ensures DecodeMap(MapNode, bound) == Val(Obj(MapResult))
  {
    assert |MapNode| == 1;
    TrimSpaceOfTrimmed("M");
    MergeFixture();
    MapStepMerged(MapNode, 0, map[], bound, MapResult);
  }

  /* --- Test_transformationCriteria --- */

  /** A one-entry node whose key is already trimmed normalises to itself. */
  lemma NormalizeSingle(k: string, v: Json)
    requires TrimSpace(k) == k
    ensures Normalize([(k, v)]) == [(k, v)]
  {
    var node := [(k, v)];
    assert NormalizeFrom(node, 0, node) == NormalizeFrom(node, 1, Visit(node, k));
    if k != "" {
      assert Lookup(node, k) == Some(v);
      assert Assign(node, k, v) == [(k, v)] + node[1..];
    }
  }

  lemma MapAttribute(k: string, v: Json)
    requires TrimSpace(k) == k && TagOf(k) == Some(MapTag)
    ensures Size(v) < Size(JObject([(k, v)]))
    ensures CriteriaChecks([(k, v)]) == DecodeMap([(k, v)], Size(JObject([(k, v)])))
  {
    FieldSmaller([(k, v)], 0);
    Attribute(k, v, MapTag);
    NormalizeSingle(k, v);
  }

  /** A list tag bound to something other than an array decodes to nil. */
  lemma ListNotArray(k: string, v: Json)
    requires TagOf(TrimSpace(k)) == Some(ListTag) && !v.JArray?
    ensures CriteriaChecks([(k, v)]) == Nil
  {
    var node := [(k, v)];
    Attribute(k, v, ListTag);
    ConvertedNotArray(v, Normalize(node), Size(JObject(node)));
  }

  lemma ConvertedNotArray(v: Json, node: seq<Entry>, bound: nat)
    requires !v.JArray? && forall e :: e in node ==> Size(e.1) < bound
    ensures Converted(ListTag, v, node, bound) == Nil
  {
  }

  const DocInput: seq<Entry> := [
    ("number_1", JObject([("N", JString("1.50"))])),
    ("string_1", JObject([("S", JString("784498 "))])),
    ("string_2", JObject([("S", JString("2014-07-16T20:55:46Z"))])),
    ("map_1", JObject(MapNode)),
    ("list_2", JObject([("L", JString("noop"))])),
    ("list_3", JObject([("L", JArray([JString("noop")]))])),
    ("", JObject([("S", JString("noop"))]))
  ]

  const DocResult: map<string, Plain> := map[
    "map_1" := Obj(MapResult),
    "number_1" := Float(1.5),
    "string_1" := Str("784498"),
    "string_2" := Int(1405544146)
  ]

  lemma DocStepSkip(input: seq<Entry>, i: nat, acc: map<string, Plain>)
    requires i < |input| && TrimSpace(input[i].0) == ""
    ensures DocumentFrom(input, i, acc) == DocumentFrom(input, i + 1, acc)
  {
  }

  lemma DocStepNil(input: seq<Entry>, i: nat, acc: map<string, Plain>)
    requires i < |input| && input[i].1.JObject? && CriteriaChecks(input[i].1.fields) == Nil
    ensures DocumentFrom(input, i, acc) == DocumentFrom(input, i + 1, acc)
  {
  }

  lemma DocStepVal(input: seq<Entry>, i: nat, acc: map<string, Plain>, p: Plain)
    requires i < |input| && TrimSpace(input[i].0) != ""
    requires input[i].1.JObject? && CriteriaChecks(input[i].1.fields) == Val(p)
    ensures DocumentFrom(input, i, acc) == DocumentFrom(input, i + 1, acc[input[i].0 := p])
  {
  }

  lemma NumberEntry()
    ensures CriteriaChecks([("N", JString("1.50"))]) == Val(Float(1.5))
  {
    TagN();
    NumberAttribute("N", "1.50");
    NumericFloat();
  }

  lemma DigitsEntry()
    ensures CriteriaChecks([("S", JString("784498 "))]) == Val(Str("784498"))
  {
    TagS();
    StringAttribute("S", "784498 ");
    StringDigits();
  }

  lemma TimestampEntry()
    ensures CriteriaChecks([("S", JString("2014-07-16T20:55:46Z"))]) == Val(Int(1405544146))
  {
    TagS();
    StringAttribute("S", "2014-07-16T20:55:46Z");
    StringTimestamp();
  }

  lemma MapEntry()
    ensures CriteriaChecks(MapNode) == Val(Obj(MapResult))
  {
    TrimSpaceOfTrimmed("M");
    MapAttribute("M", JObject(Attributes));
    MapFixture(Size(JObject(MapNode)));
  }

  lemma NoopListEntry()
    ensures CriteriaChecks([("L", JString("noop"))]) == Nil
  {
    TagL();
    ListNotArray("L", JString("noop"));
  }

  lemma NoopItemsEntry()
    ensures CriteriaChecks([("L", JArray([JString("noop")]))]) == Nil
  {
    TagL();
    ListAttribute("L", [JString("noop")]);
    var xs := [JString("noop")];
    assert ListFrom(xs, 0, []) == ListFrom(xs, 1, []);
  }

  /** A key that is not blank after trimming. */
  lemma KeyNotBlank(k: string)
    requires k != [] && !IsSpace(k[0]) && !IsSpace(k[|k| - 1])
    ensures TrimSpace(k) != ""
  {
    TrimSpaceOfTrimmed(k);
  }

  lemma DocAt0(acc: map<string, Plain>)
    ensures DocumentFrom(DocInput, 0, acc) == DocumentFrom(DocInput, 1, acc["number_1" := Float(1.5)])
  {
    assert DocInput[0].0 == "number_1" && DocInput[0].1.fields == [("N", JString("1.50"))];
    KeyNotBlank("number_1");
    NumberEntry();
    DocStepVal(DocInput, 0, acc, Float(1.5));
  }

  lemma DocAt1(acc: map<string, Plain>)
    ensures DocumentFrom(DocInput, 1, acc) == DocumentFrom(DocInput, 2, acc["string_1" := Str("784498")])
  {
    assert DocInput[1].0 == "string_1" && DocInput[1].1.fields == [("S", JString("784498 "))];
    KeyNotBlank("string_1");
    DigitsEntry();
    DocStepVal(DocInput, 1, acc, Str("784498"));
  }

  lemma DocAt2(acc: map<string, Plain>)
    ensures DocumentFrom(DocInput, 2, acc) == DocumentFrom(DocInput, 3, acc["string_2" := Int(1405544146)])
  {
    assert DocInput[2].0 == "string_2" && DocInput[2].1.fields == [("S", JString("2014-07-16T20:55:46Z"))];
    KeyNotBlank("string_2");
    TimestampEntry();
    DocStepVal(DocInput, 2, acc, Int(1405544146));
  }

  lemma DocAt3(acc: map<string, Plain>)
    ensures DocumentFrom(DocInput, 3, acc) == DocumentFrom(DocInput, 4, acc["map_1" := Obj(MapResult)])
  {
    assert DocInput[3].0 == "map_1" && DocInput[3].1.fields == MapNode;
    KeyNotBlank("map_1");
    MapEntry();
    DocStepVal(DocInput, 3, acc, Obj(MapResult));
  }

  lemma DocAt4(acc: map<string, Plain>)
    ensures DocumentFrom(DocInput, 4, acc) == DocumentFrom(DocInput, 5, acc)
  {
    assert DocInput[4].1.fields == [("L", JString("noop"))];
    NoopListEntry();
    DocStepNil(DocInput, 4, acc);
  }

  lemma DocAt5(acc: map<string, Plain>)
    ensures DocumentFrom(DocInput, 5, acc) == DocumentFrom(DocInput, 6, acc)
  {
    assert DocInput[5].1.fields == [("L", JArray([JString("noop")]))];
    NoopItemsEntry();
    DocStepNil(DocInput, 5, acc);
  }

  lemma DocAt6(acc: map<string, Plain>)
    ensures DocumentFrom(DocInput, 6, acc) == Done(acc)
  {
    assert DocInput[6].0 == "" && |DocInput| == 7;
    DocStepSkip(DocInput, 6, acc);
  }

  /** Every entry is decoded under its own key, except the list that is not
      an array and the list without objects, which decode to nil, and the
      entry whose key is blank. */
  lemma DocumentFixture()
    ensures Document(DocInput) == Done(DocResult)
  {
    var m0: map<string, Plain> := map[];
    var m1 := m0["number_1" := Float(1.5)];
    var m2 := m1["string_1" := Str("784498")];
    var m3 := m2["string_2" := Int(1405544146)];
    var m4 := m3["map_1" := Obj(MapResult)];
    assert m4 == DocResult;
    DocAt0(m0);
    DocAt1(m1);
    DocAt2(m2);
    DocAt3(m3);
    DocAt4(m4);
    DocAt5(m4);
    DocAt6(m4);
  }
}
