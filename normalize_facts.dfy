/** What criteriaChecks' first loop (main.go:37-44) does to a node, and what
    its dispatch loop (main.go:45-83) then returns. */
module NormalizeFacts {
  import opened Text
  import opened Values
  import opened Scalars
  import opened Decoder

  /** The non-blank trimmed forms of a node's keys. */
  function Trims(node: seq<Entry>): set<string> {
    set e | e in node && TrimSpace(e.0) != "" :: TrimSpace(e.0)
  }

  /** `x` is bound in `cur` to what `orig` binds to `x` itself or to some key
      whose trimmed form is `x`. */
  ghost predicate Origin(orig: seq<Entry>, cur: seq<Entry>, x: string) {
    exists k :: k in Keys(orig) && (k == x || TrimSpace(k) == x) && Lookup(cur, x) == Lookup(orig, k)
  }

  /** Every key of `cur` is an original key or the trimmed form of one, and
      every original key is still there. */
  ghost predicate KeysBetween(orig: seq<Entry>, cur: seq<Entry>) {
    Keys(orig) <= Keys(cur) <= Keys(orig) + Trims(orig)
  }

  ghost predicate AllSourced(orig: seq<Entry>, cur: seq<Entry>) {
    forall x :: x in Keys(cur) ==> Origin(orig, cur, x)
  }

  /** The first `i` original keys have their non-blank trimmed forms bound. */
  ghost predicate Visited(orig: seq<Entry>, i: nat, cur: seq<Entry>)
    requires i <= |orig|
  {
    forall j :: 0 <= j < i && TrimSpace(orig[j].0) != "" ==> TrimSpace(orig[j].0) in Keys(cur)
  }

  /** What holds of the node after the first `i` original keys were visited. */
  ghost predicate Normalized(orig: seq<Entry>, i: nat, cur: seq<Entry>)
    requires i <= |orig|
  {
    KeysBetween(orig, cur) && AllSourced(orig, cur) && Visited(orig, i, cur)
  }

  lemma NormalizedInitially(node: seq<Entry>)
    ensures Normalized(node, 0, node)
  {
    forall x | x in Keys(node)
      ensures Origin(node, node, x)
    {
      assert x in Keys(node) && x == x && Lookup(node, x) == Lookup(node, x);
    }
  }

  /** A key and any key trimming to it have the same trimmed form. */
  lemma SameTrim(key: string, k: string)
    requires k == key || TrimSpace(k) == key
    ensures TrimSpace(k) == TrimSpace(key)
  {
    TrimSpaceIdempotent(k);
  }

  lemma AliasOrigin(orig: seq<Entry>, cur: seq<Entry>, key: string, v: Json, k: string)
    requires k in Keys(orig) && TrimSpace(k) == TrimSpace(key) && Lookup(cur, key) == Lookup(orig, k)
    requires Lookup(cur, key) == Some(v)
    ensures Origin(orig, Put(cur, TrimSpace(key), v), TrimSpace(key))
  {
    var t := TrimSpace(key);
    assert Lookup(Put(cur, t, v), t) == Lookup(orig, k);
  }

  lemma OriginOfAlias(orig: seq<Entry>, cur: seq<Entry>, key: string, v: Json)
    requires Origin(orig, cur, key) && Lookup(cur, key) == Some(v)
    ensures Origin(orig, Put(cur, TrimSpace(key), v), TrimSpace(key))
  {
    var k :| k in Keys(orig) && (k == key || TrimSpace(k) == key) && Lookup(cur, key) == Lookup(orig, k);
    SameTrim(key, k);
    AliasOrigin(orig, cur, key, v, k);
  }

  lemma OriginOfOther(orig: seq<Entry>, cur: seq<Entry>, t: string, v: Json, x: string)
    requires x != t && Origin(orig, cur, x)
    ensures Origin(orig, Put(cur, t, v), x)
  {
    var k :| k in Keys(orig) && (k == x || TrimSpace(k) == x) && Lookup(cur, x) == Lookup(orig, k);
    assert Lookup(Put(cur, t, v), x) == Lookup(orig, k);
  }

  lemma SourcedStep(orig: seq<Entry>, cur: seq<Entry>, key: string, v: Json)
    requires key in Keys(cur) && AllSourced(orig, cur) && Lookup(cur, key) == Some(v)
    requires TrimSpace(key) != ""
    ensures AllSourced(orig, Put(cur, TrimSpace(key), v))
  {
    var t := TrimSpace(key);
    var next := Put(cur, t, v);
    forall x | x in Keys(next)
      ensures Origin(orig, next, x)
    {
      if x == t {
        OriginOfAlias(orig, cur, key, v);
      } else {
        OriginOfOther(orig, cur, t, v, x);
      }
    }
  }

  lemma KeysStep(orig: seq<Entry>, cur: seq<Entry>, i: nat, v: Json)
    requires i < |orig| && KeysBetween(orig, cur) && TrimSpace(orig[i].0) != ""
    ensures KeysBetween(orig, Put(cur, TrimSpace(orig[i].0), v))
  {
    assert orig[i] in orig;
    assert TrimSpace(orig[i].0) in Trims(orig);
  }

  lemma VisitedStep(orig: seq<Entry>, cur: seq<Entry>, i: nat, v: Json)
    requires i < |orig| && Visited(orig, i, cur) && TrimSpace(orig[i].0) != ""
    ensures Visited(orig, i + 1, Put(cur, TrimSpace(orig[i].0), v))
  {
  }

  lemma VisitCopies(cur: seq<Entry>, key: string)
    requires TrimSpace(key) != "" && key in Keys(cur)
    ensures Visit(cur, key) == Put(cur, TrimSpace(key), Lookup(cur, key).value)
  {
  }

  lemma VisitedBlank(orig: seq<Entry>, cur: seq<Entry>, i: nat)
    requires i < |orig| && Visited(orig, i, cur) && TrimSpace(orig[i].0) == ""
    ensures Visited(orig, i + 1, cur)
  {
  }

  /** Visiting one more original key keeps the invariant. */
  lemma NormalizedStep(orig: seq<Entry>, i: nat, cur: seq<Entry>)
    requires i < |orig| && Normalized(orig, i, cur)
    ensures Normalized(orig, i + 1, Visit(cur, orig[i].0))
  {
    var key := orig[i].0;
    assert orig[i] in orig;
    assert key in Keys(orig);
    if TrimSpace(key) != "" {
      var v := Lookup(cur, key).value;
      VisitCopies(cur, key);
      KeysStep(orig, cur, i, v);
      SourcedStep(orig, cur, key, v);
      VisitedStep(orig, cur, i, v);
    } else {
      VisitedBlank(orig, cur, i);
    }
  }

  lemma {:induction false} NormalizeFromKeeps(orig: seq<Entry>, i: nat, cur: seq<Entry>)
    requires i <= |orig| && Normalized(orig, i, cur)
    ensures Normalized(orig, |orig|, NormalizeFrom(orig, i, cur))
    decreases |orig| - i
  {
    if i < |orig| {
      NormalizedStep(orig, i, cur);
      NormalizeFromKeeps(orig, i + 1, Visit(cur, orig[i].0));
    }
  }

  lemma {:induction false} NormalizeFromDistinct(orig: seq<Entry>, i: nat, cur: seq<Entry>)
    requires i <= |orig| && DistinctKeys(cur)
    ensures DistinctKeys(NormalizeFrom(orig, i, cur))
    decreases |orig| - i
  {
    if i < |orig| {
      var next := Visit(cur, orig[i].0);
      VisitDistinct(cur, orig[i].0);
      assert NormalizeFrom(orig, i, cur) == NormalizeFrom(orig, i + 1, next);
      NormalizeFromDistinct(orig, i + 1, next);
    }
  }

  lemma VisitDistinct(cur: seq<Entry>, key: string)
    requires DistinctKeys(cur)
    ensures DistinctKeys(Visit(cur, key))
  {
    var t := TrimSpace(key);
    if t != "" {
      match Lookup(cur, key)
      case None =>
      case Some(v) =>
        assert Visit(cur, key) == Put(cur, t, v);
    }
  }

  /** After the first loop every original key is still bound, every key is an
      original key or the trimmed form of one, every non-blank trimmed form is
      bound, and keys stay distinct. */
  lemma NormalizeShape(node: seq<Entry>)
    ensures Normalized(node, |node|, Normalize(node))
    ensures Keys(node) <= Keys(Normalize(node)) <= Keys(node) + Trims(node)
    ensures DistinctKeys(node) ==> DistinctKeys(Normalize(node))
  {
    NormalizedInitially(node);
    NormalizeFromKeeps(node, 0, node);
    if DistinctKeys(node) {
      NormalizeFromDistinct(node, 0, node);
    }
  }

  lemma NormalizeKeepsKeys(node: seq<Entry>)
    ensures Keys(node) <= Keys(Normalize(node))
  {
    NormalizeShape(node);
  }

  lemma NormalizeDistinct(node: seq<Entry>)
    requires DistinctKeys(node)
    ensures DistinctKeys(Normalize(node))
  {
    NormalizeFromDistinct(node, 0, node);
  }

  lemma NormalizeVisited(node: seq<Entry>, j: nat)
    requires j < |node| && TrimSpace(node[j].0) != ""
    ensures TrimSpace(node[j].0) in Keys(Normalize(node))
  {
    NormalizeShape(node);
    assert Visited(node, |node|, Normalize(node));
  }

  lemma NormalizeOrigin(node: seq<Entry>, x: string)
    requires x in Keys(Normalize(node))
    ensures Origin(node, Normalize(node), x)
  {
    NormalizeShape(node);
    assert AllSourced(node, Normalize(node));
  }

  /** The original key a key of the normalised node took its value from. */
  lemma NormalizedSource(node: seq<Entry>, x: string) returns (k: string)
    requires x in Keys(Normalize(node))
    ensures k in Keys(node) && TrimSpace(k) == TrimSpace(x)
    ensures Lookup(Normalize(node), x) == Lookup(node, k)
  {
    NormalizeOrigin(node, x);
    k :| k in Keys(node) && (k == x || TrimSpace(k) == x) && Lookup(Normalize(node), x) == Lookup(node, k);
    SameTrim(x, k);
  }

  /** The position of a key among a node's entries. */
  lemma KeyIndex(m: seq<Entry>, k: string) returns (j: nat)
    requires k in Keys(m)
    ensures j < |m| && m[j].0 == k
  {
    var e :| e in m && e.0 == k;
    j :| 0 <= j < |m| && m[j] == e;
  }

  /** Each non-blank trimmed key ends up bound to the value of some original
      key with that same trimmed form: an untagged `" S "` makes `S` reachable. */
  lemma NormalizeBindsTrimmed(node: seq<Entry>, j: nat)
    requires j < |node| && TrimSpace(node[j].0) != ""
    ensures var t := TrimSpace(node[j].0);
      && t in Keys(Normalize(node))
      && exists k :: k in Keys(node) && TrimSpace(k) == t && Lookup(Normalize(node), t) == Lookup(node, k)
  {
    var t := TrimSpace(node[j].0);
    NormalizeVisited(node, j);
    var k := NormalizedSource(node, t);
    TrimSpaceIdempotent(node[j].0);
  }

  /** When no two keys trim alike, the trimmed key carries the key's own value. */
  lemma NormalizeAliases(node: seq<Entry>, j: nat)
    requires j < |node| && TrimSpace(node[j].0) != ""
    requires forall a, b :: 0 <= a < |node| && 0 <= b < |node| && node[a].0 != node[b].0 ==> TrimSpace(node[a].0) != TrimSpace(node[b].0)
    ensures Lookup(Normalize(node), TrimSpace(node[j].0)) == Lookup(node, node[j].0)
  {
    var t := TrimSpace(node[j].0);
    NormalizeVisited(node, j);
    var k := NormalizedSource(node, t);
    TrimSpaceIdempotent(node[j].0);
    var b := KeyIndex(node, k);
    assert node[b].0 == node[j].0;
  }

  /** Every key of the normalised node trims like some original key. */
  lemma NormalizedKeysTrim(node: seq<Entry>, x: string)
    requires x in Keys(Normalize(node))
    ensures exists j :: 0 <= j < |node| && TrimSpace(x) == TrimSpace(node[j].0)
  {
    var k := NormalizedSource(node, x);
    var j := KeyIndex(node, k);
  }

  /* --- Dispatch --- */

  lemma {:induction false} DispatchUntagged(node: seq<Entry>, i: nat, bound: nat)
    requires i <= |node|
    requires forall e :: e in node ==> Size(e.1) < bound
    requires forall e :: e in node ==> TagOf(TrimSpace(e.0)).None?
    ensures Dispatch(node, i, bound) == Nil
    decreases |node| - i
  {
    if i == |node| {
      DispatchEnd(node, bound);
      return;
    }
    assert node[i] in node;
    DispatchUntagged(node, i + 1, bound);
    DispatchSkip(node, i, bound);
  }

  lemma UntaggedEntry(node: seq<Entry>, e: Entry)
    requires forall j :: 0 <= j < |node| ==> TagOf(TrimSpace(node[j].0)).None?
    requires e in Normalize(node)
    ensures TagOf(TrimSpace(e.0)).None?
  {
    assert e.0 in Keys(Normalize(node));
    NormalizedKeysTrim(node, e.0);
  }

  /** A node none of whose keys trims to a recognised tag decodes to nil. */
  lemma NoTagIsNil(node: seq<Entry>)
    requires forall j :: 0 <= j < |node| ==> TagOf(TrimSpace(node[j].0)).None?
    ensures CriteriaChecks(node) == Nil
  {
    var norm := Normalize(node);
    forall e | e in norm
      ensures TagOf(TrimSpace(e.0)).None?
    {
      UntaggedEntry(node, e);
    }
    DispatchUntagged(norm, 0, Size(JObject(node)));
  }

  /** The early nil return for a blank NULL string (main.go:59-61) agrees with
      the converter: a blank string is not a true literal. */
  lemma NullBlankIsNil(s: string)
    requires AllSpace(s)
    ensures TransformNull(s) == None
  {
    assert TrimSpace(s) == "";
  }

  /** A tagged entry is decoded as the dispatch table says, except that an
      `L` whose list decodes to nil lets the loop go on. */
  lemma DispatchAt(node: seq<Entry>, i: nat, bound: nat, tag: Tag)
    requires i < |node|
    requires forall e :: e in node ==> Size(e.1) < bound
    requires TagOf(TrimSpace(node[i].0)) == Some(tag)
    ensures var v := node[i].1;
      Dispatch(node, i, bound) ==
        if tag == ListTag && v.JArray? && DecodeList(v.items) == Nil then Dispatch(node, i + 1, bound)
        else Converted(tag, v, node, bound)
  {
    assert node[i] in node;
    var v := node[i].1;
    if tag == NullTag && v.JString? && TrimSpace(v.s) == "" {
      NullBlankIsNil(v.s);
    }
  }

  lemma DispatchEnd(node: seq<Entry>, bound: nat)
    requires forall e :: e in node ==> Size(e.1) < bound
    ensures Dispatch(node, |node|, bound) == Nil
  {
  }

  lemma DispatchSkip(node: seq<Entry>, i: nat, bound: nat)
    requires i < |node|
    requires forall e :: e in node ==> Size(e.1) < bound
    requires TagOf(TrimSpace(node[i].0)).None?
    ensures Dispatch(node, i, bound) == Dispatch(node, i + 1, bound)
  {
    assert node[i] in node;
  }

  /** Some entry from the `i`-th on is tagged `tag`. */
  ghost predicate TaggedFrom(node: seq<Entry>, i: nat, tag: Tag)
    decreases |node| - i
  {
    i < |node| && (TagOf(TrimSpace(node[i].0)) == Some(tag) || TaggedFrom(node, i + 1, tag))
  }

  lemma {:induction false} TaggedAt(node: seq<Entry>, i: nat, m: nat, tag: Tag)
    requires i <= m < |node| && TagOf(TrimSpace(node[m].0)) == Some(tag)
    ensures TaggedFrom(node, i, tag)
    decreases m - i
  {
    if i < m {
      TaggedAt(node, i + 1, m, tag);
    }
  }

  /** The dispatch loop over a node whose every tagged entry is `tag` bound to `v`. */
  lemma {:induction false} DispatchSingle(node: seq<Entry>, i: nat, bound: nat, tag: Tag, v: Json)
    requires i <= |node|
    requires forall e :: e in node ==> Size(e.1) < bound
    requires forall e :: e in node && TagOf(TrimSpace(e.0)).Some? ==> TagOf(TrimSpace(e.0)) == Some(tag) && e.1 == v
    ensures Dispatch(node, i, bound) == if TaggedFrom(node, i, tag) then Converted(tag, v, node, bound) else Nil
    decreases |node| - i
  {
    if i == |node| {
      DispatchEnd(node, bound);
      return;
    }
    DispatchSingle(node, i + 1, bound, tag, v);
    assert node[i] in node;
    if TagOf(TrimSpace(node[i].0)).None? {
      DispatchSkip(node, i, bound);
      assert TaggedFrom(node, i, tag) == TaggedFrom(node, i + 1, tag);
      return;
    }
    assert TagOf(TrimSpace(node[i].0)) == Some(tag) && node[i].1 == v;
    assert TaggedFrom(node, i, tag);
    DispatchTagged(node, i, bound, tag, v);
  }

  /** At an entry tagged `tag` and bound to `v`, the dispatch table decides,
      whether the rest of the loop would give nil or the same decoding. */
  lemma DispatchTagged(node: seq<Entry>, i: nat, bound: nat, tag: Tag, v: Json)
    requires i < |node|
    requires forall e :: e in node ==> Size(e.1) < bound
    requires TagOf(TrimSpace(node[i].0)) == Some(tag) && node[i].1 == v
    requires Dispatch(node, i + 1, bound) in {Nil, Converted(tag, v, node, bound)}
    ensures Dispatch(node, i, bound) == Converted(tag, v, node, bound)
  {
    DispatchAt(node, i, bound, tag);
    if tag == ListTag && v.JArray? && DecodeList(v.items) == Nil {
      assert Converted(tag, v, node, bound) == Nil;
    }
  }

  /** An entry of the normalised node that is tagged comes from the one
      tagged original entry. */
  lemma TaggedEntry(node: seq<Entry>, i: nat, e: Entry)
    requires DistinctKeys(node)
    requires i < |node| && TagOf(TrimSpace(node[i].0)).Some?
    requires forall j :: 0 <= j < |node| && j != i ==> TagOf(TrimSpace(node[j].0)).None?
    requires e in Normalize(node) && TagOf(TrimSpace(e.0)).Some?
    ensures TagOf(TrimSpace(e.0)) == TagOf(TrimSpace(node[i].0)) && e.1 == node[i].1
  {
    var norm := Normalize(node);
    NormalizeDistinct(node);
    assert e.0 in Keys(norm);
    var k := NormalizedSource(node, e.0);
    var j := KeyIndex(node, k);
    assert j == i;
    assert node[i] in node;
  }

  /** A node with exactly one key trimming to a tag (the typed-attribute form)
      decodes as the dispatch table says for that tag and its value. */
  lemma SingleTagDecodes(node: seq<Entry>, i: nat)
    requires DistinctKeys(node)
    requires i < |node| && TagOf(TrimSpace(node[i].0)).Some?
    requires forall j :: 0 <= j < |node| && j != i ==> TagOf(TrimSpace(node[j].0)).None?
    ensures CriteriaChecks(node) == Converted(TagOf(TrimSpace(node[i].0)).value, node[i].1, Normalize(node), Size(JObject(node)))
  {
    var norm := Normalize(node);
    var tag := TagOf(TrimSpace(node[i].0)).value;
    forall e | e in norm && TagOf(TrimSpace(e.0)).Some?
      ensures TagOf(TrimSpace(e.0)) == Some(tag) && e.1 == node[i].1
    {
      TaggedEntry(node, i, e);
    }
    NormalizeKeepsKeys(node);
    assert node[i] in node;
    var m := KeyIndex(norm, node[i].0);
    TaggedAt(norm, 0, m, tag);
    DispatchSingle(norm, 0, Size(JObject(node)), tag, node[i].1);
  }
}
