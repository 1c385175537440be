/** criteriaChecks normalises its node in place (main.go:37-44), and
    transformMap may reach the same Go map again through the alias that
    normalisation added (`"M "` and `"M"` both bound to it, main.go:78 and
    main.go:89-105). The second call then sees the already normalised node.
    This module proves that normalising twice is normalising once, so the
    second call decodes exactly as the first. */
module Renormalize {
  import opened Text
  import opened Values
  import opened Decoder
  import NormalizeFacts

  /* --- Entry order --- */

  /** The keys of `m` stand, in order, at the front of `r`. */
  predicate KeysPrefix(m: seq<Entry>, r: seq<Entry>) {
    |m| <= |r| && forall i :: 0 <= i < |m| ==> r[i].0 == m[i].0
  }

  /** The keys of a node, in entry order: the order the first loop visits. */
  function KeysOf(m: seq<Entry>): (ks: seq<string>)
    ensures |ks| == |m| && forall i :: 0 <= i < |m| ==> ks[i] == m[i].0
  {
    seq(|m|, i requires 0 <= i < |m| => m[i].0)
  }

  /** Assigning a present key keeps every entry where it stands; a new key
      goes at the end. */
  lemma {:induction false} AssignOrder(m: seq<Entry>, k: string, v: Json)
    ensures KeysPrefix(m, Assign(m, k, v))
    ensures |Assign(m, k, v)| == if k in Keys(m) then |m| else |m| + 1
  {
    if m != [] {
      KeysCons(m[0], m[1..]);
      assert m == [m[0]] + m[1..];
      if m[0].0 != k {
        AssignOrder(m[1..], k, v);
        var r := Assign(m, k, v);
        assert r == [m[0]] + Assign(m[1..], k, v);
        forall i | 0 <= i < |m|
          ensures r[i].0 == m[i].0
        {
          if i > 0 {
            assert r[i] == Assign(m[1..], k, v)[i - 1];
          }
        }
      }
    }
  }

  /** Storing a key's own value back leaves the entries as they are. */
  lemma {:induction false} AssignSame(m: seq<Entry>, k: string)
    requires k in Keys(m)
    ensures Assign(m, k, Lookup(m, k).value) == m
  {
    KeysCons(m[0], m[1..]);
    assert m == [m[0]] + m[1..];
    if m[0].0 != k {
      AssignSame(m[1..], k);
    }
  }

  lemma {:induction false} KeysPrefixTrans(a: seq<Entry>, b: seq<Entry>, c: seq<Entry>)
    requires KeysPrefix(a, b) && KeysPrefix(b, c)
    ensures KeysPrefix(a, c)
  {
  }

  /** Two nodes with the same keys in the same order, distinct keys and the
      same bindings are the same entries. */
  lemma SameEntries(x: seq<Entry>, y: seq<Entry>)
    requires KeysPrefix(x, y) && |x| == |y| && DistinctKeys(x)
    requires forall a :: Lookup(x, a) == Lookup(y, a)
    ensures x == y
  {
    assert DistinctKeys(y);
    forall i | 0 <= i < |x|
      ensures x[i] == y[i]
    {
      assert x[i] in x && y[i] in y;
      assert Lookup(x, x[i].0) == Some(x[i].1);
      assert Lookup(y, y[i].0) == Some(y[i].1);
    }
  }

  /* --- The first loop over any list of keys --- */

  /** The first loop visiting `ks` in order, starting from `cur`. */
  function Run(ks: seq<string>, cur: seq<Entry>): seq<Entry>
    decreases |ks|
  {
    if ks == [] then cur else Run(ks[1..], Visit(cur, ks[0]))
  }

  lemma {:induction false} RunOfNormalizeFrom(orig: seq<Entry>, i: nat, cur: seq<Entry>)
    requires i <= |orig|
    ensures NormalizeFrom(orig, i, cur) == Run(KeysOf(orig)[i..], cur)
    decreases |orig| - i
  {
    if i < |orig| {
      RunOfNormalizeFrom(orig, i + 1, Visit(cur, orig[i].0));
      assert KeysOf(orig)[i..][1..] == KeysOf(orig)[i + 1..];
    }
  }

  lemma {:induction false} RunAppend(ks: seq<string>, more: seq<string>, cur: seq<Entry>)
    ensures Run(ks + more, cur) == Run(more, Run(ks, cur))
    decreases |ks|
  {
    if ks != [] {
      assert (ks + more)[1..] == ks[1..] + more;
      RunAppend(ks[1..], more, Visit(cur, ks[0]));
    } else {
      assert ks + more == more;
    }
  }

  /** A key that moves its value: its trimmed form is neither blank nor the
      key itself. */
  predicate Moves(k: string) {
    TrimSpace(k) != "" && TrimSpace(k) != k
  }

  /** Visiting `k` writes `orig`'s value of `k` to `a`. */
  predicate Writes(orig: seq<Entry>, k: string, a: string) {
    Moves(k) && TrimSpace(k) == a && Lookup(orig, k).Some?
  }

  /** What `a` is bound to after visiting `ks`, when it was bound to `d`
      before: the value of the last visit that writes it, or `d`. */
  function LastWrite(orig: seq<Entry>, ks: seq<string>, a: string, d: Option<Json>): Option<Json>
    decreases |ks|
  {
    if ks == [] then d
    else LastWrite(orig, ks[1..], a, if Writes(orig, ks[0], a) then Lookup(orig, ks[0]) else d)
  }

  predicate Written(orig: seq<Entry>, ks: seq<string>, a: string)
    decreases |ks|
  {
    ks != [] && (Writes(orig, ks[0], a) || Written(orig, ks[1..], a))
  }

  /** Once written, a key's last value does not depend on what it held. */
  lemma {:induction false} LastWriteShape(orig: seq<Entry>, ks: seq<string>, a: string, d: Option<Json>, e: Option<Json>)
    ensures !Written(orig, ks, a) ==> LastWrite(orig, ks, a, d) == d
    ensures Written(orig, ks, a) ==> LastWrite(orig, ks, a, d) == LastWrite(orig, ks, a, e)
    decreases |ks|
  {
    if ks != [] {
      if Writes(orig, ks[0], a) {
        var w := Lookup(orig, ks[0]);
        LastWriteShape(orig, ks[1..], a, w, w);
      } else {
        LastWriteShape(orig, ks[1..], a, d, e);
      }
    }
  }

  lemma LastWriteTwice(orig: seq<Entry>, ks: seq<string>, a: string, d: Option<Json>)
    ensures LastWrite(orig, ks, a, LastWrite(orig, ks, a, d)) == LastWrite(orig, ks, a, d)
  {
    LastWriteShape(orig, ks, a, d, d);
    LastWriteShape(orig, ks, a, LastWrite(orig, ks, a, d), d);
  }

  /** Keys that are their own trimmed form are the only ones written. */
  lemma {:induction false} LastWriteTrimmed(orig: seq<Entry>, ks: seq<string>, a: string, d: Option<Json>)
    requires TrimSpace(a) != a
    ensures LastWrite(orig, ks, a, d) == d
    decreases |ks|
  {
    if ks != [] {
      if Writes(orig, ks[0], a) {
        TrimSpaceIdempotent(ks[0]);
      }
      LastWriteTrimmed(orig, ks[1..], a, d);
    }
  }

  /** `cur` binds every key that is not its own trimmed form as `orig` does. */
  ghost predicate AgreesUntrimmed(orig: seq<Entry>, cur: seq<Entry>) {
    forall a :: TrimSpace(a) != a ==> Lookup(cur, a) == Lookup(orig, a)
  }

  /** One visit, as a write of `orig`'s value to the trimmed key. */
  lemma VisitWrites(orig: seq<Entry>, cur: seq<Entry>, k: string, a: string)
    requires AgreesUntrimmed(orig, cur)
    ensures Lookup(Visit(cur, k), a) == if Writes(orig, k, a) then Lookup(orig, k) else Lookup(cur, a)
    ensures AgreesUntrimmed(orig, Visit(cur, k))
  {
    var t := TrimSpace(k);
    TrimSpaceIdempotent(k);
    if t != "" && Lookup(cur, k).Some? {
      if t == k {
        AssignSame(cur, k);
        assert Visit(cur, k) == cur;
      } else {
        assert Lookup(cur, k) == Lookup(orig, k);
        assert Visit(cur, k) == Put(cur, t, Lookup(orig, k).value);
      }
    }
  }

  /** The first loop over `ks` binds each key to its last write, or leaves it. */
  lemma {:induction false} RunLookup(orig: seq<Entry>, ks: seq<string>, cur: seq<Entry>, a: string)
    requires AgreesUntrimmed(orig, cur)
    ensures Lookup(Run(ks, cur), a) == LastWrite(orig, ks, a, Lookup(cur, a))
    ensures AgreesUntrimmed(orig, Run(ks, cur))
    decreases |ks|
  {
    if ks != [] {
      VisitWrites(orig, cur, ks[0], a);
      RunLookup(orig, ks[1..], Visit(cur, ks[0]), a);
    }
  }

  /** Visiting keeps the entries in place and appends at most new keys; when
      every non-blank trimmed form is already bound, it appends nothing. */
  lemma {:induction false} RunOrder(ks: seq<string>, cur: seq<Entry>)
    ensures KeysPrefix(cur, Run(ks, cur))
    ensures Keys(cur) <= Keys(Run(ks, cur))
    ensures (forall i :: 0 <= i < |ks| && TrimSpace(ks[i]) != "" ==> TrimSpace(ks[i]) in Keys(cur)) ==> |Run(ks, cur)| == |cur|
    decreases |ks|
  {
    if ks != [] {
      var next := Visit(cur, ks[0]);
      var t := TrimSpace(ks[0]);
      if t != "" && Lookup(cur, ks[0]).Some? {
        AssignOrder(cur, t, Lookup(cur, ks[0]).value);
      }
      assert KeysPrefix(cur, next) && Keys(cur) <= Keys(next);
      RunOrder(ks[1..], next);
      KeysPrefixTrans(cur, next, Run(ks, cur));
      if forall i :: 0 <= i < |ks| && TrimSpace(ks[i]) != "" ==> TrimSpace(ks[i]) in Keys(cur) {
        assert |next| == |cur|;
        forall i | 0 <= i < |ks[1..]| && TrimSpace(ks[1..][i]) != ""
          ensures TrimSpace(ks[1..][i]) in Keys(next)
        {
          assert ks[1..][i] == ks[i + 1];
        }
      }
    }
  }

  /** Visiting keys that are their own trimmed form changes nothing. */
  lemma {:induction false} RunTrimmed(ks: seq<string>, cur: seq<Entry>)
    requires forall i :: 0 <= i < |ks| ==> TrimSpace(ks[i]) == ks[i]
    ensures Run(ks, cur) == cur
    decreases |ks|
  {
    if ks != [] {
      if Lookup(cur, ks[0]).Some? {
        AssignSame(cur, ks[0]);
      }
      assert Visit(cur, ks[0]) == cur;
      RunTrimmed(ks[1..], cur);
    }
  }

  /* --- Normalising twice --- */

  /** Normalisation is the first loop over the node's keys in entry order,
      and it keeps those keys at the front. */
  lemma NormalizeAsRun(node: seq<Entry>)
    ensures Normalize(node) == Run(KeysOf(node), node)
    ensures KeysPrefix(node, Normalize(node))
  {
    RunOfNormalizeFrom(node, 0, node);
    assert KeysOf(node)[0..] == KeysOf(node);
    RunOrder(KeysOf(node), node);
  }

  /** A key after the original ones is not original, so it is a trimmed form. */
  lemma AppendedTrimmed(node: seq<Entry>, m: seq<Entry>, j: nat)
    requires DistinctKeys(m) && KeysPrefix(node, m)
    requires Keys(m) <= Keys(node) + NormalizeFacts.Trims(node)
    requires |node| <= j < |m|
    ensures TrimSpace(m[j].0) == m[j].0
  {
    var x := m[j].0;
    assert m[j] in m;
    assert x in Keys(m);
    if x in Keys(node) {
      var i := NormalizeFacts.KeyIndex(node, x);
      assert false;
    }
    assert x in NormalizeFacts.Trims(node);
    var e :| e in node && TrimSpace(e.0) != "" && TrimSpace(e.0) == x;
    TrimSpaceIdempotent(e.0);
  }

  /** Visiting the original keys again over the loop's own result changes
      nothing: each trimmed key already holds its last write. */
  lemma RunAgain(node: seq<Entry>, ks: seq<string>, m: seq<Entry>)
    requires m == Run(ks, node) && DistinctKeys(m)
    requires forall i :: 0 <= i < |ks| && TrimSpace(ks[i]) != "" ==> TrimSpace(ks[i]) in Keys(m)
    ensures Run(ks, m) == m
  {
    assert AgreesUntrimmed(node, node);
    forall a
      ensures Lookup(m, a) == LastWrite(node, ks, a, Lookup(node, a))
    {
      RunLookup(node, ks, node, a);
    }
    RunLookup(node, ks, node, "");
    var again := Run(ks, m);
    forall a
      ensures Lookup(again, a) == Lookup(m, a)
    {
      RunLookup(node, ks, m, a);
      LastWriteTwice(node, ks, a, Lookup(node, a));
    }
    RunOrder(ks, m);
    SameEntries(m, again);
  }

  /** A node's keys are the original keys followed by the appended ones. */
  lemma SplitKeys(node: seq<Entry>, m: seq<Entry>)
    requires KeysPrefix(node, m)
    ensures KeysOf(m) == KeysOf(node) + KeysOf(m)[|node|..]
  {
    var all := KeysOf(m);
    assert all[..|node|] == KeysOf(node);
    assert all == all[..|node|] + all[|node|..];
  }

  /** The first loop run on its own result, over all its keys, changes
      nothing: the original keys find every trimmed key holding its last
      write, and the keys it appended are trimmed already. */
  lemma RunTwice(node: seq<Entry>, m: seq<Entry>)
    requires m == Run(KeysOf(node), node) && DistinctKeys(m) && KeysPrefix(node, m)
    requires Keys(m) <= Keys(node) + NormalizeFacts.Trims(node)
    requires forall i :: 0 <= i < |node| && TrimSpace(node[i].0) != "" ==> TrimSpace(node[i].0) in Keys(m)
    ensures Run(KeysOf(m), m) == m
  {
    var ks := KeysOf(node);
    RunAgain(node, ks, m);
    var all := KeysOf(m);
    var extra := all[|node|..];
    SplitKeys(node, m);
    forall j | |node| <= j < |m|
      ensures TrimSpace(m[j].0) == m[j].0
    {
      AppendedTrimmed(node, m, j);
    }
    assert forall i :: 0 <= i < |extra| ==> extra[i] == m[|node| + i].0;
    RunTrimmed(extra, m);
    RunAppend(ks, extra, m);
  }

  /** Normalisation is idempotent. */
  lemma NormalizeIdempotent(node: seq<Entry>)
    requires DistinctKeys(node)
    ensures Normalize(Normalize(node)) == Normalize(node)
  {
    var m := Normalize(node);
    NormalizeAsRun(node);
    NormalizeAsRun(m);
    NormalizeFacts.NormalizeShape(node);
    assert NormalizeFacts.Visited(node, |node|, m);
    RunTwice(node, m);
  }

  /** The dispatch loop's result does not depend on the ghost size bound. */
  lemma {:induction false} DispatchAnyBound(node: seq<Entry>, i: nat, b: nat, c: nat)
    requires i <= |node|
    requires forall e :: e in node ==> Size(e.1) < b
    requires forall e :: e in node ==> Size(e.1) < c
    ensures Dispatch(node, i, b) == Dispatch(node, i, c)
    decreases |node| - i
  {
    if i < |node| {
      match TagOf(TrimSpace(node[i].0))
      case None =>
        NormalizeFacts.DispatchSkip(node, i, b);
        NormalizeFacts.DispatchSkip(node, i, c);
        DispatchAnyBound(node, i + 1, b, c);
      case Some(tag) =>
        NormalizeFacts.DispatchAt(node, i, b, tag);
        NormalizeFacts.DispatchAt(node, i, c, tag);
        if tag == MapTag {
          MapFromAnyBound(node, 0, map[], b, c);
        } else if tag == ListTag {
          DispatchAnyBound(node, i + 1, b, c);
        }
    }
  }

  lemma {:induction false} MapFromAnyBound(node: seq<Entry>, i: nat, acc: map<string, Plain>, b: nat, c: nat)
    requires i <= |node|
    requires forall e :: e in node ==> Size(e.1) < b
    requires forall e :: e in node ==> Size(e.1) < c
    ensures MapFrom(node, i, acc, b) == MapFrom(node, i, acc, c)
    decreases |node| - i
  {
    if i < |node| {
      var value := node[i].1;
      if TrimSpace(node[i].0) == "" || !value.JObject? {
        MapFromAnyBound(node, i + 1, acc, b, c);
      } else {
        match MergeInner(value.fields, 0, acc)
        case Crashed =>
        case Done(merged) => MapFromAnyBound(node, i + 1, merged, b, c);
      }
    }
  }

  /** criteriaChecks on a node it has already normalised returns what it
      returned the first time. */
  lemma CriteriaChecksNormalized(node: seq<Entry>)
    requires DistinctKeys(node)
    ensures CriteriaChecks(Normalize(node)) == CriteriaChecks(node)
  {
    var m := Normalize(node);
    NormalizeIdempotent(node);
    FieldsSmaller(m);
    DispatchAnyBound(m, 0, Size(JObject(m)), Size(JObject(node)));
  }
}
