/** The two trees the converter works on: the generic JSON value that Go's
    `json.Unmarshal` produces into `interface{}`, and the plain value the
    decoder returns. */
module Values {

  datatype Option<+T> = None | Some(value: T)

  /** A generic JSON value. An object is its list of entries in the order a
      `for ... range` over the Go map visits them; Go fixes no order, so the
      model takes the order as part of the input. Numbers never reach a
      converter, so only their presence matters. */
  datatype Json =
    | JObject(fields: seq<Entry>)
    | JArray(items: seq<Json>)
    | JString(s: string)
    | JNumber(x: real)
    | JBool(b: bool)
    | JNull

  type Entry = (string, Json)

  /** A decoded value: what the decoder returns as a non-nil `interface{}`.
      Integers are Go `int64` and floats `float64` (see the numeric converter
      for the ranges that are kept); an object is a Go map, which has no order. */
  datatype Plain =
    | Str(s: string)
    | Int(i: int)
    | Float(x: real)
    | Bool(b: bool)
    | List(items: seq<Plain>)
    | Obj(entries: map<string, Plain>)

  /** The result of decoding one typed-attribute node: the source panics on a
      failed type assertion, returns nil for an omitted value, or returns a value. */
  datatype Outcome = Panic | Nil | Val(v: Plain)

  /** The state of an accumulating loop that may hit a panic on the way. */
  datatype Run<+T> = Crashed | Done(value: T)

  function FromOption(o: Option<Plain>): (r: Outcome)
    ensures r != Panic
    ensures r.Val? <==> o.Some?
    ensures o.Some? ==> r.v == o.value
  {
    match o
    case None => Nil
    case Some(p) => Val(p)
  }

  function Sum(s: seq<nat>): nat {
    if s == [] then 0 else s[0] + Sum(s[1..])
  }

  lemma {:induction false} SumBoundsElement(s: seq<nat>, i: nat)
    requires i < |s|
    ensures s[i] <= Sum(s)
  {
    if i > 0 {
      SumBoundsElement(s[1..], i - 1);
    }
  }

  /** The number of nodes of a JSON tree: the measure the decoder's recursion
      descends on. */
  function Size(j: Json): nat {
    match j
    case JObject(fs) => 1 + Sum(seq(|fs|, i requires 0 <= i < |fs| => Size(fs[i].1)))
    case JArray(xs) => 1 + Sum(seq(|xs|, i requires 0 <= i < |xs| => Size(xs[i])))
    case _ => 1
  }

  lemma FieldSmaller(fs: seq<Entry>, i: nat)
    requires i < |fs|
    ensures Size(fs[i].1) < Size(JObject(fs))
  {
    var sizes := seq(|fs|, k requires 0 <= k < |fs| => Size(fs[k].1));
    SumBoundsElement(sizes, i);
  }

  lemma ItemSmaller(xs: seq<Json>, i: nat)
    requires i < |xs|
    ensures Size(xs[i]) < Size(JArray(xs))
  {
    var sizes := seq(|xs|, k requires 0 <= k < |xs| => Size(xs[k]));
    SumBoundsElement(sizes, i);
  }

  lemma FieldsSmaller(fs: seq<Entry>)
    ensures forall e :: e in fs ==> Size(e.1) < Size(JObject(fs))
  {
    forall e | e in fs
      ensures Size(e.1) < Size(JObject(fs))
    {
      var i :| 0 <= i < |fs| && fs[i] == e;
      FieldSmaller(fs, i);
    }
  }

  lemma ItemsSmaller(xs: seq<Json>)
    ensures forall x :: x in xs ==> Size(x) < Size(JArray(xs))
  {
    forall x | x in xs
      ensures Size(x) < Size(JArray(xs))
    {
      var i :| 0 <= i < |xs| && xs[i] == x;
      ItemSmaller(xs, i);
    }
  }

  /* --- An object's entries read as a Go map: lookup and assignment. --- */

  function Keys(m: seq<Entry>): set<string> {
    set e | e in m :: e.0
  }

  /** Go map keys are distinct. */
  predicate DistinctKeys(m: seq<Entry>) {
    forall i, j :: 0 <= i < j < |m| ==> m[i].0 != m[j].0
  }

  /** `m[k]`: the value bound to `k`, if any. */
  function Lookup(m: seq<Entry>, k: string): (r: Option<Json>)
    ensures r.Some? <==> k in Keys(m)
    ensures r.Some? ==> (k, r.value) in m
    ensures DistinctKeys(m) ==> forall v :: (k, v) in m ==> r == Some(v)
  {
    if m == [] then None
    else if m[0].0 == k then Some(m[0].1)
    else
      var r := Lookup(m[1..], k);
      assert Keys(m) == {m[0].0} + Keys(m[1..]);
      r
  }

  /** The entries after `m[k] = v`, before anything is proved about them. */
  function Assign(m: seq<Entry>, k: string, v: Json): seq<Entry> {
    if m == [] then [(k, v)]
    else if m[0].0 == k then [(k, v)] + m[1..]
    else [m[0]] + Assign(m[1..], k, v)
  }

  lemma KeysCons(e: Entry, m: seq<Entry>)
    ensures Keys([e] + m) == {e.0} + Keys(m)
  {
    assert forall d :: d in [e] + m <==> d == e || d in m;
  }

  lemma {:induction false} AssignKeys(m: seq<Entry>, k: string, v: Json)
    ensures Keys(Assign(m, k, v)) == Keys(m) + {k}
  {
    if m != [] {
      KeysCons(m[0], m[1..]);
      assert m == [m[0]] + m[1..];
      if m[0].0 == k {
        KeysCons((k, v), m[1..]);
      } else {
        AssignKeys(m[1..], k, v);
        KeysCons(m[0], Assign(m[1..], k, v));
      }
    }
  }

  lemma {:induction false} AssignLookup(m: seq<Entry>, k: string, v: Json, k': string)
    ensures Lookup(Assign(m, k, v), k') == if k' == k then Some(v) else Lookup(m, k')
  {
    if m != [] && m[0].0 != k {
      AssignLookup(m[1..], k, v, k');
      assert ([m[0]] + Assign(m[1..], k, v))[1..] == Assign(m[1..], k, v);
    } else if m != [] {
      assert ([(k, v)] + m[1..])[1..] == m[1..];
    }
  }

  lemma {:induction false} AssignEntries(m: seq<Entry>, k: string, v: Json)
    ensures forall e :: e in Assign(m, k, v) ==> e in m || e == (k, v)
    ensures |Assign(m, k, v)| <= |m| + 1
  {
    if m != [] && m[0].0 != k {
      AssignEntries(m[1..], k, v);
    }
  }

  lemma AssignLookups(m: seq<Entry>, k: string, v: Json)
    ensures forall k' :: Lookup(Assign(m, k, v), k') == if k' == k then Some(v) else Lookup(m, k')
  {
    forall k' {
      AssignLookup(m, k, v, k');
    }
  }

  lemma {:induction false} AssignDistinct(m: seq<Entry>, k: string, v: Json)
    ensures DistinctKeys(m) ==> DistinctKeys(Assign(m, k, v))
  {
    if m != [] && DistinctKeys(m) {
      var r := Assign(m, k, v);
      if m[0].0 == k {
        assert forall i :: 1 <= i < |r| ==> r[i] == m[i];
      } else {
        assert DistinctKeys(m[1..]);
        AssignDistinct(m[1..], k, v);
        AssignKeys(m[1..], k, v);
        KeysCons(m[0], m[1..]);
        assert m == [m[0]] + m[1..];
        assert m[0].0 !in Keys(m[1..]);
        var rest := Assign(m[1..], k, v);
        assert Keys(rest) == Keys(m[1..]) + {k};
        forall j | 0 <= j < |rest|
          ensures rest[j].0 != m[0].0
        {
          assert rest[j] in rest;
          assert rest[j].0 in Keys(rest);
        }
        assert r == [m[0]] + rest;
      }
    }
  }

  /** `m[k] = v`: replaces the binding of `k` where it stands, or appends one. */
  function Put(m: seq<Entry>, k: string, v: Json): (r: seq<Entry>)
    ensures Keys(r) == Keys(m) + {k}
    ensures Lookup(r, k) == Some(v)
    ensures forall k' :: k' != k ==> Lookup(r, k') == Lookup(m, k')
    ensures forall e :: e in r ==> e in m || e == (k, v)
    ensures DistinctKeys(m) ==> DistinctKeys(r)
    ensures |r| <= |m| + 1
  {
    AssignKeys(m, k, v);
    AssignLookups(m, k, v);
    AssignEntries(m, k, v);
    AssignDistinct(m, k, v);
    Assign(m, k, v)
  }
}
