/** Go's `sort.Strings`: the keys slice is put in increasing byte-wise order
    in place. The library's own algorithm is not modelled; this insertion sort
    meets the same contract. */
module Sorting {
  import opened Text

  /** `a` comes no later than `b` in Go's string order. */
  predicate Le(a: string, b: string) {
    !Less(b, a)
  }

  predicate Sorted(s: seq<string>) {
    forall p, q :: 0 <= p < q < |s| ==> Le(s[p], s[q])
  }

  lemma LeTransitive(a: string, b: string, c: string)
    requires Le(a, b) && Le(b, c)
    ensures Le(a, c)
  {
    if Less(c, a) {
      LessTotal(a, b);
      if Less(a, b) {
        LessTransitive(c, a, b);
      }
    }
  }

  /** During the insertion of the element at position `j` into `s[..i + 1]`:
      the other elements are in order, and the inserted one is no later than
      anything to its right. */
  predicate Inserting(s: seq<string>, i: nat, j: nat)
    requires j <= i < |s|
  {
    && (forall p, q :: 0 <= p < q <= i && p != j && q != j ==> Le(s[p], s[q]))
    && (forall q :: j < q <= i ==> Le(s[j], s[q]))
  }

  /** Swapping the inserted element with a later left neighbour moves the
      insertion one place to the left. */
  lemma SwapStep(s: seq<string>, i: nat, j: nat)
    requires 0 < j <= i < |s| && Inserting(s, i, j) && Less(s[j], s[j - 1])
    ensures Inserting(s[j - 1 := s[j]][j := s[j - 1]], i, j - 1)
  {
    var t := s[j - 1 := s[j]][j := s[j - 1]];
    LessTotal(s[j], s[j - 1]);
    forall p, q | 0 <= p < q <= i && p != j - 1 && q != j - 1
      ensures Le(t[p], t[q])
    {
      if q == j {
        assert t[q] == s[j - 1];
      } else if p == j {
        assert t[p] == s[j - 1];
      }
    }
    forall q | j - 1 < q <= i
      ensures Le(t[j - 1], t[q])
    {
      if q == j {
        LessIrreflexive(s[j]);
        if Less(s[j - 1], s[j]) {
          LessTransitive(s[j], s[j - 1], s[j]);
        }
      }
    }
  }

  /** An insertion that stops where the left neighbour is no later leaves
      the whole prefix up to `i` sorted. */
  lemma InsertedSorted(s: seq<string>, i: nat, j: nat)
    requires j <= i < |s| && Inserting(s, i, j)
    requires j > 0 ==> Le(s[j - 1], s[j])
    ensures forall p, q :: 0 <= p < q <= i ==> Le(s[p], s[q])
  {
    forall p, q | 0 <= p < q <= i
      ensures Le(s[p], s[q])
    {
      if q == j && p < j - 1 {
        LeTransitive(s[p], s[j - 1], s[j]);
      }
    }
  }

  /** Sorts `a` in place: the result is in order and holds the same strings. */
  method SortStrings(a: array<string>)
    modifies a
    ensures Sorted(a[..])
    ensures multiset(a[..]) == multiset(old(a[..]))
  {
    for i := 0 to a.Length
      invariant forall p, q :: 0 <= p < q < i ==> Le(a[p], a[q])
      invariant multiset(a[..]) == multiset(old(a[..]))
    {
      var j := i;
      while j > 0 && Less(a[j], a[j - 1])
        invariant 0 <= j <= i
        invariant Inserting(a[..], i, j)
        invariant multiset(a[..]) == multiset(old(a[..]))
      {
        ghost var s := a[..];
        SwapStep(s, i, j);
        a[j - 1], a[j] := a[j], a[j - 1];
        assert a[..] == s[j - 1 := s[j]][j := s[j - 1]];
        j := j - 1;
      }
      InsertedSorted(a[..], i, j);
    }
  }
}
