/**
 Order-preserving deduplication, the operation behind pandas' `Series.unique`
 and `DataFrame.drop_duplicates` (keep the first occurrence, in input order).
 */
module Sequences {

  /** No value occurs twice in `s`. */
  ghost predicate Distinct<T>(s: seq<T>) {
    forall i, j :: 0 <= i < j < |s| ==> s[i] != s[j]
  }

  /** Every value of `r` occurs in `s` and every value of `s` occurs in `r`. */
  ghost predicate SameValues<T>(r: seq<T>, s: seq<T>) {
    && (forall x :: x in r ==> x in s)
    && (forall x :: x in s ==> x in r)
  }

  /** The set of values occurring in `s`. */
  ghost function Elems<T>(s: seq<T>): (e: set<T>)
    ensures forall i :: 0 <= i < |s| ==> s[i] in e
    ensures forall x :: x in e ==> x in s
  {
    set i | 0 <= i < |s| :: s[i]
  }

  /** The position of the first occurrence of `x` in `s`. */
  ghost function FirstIndex<T>(s: seq<T>, x: T): (i: nat)
    requires x in s
    ensures i < |s| && s[i] == x
    ensures forall j :: 0 <= j < i ==> s[j] != x
  {
    if s[0] == x then 0 else 1 + FirstIndex(s[1..], x)
  }

  /** The values of `r`, all drawn from `s`, appear in `r` in the order in which they first appear in `s`. */
  ghost predicate InFirstOccurrenceOrder<T>(r: seq<T>, s: seq<T>)
    requires forall i :: 0 <= i < |r| ==> r[i] in s
  {
    forall i, j :: 0 <= i < j < |r| ==> FirstIndex(s, r[i]) < FirstIndex(s, r[j])
  }

  /** Appending a value does not move the first occurrence of any value already present. */
  lemma FirstIndexSnoc<T>(s: seq<T>, x: T)
    ensures forall y :: y in s ==> FirstIndex(s + [x], y) == FirstIndex(s, y)
    ensures x !in s ==> FirstIndex(s + [x], x) == |s|
  {
    forall y | y in s
      ensures FirstIndex(s + [x], y) == FirstIndex(s, y)
    {
      var i, k := FirstIndex(s + [x], y), FirstIndex(s, y);
      assert (s + [x])[k] == y;
      assert i <= k;
      assert s[i] == y;
    }
  }

  /**
   The distinct values of `s`, each kept at its first occurrence: every value
   of `s` is listed exactly once, nothing else is listed, and the order is the
   order of first appearance.
   */
  function Dedup<T(==)>(s: seq<T>): (r: seq<T>)
    ensures Distinct(r)
    ensures SameValues(r, s)
    ensures InFirstOccurrenceOrder(r, s)
    ensures |r| <= |s|
  {
    if |s| == 0 then []
    else
      var p, x := s[..|s| - 1], s[|s| - 1];
      assert s == p + [x];
      var d := Dedup(p);
      FirstIndexSnoc(p, x);
      if x in d then d else d + [x]
  }

  /** The element at any position `i` of `t` is one of the values of `s`. */
  lemma OnlyValuesOf<T>(t: seq<T>, s: seq<T>, i: nat)
    requires SameValues(t, s)
    ensures i < |t| ==> t[i] in s
  {
  }

  /** Two positions of `t` are ordered as the first occurrences of their values in `s`. */
  lemma OrderAt<T>(t: seq<T>, s: seq<T>, i: nat, j: nat)
    requires forall k :: 0 <= k < |t| ==> t[k] in s
    requires InFirstOccurrenceOrder(t, s)
    ensures i < j < |t| ==> FirstIndex(s, t[i]) < FirstIndex(s, t[j])
  {
  }

  /** Order by first occurrence is unaffected by a value appended after all of `t`'s values. */
  lemma OrderOnPrefix<T>(t: seq<T>, p: seq<T>, x: T)
    requires forall i :: 0 <= i < |t| ==> t[i] in p
    requires InFirstOccurrenceOrder(t, p + [x])
    ensures InFirstOccurrenceOrder(t, p)
  {
    FirstIndexSnoc(p, x);
    forall i, j | 0 <= i < j < |t|
      ensures FirstIndex(p, t[i]) < FirstIndex(p, t[j])
    {
      assert FirstIndex(p + [x], t[i]) < FirstIndex(p + [x], t[j]);
    }
  }

  /** In first-occurrence order, a value that first occurs at the very end of `s` comes last. */
  lemma NewValueIsLast<T>(t: seq<T>, p: seq<T>, x: T, k: nat)
    requires forall i :: 0 <= i < |t| ==> t[i] in p + [x]
    requires InFirstOccurrenceOrder(t, p + [x])
    requires x !in p
    requires k < |t| && t[k] == x
    ensures k == |t| - 1
  {
    FirstIndexSnoc(p, x);
    OrderAt(t, p + [x], k, k + 1);
  }

  /** Removing the last element `x` of a distinct `t` removes exactly the value `x`. */
  lemma DropLastValue<T>(t: seq<T>, p: seq<T>, x: T)
    requires Distinct(t) && |t| > 0 && t[|t| - 1] == x
    requires SameValues(t, p + [x])
    requires x !in p
    ensures SameValues(t[..|t| - 1], p)
  {
    var t' := t[..|t| - 1];
    forall i | 0 <= i < |p|
      ensures p[i] in t'
    {
      assert (p + [x])[i] in t;
      var m :| 0 <= m < |t| && t[m] == p[i];
      assert m != |t| - 1;
      assert t'[m] == p[i];
    }
    forall i | 0 <= i < |t'|
      ensures t'[i] in p
    {
      assert t[i] in p + [x] && t[i] != x;
    }
  }

  /**
   Dedup is the only sequence with the three properties its contract lists:
   any distinct listing of the values of `s` in first-occurrence order is Dedup(s).
   */
  lemma {:induction false} DedupUnique<T>(s: seq<T>, t: seq<T>)
    requires Distinct(t)
    requires SameValues(t, s)
    requires InFirstOccurrenceOrder(t, s)
    ensures t == Dedup(s)
    decreases |s|, 1
  {
    if |s| == 0 {
      OnlyValuesOf(t, s, 0);
    } else {
      var p, x := s[..|s| - 1], s[|s| - 1];
      assert s == p + [x];
      if x in p {
        DedupUniqueOld(p, x, t);
      } else {
        DedupUniqueNew(p, x, t);
      }
    }
  }

  lemma {:induction false} DedupUniqueOld<T>(p: seq<T>, x: T, t: seq<T>)
    requires Distinct(t)
    requires SameValues(t, p + [x])
    requires InFirstOccurrenceOrder(t, p + [x])
    requires x in p
    ensures t == Dedup(p + [x])
    decreases |p| + 1, 0
  {
    assert SameValues(t, p);
    OrderOnPrefix(t, p, x);
    DedupUnique(p, t);
    DedupSnoc(p, x);
  }

  lemma {:induction false} DedupUniqueNew<T>(p: seq<T>, x: T, t: seq<T>)
    requires Distinct(t)
    requires SameValues(t, p + [x])
    requires InFirstOccurrenceOrder(t, p + [x])
    requires x !in p
    ensures t == Dedup(p + [x])
    decreases |p| + 1, 0
  {
    assert x in p + [x];
    var k := FirstIndex(t, x);
    NewValueIsLast(t, p, x, k);
    var t' := t[..|t| - 1];
    assert t == t' + [x];
    DropLastValue(t, p, x);
    OrderOnPrefix(t', p, x);
    DedupUnique(p, t');
    DedupSnoc(p, x);
  }

  /** Dedup of a sequence with one more value at the end. */
  lemma DedupSnoc<T>(p: seq<T>, x: T)
    ensures Dedup(p + [x]) == if x in p then Dedup(p) else Dedup(p) + [x]
  {
    assert (p + [x])[..|p|] == p;
  }

  /** Sequences with the same values have the same set of values. */
  lemma SameValuesSameElems<T>(r: seq<T>, s: seq<T>)
    requires SameValues(r, s)
    ensures Elems(r) == Elems(s)
  {
  }

  /** A sequence without repeats has as many positions as it has values. */
  lemma {:induction false} DistinctCardinality<T>(s: seq<T>)
    requires Distinct(s)
    ensures |Elems(s)| == |s|
  {
    if |s| > 0 {
      var p, x := s[..|s| - 1], s[|s| - 1];
      assert s == p + [x];
      DistinctCardinality(p);
      assert Elems(s) == Elems(p) + {x};
      assert x !in Elems(p);
    }
  }
}
