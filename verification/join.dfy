/**
 pandas' `DataFrame.merge(..., how='left')` on one key: every left row is kept,
 in left order; it is paired with each right row whose key equals its own
 (in right order), or once with a missing value when no right row matches.
 */
module Join {
  import opened Wrappers

  /** No two rows of `right` share a key. */
  ghost predicate UniqueKeys<R, K>(right: seq<R>, rkey: R -> K) {
    forall i, j :: 0 <= i < j < |right| ==> rkey(right[i]) != rkey(right[j])
  }

  /** Some row of `right` has key `k`. */
  ghost predicate HasKey<R, K>(right: seq<R>, rkey: R -> K, k: K) {
    exists j :: 0 <= j < |right| && rkey(right[j]) == k
  }

  /** The rows of `right` whose key is `k`, in right order. */
  function Matches<R, K(==)>(right: seq<R>, rkey: R -> K, k: K): (ms: seq<R>)
    ensures forall m :: m in ms ==> m in right && rkey(m) == k
    ensures forall j :: 0 <= j < |right| && rkey(right[j]) == k ==> right[j] in ms
    ensures |ms| <= |right|
  {
    if |right| == 0 then []
    else if rkey(right[0]) == k then [right[0]] + Matches(right[1..], rkey, k)
    else Matches(right[1..], rkey, k)
  }

  /** A row of `right` with key `k`, if there is one. */
  function Lookup<R, K(==)>(right: seq<R>, rkey: R -> K, k: K): (r: Option<R>)
    ensures r.Some? <==> HasKey(right, rkey, k)
    ensures r.Some? ==> r.value in right && rkey(r.value) == k
  {
    if |right| == 0 then None
    else if rkey(right[0]) == k then Some(right[0])
    else
      var r := Lookup(right[1..], rkey, k);
      assert HasKey(right[1..], rkey, k) ==> HasKey(right, rkey, k);
      assert HasKey(right, rkey, k) ==> HasKey(right[1..], rkey, k) by {
        if HasKey(right, rkey, k) {
          var j :| 0 <= j < |right| && rkey(right[j]) == k;
          assert j != 0 && rkey(right[1..][j - 1]) == k;
        }
      }
      r
  }

  /** When some row has key `k`, the first match is the row Lookup finds. */
  lemma {:induction false} MatchesHead<R, K>(right: seq<R>, rkey: R -> K, k: K)
    requires HasKey(right, rkey, k)
    ensures |Matches(right, rkey, k)| > 0
    ensures Matches(right, rkey, k)[0] == Lookup(right, rkey, k).value
  {
    if rkey(right[0]) != k {
      var j :| 0 <= j < |right| && rkey(right[j]) == k;
      assert rkey(right[1..][j - 1]) == k;
      MatchesHead(right[1..], rkey, k);
    }
  }

  /** The joined rows one left row `l` contributes. */
  function JoinRow<L, R, K(==)>(l: L, right: seq<R>, lkey: L -> K, rkey: R -> K): (out: seq<(L, Option<R>)>)
    ensures |out| >= 1
    ensures forall p :: p in out ==> p.0 == l
    ensures forall p :: p in out && p.1.Some? ==> p.1.value in right && rkey(p.1.value) == lkey(l)
    ensures forall p :: p in out && p.1.None? ==> !HasKey(right, rkey, lkey(l))
    ensures (l, Lookup(right, rkey, lkey(l))) in out
    ensures forall j :: 0 <= j < |right| && rkey(right[j]) == lkey(l) ==> (l, Some(right[j])) in out
    ensures HasKey(right, rkey, lkey(l)) ==> |out| == |Matches(right, rkey, lkey(l))|
    ensures !HasKey(right, rkey, lkey(l)) ==> out == [(l, None)]
    ensures HasKey(right, rkey, lkey(l)) ==>
      forall i :: 0 <= i < |out| ==> out[i] == (l, Some(Matches(right, rkey, lkey(l))[i]))
  {
    var ms := Matches(right, rkey, lkey(l));
    if |ms| == 0 then
      assert !HasKey(right, rkey, lkey(l)) by {
        if HasKey(right, rkey, lkey(l)) {
          MatchesHead(right, rkey, lkey(l));
        }
      }
      [(l, None)]
    else
      var out := seq(|ms|, i requires 0 <= i < |ms| => (l, Some(ms[i])));
      assert HasKey(right, rkey, lkey(l)) by {
        assert ms[0] in right;
        var j :| 0 <= j < |right| && right[j] == ms[0];
      }
      MatchesHead(right, rkey, lkey(l));
      assert out[0] == (l, Lookup(right, rkey, lkey(l)));
      forall j | 0 <= j < |right| && rkey(right[j]) == lkey(l)
        ensures (l, Some(right[j])) in out
      {
        var k :| 0 <= k < |ms| && ms[k] == right[j];
        assert out[k] == (l, Some(right[j]));
      }
      out
  }

  /**
   The left merge of `left` with `right`, `left` keyed by `lkey` and `right` by
   `rkey`. Every left row appears, paired with the partner Lookup finds (or with
   a missing value when there is none); an output row pairs a left row with a
   right row carrying its key, or with a missing value only when no right row
   carries it.
   */
  function LeftJoin<L, R, K(==)>(left: seq<L>, right: seq<R>, lkey: L -> K, rkey: R -> K): (out: seq<(L, Option<R>)>)
    ensures |out| >= |left|
    ensures forall i :: 0 <= i < |left| ==> (left[i], Lookup(right, rkey, lkey(left[i]))) in out
    ensures forall p :: p in out ==> p.0 in left
    ensures forall p :: p in out && p.1.Some? ==> p.1.value in right && rkey(p.1.value) == lkey(p.0)
    ensures forall p :: p in out && p.1.None? ==> !HasKey(right, rkey, lkey(p.0))
  {
    if |left| == 0 then []
    else
      var head, tail := JoinRow(left[0], right, lkey, rkey), LeftJoin(left[1..], right, lkey, rkey);
      assert forall p :: p in tail ==> p.0 in left;
      assert forall i :: 1 <= i < |left| ==> left[i] == left[1..][i - 1];
      head + tail
  }

  /** Matching is a filter: it distributes over concatenation of the right table. */
  lemma {:induction false} MatchesAppend<R, K>(a: seq<R>, b: seq<R>, rkey: R -> K, k: K)
    ensures Matches(a + b, rkey, k) == Matches(a, rkey, k) + Matches(b, rkey, k)
  {
    if |a| == 0 {
      assert a + b == b;
    } else {
      assert (a + b)[1..] == a[1..] + b;
      MatchesAppend(a[1..], b, rkey, k);
    }
  }

  /** Two right rows carrying key `k` give at least two matches. */
  lemma MatchesTwo<R, K>(right: seq<R>, rkey: R -> K, k: K, i: int, j: int)
    requires 0 <= i < j < |right|
    requires rkey(right[i]) == k && rkey(right[j]) == k
    ensures |Matches(right, rkey, k)| >= 2
  {
    var a, b := right[..j], right[j..];
    assert right == a + b;
    MatchesAppend(a, b, rkey, k);
    assert a[i] == right[i];
    assert right[i] in Matches(a, rkey, k);
    assert b[0] == right[j];
    assert right[j] in Matches(b, rkey, k);
  }

  /** The merge works row by row: it distributes over concatenation of the left table, so left order is kept. */
  lemma {:induction false} LeftJoinAppend<L, R, K>(a: seq<L>, b: seq<L>, right: seq<R>, lkey: L -> K, rkey: R -> K)
    ensures LeftJoin(a + b, right, lkey, rkey) == LeftJoin(a, right, lkey, rkey) + LeftJoin(b, right, lkey, rkey)
  {
    if |a| == 0 {
      assert a + b == b;
    } else {
      LeftJoinAppend(a[1..], b, right, lkey, rkey);
      LeftJoinCons(a, b, right, lkey, rkey);
    }
  }

  /** One step of LeftJoinAppend: the first row of `a + b` is the first row of `a`. */
  lemma LeftJoinCons<L, R, K>(a: seq<L>, b: seq<L>, right: seq<R>, lkey: L -> K, rkey: R -> K)
    requires |a| > 0
    ensures LeftJoin(a + b, right, lkey, rkey) ==
      JoinRow(a[0], right, lkey, rkey) + LeftJoin(a[1..] + b, right, lkey, rkey)
  {
    var ab := a + b;
    assert ab[0] == a[0] && ab[1..] == a[1..] + b;
  }

  /** The merge of a single left row is the rows that row contributes. */
  lemma LeftJoinSingle<L, R, K>(l: L, right: seq<R>, lkey: L -> K, rkey: R -> K)
    ensures LeftJoin([l], right, lkey, rkey) == JoinRow(l, right, lkey, rkey)
  {
    assert [l][1..] == [];
  }

  /** With unique keys, a key matches at most one row, which is the one Lookup finds. */
  lemma {:induction false} MatchesUnique<R, K>(right: seq<R>, rkey: R -> K, k: K)
    requires UniqueKeys(right, rkey)
    ensures Matches(right, rkey, k) == (match Lookup(right, rkey, k) case None => [] case Some(r) => [r])
  {
    if |right| > 0 {
      var tail := right[1..];
      assert UniqueKeys(tail, rkey);
      MatchesUnique(tail, rkey, k);
      if rkey(right[0]) == k {
        assert !HasKey(tail, rkey, k);
      }
    }
  }

  /**
   Joining against a table whose keys are unique keeps the row count and the
   row order of `left`: row i of the result is left row i with the right row
   carrying its key, or with a missing value when there is none.
   */
  lemma {:induction false} LeftJoinUnique<L, R, K>(left: seq<L>, right: seq<R>, lkey: L -> K, rkey: R -> K)
    requires UniqueKeys(right, rkey)
    ensures |LeftJoin(left, right, lkey, rkey)| == |left|
    ensures forall i :: 0 <= i < |left| ==>
      LeftJoin(left, right, lkey, rkey)[i] == (left[i], Lookup(right, rkey, lkey(left[i])))
  {
    if |left| > 0 {
      LeftJoinUnique(left[1..], right, lkey, rkey);
      MatchesUnique(right, rkey, lkey(left[0]));
      var out := LeftJoin(left, right, lkey, rkey);
      var head := JoinRow(left[0], right, lkey, rkey);
      assert head == [(left[0], Lookup(right, rkey, lkey(left[0])))];
      assert out == head + LeftJoin(left[1..], right, lkey, rkey);
    }
  }

  /**
   A right table in which two rows carry the key of some left row makes the
   merge longer than the left table: that left row is repeated once per match.
   */
  lemma LeftJoinDuplicates<L, R, K>(left: seq<L>, right: seq<R>, lkey: L -> K, rkey: R -> K, n: int, i: int, j: int)
    requires 0 <= n < |left|
    requires 0 <= i < j < |right|
    requires rkey(right[i]) == lkey(left[n]) && rkey(right[j]) == lkey(left[n])
    ensures |LeftJoin(left, right, lkey, rkey)| >= |left| + 1
  {
    var before, after := left[..n], left[n + 1..];
    assert left == before + [left[n]] + after;
    LeftJoinAppend(before + [left[n]], after, right, lkey, rkey);
    LeftJoinAppend(before, [left[n]], right, lkey, rkey);
    LeftJoinSingle(left[n], right, lkey, rkey);
    MatchesTwo(right, rkey, lkey(left[n]), i, j);
    assert |JoinRow(left[n], right, lkey, rkey)| >= 2;
  }
}
