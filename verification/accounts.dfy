/**
 The Accounts table: the source rows grouped by user, each group reduced to
 the last account balance it lists and the largest prior-fraud flag it lists.
 The table is a map keyed by user; the order pandas writes the groups in is
 not modelled.
 */
module AccountAggregator {
  import opened Rows

  /** The rows of user `u`, in source order. */
  function Group(rows: seq<SourceRow>, u: UserId): (g: seq<SourceRow>)
    ensures forall k :: 0 <= k < |g| ==> g[k].userId == u
  {
    if |rows| == 0 then []
    else
      var p, last := rows[..|rows| - 1], rows[|rows| - 1];
      assert rows == p + [last];
      Group(p, u) + (if last.userId == u then [last] else [])
  }

  /** A user's group holds exactly the source rows of that user. */
  lemma {:induction false} GroupMembers(rows: seq<SourceRow>, u: UserId)
    ensures forall k :: 0 <= k < |Group(rows, u)| ==> Group(rows, u)[k] in rows
    ensures forall i :: 0 <= i < |rows| && rows[i].userId == u ==> rows[i] in Group(rows, u)
  {
    if |rows| > 0 {
      var p, last := rows[..|rows| - 1], rows[|rows| - 1];
      assert rows == p + [last];
      GroupMembers(p, u);
    }
  }

  /** The largest of a non-empty sequence of flags. */
  function MaxOf(s: seq<int>): (m: int)
    requires |s| > 0
    ensures forall k :: 0 <= k < |s| ==> s[k] <= m
    ensures exists k :: 0 <= k < |s| && s[k] == m
  {
    if |s| == 1 then s[0]
    else
      var m := MaxOf(s[1..]);
      assert forall k :: 1 <= k < |s| ==> s[k] == s[1..][k - 1];
      if s[0] >= m then s[0] else m
  }

  /** The prior-fraud flags of a group, in group order. */
  function Flags(g: seq<SourceRow>): (f: seq<int>)
    ensures |f| == |g|
    ensures forall k :: 0 <= k < |g| ==> f[k] == g[k].previousFraudulentActivity
  {
    seq(|g|, k requires 0 <= k < |g| => g[k].previousFraudulentActivity)
  }

  /**
   The `last` and `max` aggregation of one non-empty group: the balance of the
   group's final row, and a flag that bounds every flag of the group and is
   one of them.
   */
  function Aggregate(u: UserId, g: seq<SourceRow>): (a: Account)
    requires |g| > 0
    ensures a.userId == u
    ensures a.accountBalance == g[|g| - 1].accountBalance
    ensures forall k :: 0 <= k < |g| ==> g[k].previousFraudulentActivity <= a.previousFraudulentActivity
    ensures exists k :: 0 <= k < |g| && g[k].previousFraudulentActivity == a.previousFraudulentActivity
  {
    Account(u, g[|g| - 1].accountBalance, MaxOf(Flags(g)))
  }

  /** The distinct users of the source. */
  function UserIds(rows: seq<SourceRow>): set<UserId> {
    set i | 0 <= i < |rows| :: rows[i].userId
  }

  /** One account per distinct user of the source, and no other. */
  function Accounts(rows: seq<SourceRow>): (accounts: map<UserId, Account>)
    ensures forall u :: u in accounts <==> exists i :: 0 <= i < |rows| && rows[i].userId == u
  {
    map u | u in UserIds(rows) :: GroupNonEmpty(rows, u); Aggregate(u, Group(rows, u))
  }

  /** A user of the source has a non-empty group. */
  lemma GroupNonEmpty(rows: seq<SourceRow>, u: UserId)
    ensures u in UserIds(rows) ==> |Group(rows, u)| > 0
  {
    if u in UserIds(rows) {
      var i :| 0 <= i < |rows| && rows[i].userId == u;
      GroupMembers(rows, u);
      assert rows[i] in Group(rows, u);
    }
  }

  /** Row `i` is the last row of user `u` in source order. */
  ghost predicate IsLastRowOf(rows: seq<SourceRow>, u: UserId, i: int) {
    && 0 <= i < |rows|
    && rows[i].userId == u
    && forall j :: i < j < |rows| ==> rows[j].userId != u
  }

  /** The last row of a user's group is the user's last source row. */
  lemma {:induction false} GroupLast(rows: seq<SourceRow>, u: UserId)
    requires |Group(rows, u)| > 0
    ensures exists i :: IsLastRowOf(rows, u, i) && rows[i] == Group(rows, u)[|Group(rows, u)| - 1]
  {
    var p, last := rows[..|rows| - 1], rows[|rows| - 1];
    if last.userId == u {
      assert Group(rows, u) == Group(p, u) + [last];
      assert IsLastRowOf(rows, u, |rows| - 1);
    } else {
      assert Group(rows, u) == Group(p, u);
      GroupLast(p, u);
      var i :| IsLastRowOf(p, u, i) && p[i] == Group(p, u)[|Group(p, u)| - 1];
      assert forall j :: i < j < |p| ==> rows[j] == p[j];
      assert IsLastRowOf(rows, u, i);
    }
  }

  /** A user's balance is the Account_Balance of that user's last source row. */
  lemma AccountBalanceIsLast(rows: seq<SourceRow>, u: UserId)
    requires u in Accounts(rows)
    ensures exists i :: IsLastRowOf(rows, u, i) && Accounts(rows)[u].accountBalance == rows[i].accountBalance
  {
    GroupNonEmpty(rows, u);
    GroupLast(rows, u);
    AccountOfGroup(rows, u);
  }

  /** A user's account is the aggregation of that user's group, and carries the user's id. */
  lemma AccountOfGroup(rows: seq<SourceRow>, u: UserId)
    requires u in Accounts(rows)
    ensures |Group(rows, u)| > 0
    ensures Accounts(rows)[u] == Aggregate(u, Group(rows, u))
    ensures Accounts(rows)[u].userId == u
  {
    GroupNonEmpty(rows, u);
  }

  /**
   A user's prior-fraud value is the maximum over that user's rows: no row of
   the user has a larger flag, and some row of the user has exactly this one.
   */
  lemma AccountPriorFraudIsMax(rows: seq<SourceRow>, u: UserId)
    requires u in Accounts(rows)
    ensures forall i :: 0 <= i < |rows| && rows[i].userId == u ==>
      rows[i].previousFraudulentActivity <= Accounts(rows)[u].previousFraudulentActivity
    ensures exists i ::
      0 <= i < |rows| && rows[i].userId == u &&
      rows[i].previousFraudulentActivity == Accounts(rows)[u].previousFraudulentActivity
  {
    AccountOfGroup(rows, u);
    GroupMax(rows, u);
  }

  /** The largest flag of a user's group bounds that user's flags and is one of them. */
  lemma GroupMax(rows: seq<SourceRow>, u: UserId)
    requires |Group(rows, u)| > 0
    ensures forall i :: 0 <= i < |rows| && rows[i].userId == u ==>
      rows[i].previousFraudulentActivity <= MaxOf(Flags(Group(rows, u)))
    ensures exists i ::
      0 <= i < |rows| && rows[i].userId == u &&
      rows[i].previousFraudulentActivity == MaxOf(Flags(Group(rows, u)))
  {
    GroupMembers(rows, u);
    var g := Group(rows, u);
    var m := MaxOf(Flags(g));
    forall i | 0 <= i < |rows| && rows[i].userId == u
      ensures rows[i].previousFraudulentActivity <= m
    {
      assert rows[i] in g;
      var k :| 0 <= k < |g| && g[k] == rows[i];
      assert Flags(g)[k] == rows[i].previousFraudulentActivity;
    }
    var k :| 0 <= k < |g| && Flags(g)[k] == m;
    assert g[k] in rows;
    var i :| 0 <= i < |rows| && rows[i] == g[k];
    assert rows[i].userId == u && rows[i].previousFraudulentActivity == m;
  }

  /**
   On 0/1 flags the maximum is the logical OR: a user is flagged exactly when
   some row of that user is flagged.
   */
  lemma AccountPriorFraudIsAny(rows: seq<SourceRow>, u: UserId)
    requires u in Accounts(rows)
    requires forall i :: 0 <= i < |rows| ==> rows[i].previousFraudulentActivity in {0, 1}
    ensures Accounts(rows)[u].previousFraudulentActivity in {0, 1}
    ensures Accounts(rows)[u].previousFraudulentActivity == 1 <==>
      (exists i :: 0 <= i < |rows| && rows[i].userId == u && rows[i].previousFraudulentActivity == 1)
  {
    AccountPriorFraudIsMax(rows, u);
  }

  /** A one-row source gives one account, carrying that row's balance and flag. */
  lemma SingleRowAccount(r: SourceRow)
    ensures Accounts([r]) == map[r.userId := Account(r.userId, r.accountBalance, r.previousFraudulentActivity)]
  {
    var rows := [r];
    SingleRowUsers(r);
    SingleRowGroup(r);
    var m := Accounts(rows);
    assert m.Keys == UserIds(rows);
    assert m[r.userId] == Aggregate(r.userId, Group(rows, r.userId));
    SingletonMap(m, r.userId, Account(r.userId, r.accountBalance, r.previousFraudulentActivity));
  }

  /** A map whose only key is `k` is the one-entry map at `k`. */
  lemma SingletonMap<K, V>(m: map<K, V>, k: K, v: V)
    requires m.Keys == {k}
    requires k in m && m[k] == v
    ensures m == map[k := v]
  {
  }

  /** A one-row source has exactly that row's user. */
  lemma SingleRowUsers(r: SourceRow)
    ensures UserIds([r]) == {r.userId}
  {
    assert [r][0].userId == r.userId;
  }

  /** The one row of a one-row source is its user's whole group. */
  lemma SingleRowGroup(r: SourceRow)
    ensures Group([r], r.userId) == [r]
    ensures Aggregate(r.userId, [r]) == Account(r.userId, r.accountBalance, r.previousFraudulentActivity)
  {
    assert [r][..0] == [];
    assert Flags([r]) == [r.previousFraudulentActivity];
  }
}
