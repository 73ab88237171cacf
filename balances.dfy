/** The balance query of GET /api/groups/:groupId/balances: a read-only
    aggregation of a group's expense splits into (payer, ower) totals. */
module Balances {
  import opened Schema

  /** One row of the join of a group's expenses with their splits, reduced to
      the columns the aggregation reads: the expense's payer, the split's user
      (the ower) and the split's amount. */
  datatype Contribution = Contribution(payer: int, ower: int, amount: int)

  function Key(c: Contribution): (int, int) {
    (c.payer, c.ower)
  }

  /** The join rows one split produces: one for every expense of group g whose
      id is the split's expense id. */
  function Matches(expenses: seq<Expense>, s: Split, g: int): seq<Contribution>
  {
    if expenses == [] then []
    else
      var e := expenses[|expenses| - 1];
      Matches(expenses[..|expenses| - 1], s, g)
      + (if e.id == s.expenseId && e.groupId == g then [Contribution(e.paidBy, s.userId, s.amount)] else [])
  }

  /** `expenses JOIN expense_splits ON expense id WHERE group_id = g`, split by split. */
  function Joined(expenses: seq<Expense>, splits: seq<Split>, g: int): seq<Contribution>
  {
    if splits == [] then []
    else Joined(expenses, splits[..|splits| - 1], g) + Matches(expenses, splits[|splits| - 1], g)
  }

  /** The SUM of amounts of one (payer, ower) group of join rows. */
  function PairSum(cs: seq<Contribution>, payer: int, ower: int): int
  {
    if cs == [] then 0
    else
      var c := cs[|cs| - 1];
      PairSum(cs[..|cs| - 1], payer, ower) + (if c.payer == payer && c.ower == ower then c.amount else 0)
  }

  /** The distinct (payer, ower) groups of the join rows, in order of first appearance. */
  function Pairs(cs: seq<Contribution>): (ps: seq<(int, int)>)
    ensures forall i, j | 0 <= i < j < |ps| :: ps[i] != ps[j]
    ensures forall k :: k in ps <==> exists i | 0 <= i < |cs| :: Key(cs[i]) == k
  {
    if cs == [] then []
    else
      var init := cs[..|cs| - 1];
      assert forall i | 0 <= i < |init| :: init[i] == cs[i];
      var ps := Pairs(init);
      if Key(cs[|cs| - 1]) in ps then ps else ps + [Key(cs[|cs| - 1])]
  }

  /** The name of the user an id joins to, if one exists. */
  function NameOf(users: seq<User>, id: int): (name: Option<string>)
    ensures name.Some? <==> HasUser(users, id)
    ensures name.Some? ==> exists i | 0 <= i < |users| :: users[i].id == id && users[i].name == name.value
  {
    if users == [] then None
    else if users[0].id == id then Some(users[0].name)
    else
      var name := NameOf(users[1..], id);
      assert forall i | 0 <= i < |users| - 1 :: users[1..][i] == users[i + 1];
      name
  }

  /** One row of the response. The response itself carries the two names and the
      balance; the two ids are the key the query groups by. */
  datatype BalanceRow = BalanceRow(payerId: int, owerId: int, payer: string, ower: string, balance: int)

  function RowKey(r: BalanceRow): (int, int) {
    (r.payerId, r.owerId)
  }

  /** A returned row: both ids join a user, the names are theirs, and the
      balance is the positive sum of the pair. */
  predicate Reported(users: seq<User>, cs: seq<Contribution>, r: BalanceRow) {
    && NameOf(users, r.payerId) == Some(r.payer)
    && NameOf(users, r.owerId) == Some(r.ower)
    && r.balance == PairSum(cs, r.payerId, r.owerId)
    && r.balance > 0
  }

  /** A group the outer query keeps: both ids join a user and the sum is positive. */
  predicate Kept(users: seq<User>, cs: seq<Contribution>, k: (int, int)) {
    HasUser(users, k.0) && HasUser(users, k.1) && PairSum(cs, k.0, k.1) > 0
  }

  /** The outer query over the distinct groups ps: join both ids to users, and
      keep the group only when its sum is positive. */
  function Rows(users: seq<User>, cs: seq<Contribution>, ps: seq<(int, int)>): (rows: seq<BalanceRow>)
    ensures forall i | 0 <= i < |rows| :: RowKey(rows[i]) in ps
  {
    if ps == [] then []
    else
      var p, o := ps[0].0, ps[0].1;
      var rest := Rows(users, cs, ps[1..]);
      var payer, ower := NameOf(users, p), NameOf(users, o);
      if payer.Some? && ower.Some? && PairSum(cs, p, o) > 0 then
        var row := BalanceRow(p, o, payer.value, ower.value, PairSum(cs, p, o));
        var rows := [row] + rest;
        assert forall i | 1 <= i < |rows| :: rows[i] == rest[i - 1];
        rows
      else
        rest
  }

  /** Every row is a reported pair. */
  lemma {:induction false} RowsSound(users: seq<User>, cs: seq<Contribution>, ps: seq<(int, int)>)
    ensures forall r | r in Rows(users, cs, ps) :: Reported(users, cs, r)
  {
    if ps != [] {
      RowsSound(users, cs, ps[1..]);
    }
  }

  /** Every kept group of ps has its row. */
  lemma {:induction false} RowsComplete(users: seq<User>, cs: seq<Contribution>, ps: seq<(int, int)>, k: (int, int))
    requires k in ps && Kept(users, cs, k)
    ensures exists i | 0 <= i < |Rows(users, cs, ps)| :: RowKey(Rows(users, cs, ps)[i]) == k
  {
    var rows := Rows(users, cs, ps);
    var rest := Rows(users, cs, ps[1..]);
    if k == ps[0] {
      assert RowKey(rows[0]) == k;
    } else {
      assert k in ps[1..];
      RowsComplete(users, cs, ps[1..], k);
      var i :| 0 <= i < |rest| && RowKey(rest[i]) == k;
      if Kept(users, cs, ps[0]) {
        assert rows == [rows[0]] + rest;
        assert RowKey(rows[i + 1]) == k;
      }
    }
  }

  /** No (payer, ower) pair has two rows. */
  predicate DistinctKeys(rows: seq<BalanceRow>) {
    forall i, j | 0 <= i < j < |rows| :: RowKey(rows[i]) != RowKey(rows[j])
  }

  /** Distinct groups give rows with distinct keys. */
  lemma {:induction false} RowsDistinct(users: seq<User>, cs: seq<Contribution>, ps: seq<(int, int)>)
    requires forall i, j | 0 <= i < j < |ps| :: ps[i] != ps[j]
    ensures DistinctKeys(Rows(users, cs, ps))
  {
    if ps != [] {
      var rest := Rows(users, cs, ps[1..]);
      var tail := ps[1..];
      forall i, j | 0 <= i < j < |tail| ensures tail[i] != tail[j] {
        assert tail[i] == ps[i + 1] && tail[j] == ps[j + 1];
      }
      RowsDistinct(users, cs, ps[1..]);
      var rows := Rows(users, cs, ps);
      if rows != rest {
        assert ps[0] !in ps[1..];
        assert rows == [rows[0]] + rest;
        assert RowKey(rows[0]) == (ps[0].0, ps[0].1) == ps[0];
        forall i, j | 0 <= i < j < |rows| ensures RowKey(rows[i]) != RowKey(rows[j]) {
          assert rows[j] == rest[j - 1];
          if i > 0 {
            assert rows[i] == rest[i - 1];
            assert RowKey(rest[i - 1]) != RowKey(rest[j - 1]);
          } else {
            assert RowKey(rest[j - 1]) in ps[1..];
          }
        }
      }
    }
  }

  /** The balances of group g, one row per (payer, ower) pair with a positive total. */
  function GroupBalances(users: seq<User>, expenses: seq<Expense>, splits: seq<Split>, g: int): seq<BalanceRow>
  {
    var cs := Joined(expenses, splits, g);
    Rows(users, cs, Pairs(cs))
  }

  // ---------------------------------------------------------------------------
  // A reference definition, written over the split table rather than the join.

  predicate UniqueIds(expenses: seq<Expense>) {
    forall i, j | 0 <= i < j < |expenses| :: expenses[i].id != expenses[j].id
  }

  /** Split s belongs to an expense of group g paid by p. */
  predicate PaidInGroupBy(expenses: seq<Expense>, s: Split, g: int, p: int) {
    exists i | 0 <= i < |expenses| ::
      expenses[i].id == s.expenseId && expenses[i].groupId == g && expenses[i].paidBy == p
  }

  /** The total of the splits owed by o on the expenses of group g that p paid. */
  function SplitTotal(expenses: seq<Expense>, splits: seq<Split>, g: int, p: int, o: int): int
  {
    if splits == [] then 0
    else
      var s := splits[|splits| - 1];
      SplitTotal(expenses, splits[..|splits| - 1], g, p, o)
      + (if s.userId == o && PaidInGroupBy(expenses, s, g, p) then s.amount else 0)
  }

  // ---------------------------------------------------------------------------
  // Lemmas

  lemma {:induction false} PairSumAppend(a: seq<Contribution>, b: seq<Contribution>, p: int, o: int)
    ensures PairSum(a + b, p, o) == PairSum(a, p, o) + PairSum(b, p, o)
  {
    if b == [] {
      assert a + b == a;
    } else {
      assert (a + b)[..|a + b| - 1] == a + b[..|b| - 1];
      PairSumAppend(a, b[..|b| - 1], p, o);
    }
  }

  /** A pair that never occurs in the join sums to zero. */
  lemma {:induction false} PairSumAbsent(cs: seq<Contribution>, p: int, o: int)
    requires forall i | 0 <= i < |cs| :: Key(cs[i]) != (p, o)
    ensures PairSum(cs, p, o) == 0
  {
    if cs != [] {
      PairSumAbsent(cs[..|cs| - 1], p, o);
    }
  }

  /** With distinct expense ids a split joins at most one expense, so it adds
      its amount to (p, o) exactly when its expense is in g, paid by p, and o owes it. */
  lemma {:induction false} MatchesSum(expenses: seq<Expense>, s: Split, g: int, p: int, o: int)
    requires UniqueIds(expenses)
    ensures PairSum(Matches(expenses, s, g), p, o)
         == if s.userId == o && PaidInGroupBy(expenses, s, g, p) then s.amount else 0
  {
    if expenses != [] {
      var init := expenses[..|expenses| - 1];
      var e := expenses[|expenses| - 1];
      assert forall i | 0 <= i < |init| :: init[i] == expenses[i];
      MatchesSum(init, s, g, p, o);
      var tail := if e.id == s.expenseId && e.groupId == g then [Contribution(e.paidBy, s.userId, s.amount)] else [];
      PairSumAppend(Matches(init, s, g), tail, p, o);
      assert tail != [] ==> PairSum(tail, p, o) == PairSum([], p, o) + (if e.paidBy == p && s.userId == o then s.amount else 0);
      if e.id == s.expenseId {
        assert !PaidInGroupBy(init, s, g, p);
      }
      if PaidInGroupBy(expenses, s, g, p) && !PaidInGroupBy(init, s, g, p) {
        var i :| 0 <= i < |expenses| && expenses[i].id == s.expenseId && expenses[i].groupId == g && expenses[i].paidBy == p;
        assert i == |expenses| - 1;
      }
    }
  }

  /** The aggregation equation: the sum of the join rows of (p, o) is the
      reference total over the split table. */
  lemma {:induction false} JoinedSum(expenses: seq<Expense>, splits: seq<Split>, g: int, p: int, o: int)
    requires UniqueIds(expenses)
    ensures PairSum(Joined(expenses, splits, g), p, o) == SplitTotal(expenses, splits, g, p, o)
  {
    if splits != [] {
      var init := splits[..|splits| - 1];
      JoinedSum(expenses, init, g, p, o);
      PairSumAppend(Joined(expenses, init, g), Matches(expenses, splits[|splits| - 1], g), p, o);
      MatchesSum(expenses, splits[|splits| - 1], g, p, o);
    }
  }

  /** Every returned row names two existing users, carries the total of the
      splits of group g that the ower owes on expenses the payer paid, is
      strictly positive, and no (payer, ower) pair is returned twice. */
  lemma BalancesSound(users: seq<User>, expenses: seq<Expense>, splits: seq<Split>, g: int)
    requires UniqueIds(expenses)
    ensures forall r | r in GroupBalances(users, expenses, splits, g) ::
      && NameOf(users, r.payerId) == Some(r.payer)
      && NameOf(users, r.owerId) == Some(r.ower)
      && r.balance == SplitTotal(expenses, splits, g, r.payerId, r.owerId)
      && r.balance > 0
    ensures DistinctKeys(GroupBalances(users, expenses, splits, g))
  {
    var rows := GroupBalances(users, expenses, splits, g);
    var cs := Joined(expenses, splits, g);
    assert rows == Rows(users, cs, Pairs(cs));
    RowsDistinct(users, cs, Pairs(cs));
    RowsSound(users, cs, Pairs(cs));
    forall r | r in rows
      ensures r.balance == SplitTotal(expenses, splits, g, r.payerId, r.owerId)
    {
      JoinedSum(expenses, splits, g, r.payerId, r.owerId);
    }
  }

  /** Every pair of existing users whose total in group g is positive is returned. */
  lemma BalancesComplete(users: seq<User>, expenses: seq<Expense>, splits: seq<Split>, g: int, p: int, o: int)
    requires UniqueIds(expenses)
    requires HasUser(users, p) && HasUser(users, o)
    requires SplitTotal(expenses, splits, g, p, o) > 0
    ensures exists r | r in GroupBalances(users, expenses, splits, g) ::
      RowKey(r) == (p, o) && r.balance == SplitTotal(expenses, splits, g, p, o)
  {
    var cs := Joined(expenses, splits, g);
    JoinedSum(expenses, splits, g, p, o);
    if (p, o) !in Pairs(cs) {
      PairSumAbsent(cs, p, o);
    }
    RowsComplete(users, cs, Pairs(cs), (p, o));
    RowsSound(users, cs, Pairs(cs));
    var rows := GroupBalances(users, expenses, splits, g);
    var i :| 0 <= i < |rows| && RowKey(rows[i]) == (p, o);
    assert rows[i] in rows;
  }

  /** Opposite debts are not netted: when a owes b and b owes a, both rows are
      returned with their own totals. With a == b this is the self-pair row. */
  lemma NoNetting(users: seq<User>, expenses: seq<Expense>, splits: seq<Split>, g: int, a: int, b: int)
    requires UniqueIds(expenses)
    requires HasUser(users, a) && HasUser(users, b)
    requires SplitTotal(expenses, splits, g, a, b) > 0 && SplitTotal(expenses, splits, g, b, a) > 0
    ensures exists r | r in GroupBalances(users, expenses, splits, g) ::
      RowKey(r) == (a, b) && r.balance == SplitTotal(expenses, splits, g, a, b)
    ensures exists r | r in GroupBalances(users, expenses, splits, g) ::
      RowKey(r) == (b, a) && r.balance == SplitTotal(expenses, splits, g, b, a)
  {
    BalancesComplete(users, expenses, splits, g, a, b);
    BalancesComplete(users, expenses, splits, g, b, a);
  }

  /** The expenses of group g alone. */
  function InGroup(expenses: seq<Expense>, g: int): (r: seq<Expense>)
    ensures forall i | 0 <= i < |r| :: r[i].groupId == g
    ensures forall e :: e in r <==> e in expenses && e.groupId == g
    ensures |r| <= |expenses|
  {
    if expenses == [] then []
    else
      var init := expenses[..|expenses| - 1];
      var e := expenses[|expenses| - 1];
      assert expenses == init + [e];
      InGroup(init, g) + (if e.groupId == g then [e] else [])
  }

  lemma {:induction false} MatchesInGroup(expenses: seq<Expense>, s: Split, g: int)
    ensures Matches(expenses, s, g) == Matches(InGroup(expenses, g), s, g)
  {
    if expenses != [] {
      var init := expenses[..|expenses| - 1];
      var e := expenses[|expenses| - 1];
      MatchesInGroup(init, s, g);
      var r := InGroup(init, g);
      if e.groupId == g {
        assert InGroup(expenses, g) == r + [e];
        assert (r + [e])[..|r + [e]| - 1] == r;
        assert Matches(r + [e], s, g)
            == Matches(r, s, g) + (if e.id == s.expenseId then [Contribution(e.paidBy, s.userId, s.amount)] else []);
      } else {
        assert InGroup(expenses, g) == r;
      }
    }
  }

  /** Only the expenses of the requested group contribute: dropping every other
      group's expenses leaves the balances unchanged. */
  lemma {:induction false} OtherGroupsIgnored(users: seq<User>, expenses: seq<Expense>, splits: seq<Split>, g: int)
    ensures GroupBalances(users, expenses, splits, g) == GroupBalances(users, InGroup(expenses, g), splits, g)
  {
    JoinedInGroup(expenses, splits, g);
  }

  lemma {:induction false} JoinedInGroup(expenses: seq<Expense>, splits: seq<Split>, g: int)
    ensures Joined(expenses, splits, g) == Joined(InGroup(expenses, g), splits, g)
  {
    if splits != [] {
      JoinedInGroup(expenses, splits[..|splits| - 1], g);
      MatchesInGroup(expenses, splits[|splits| - 1], g);
    }
  }

  /** Every join row's payer and ower are users, when every expense's payer
      and every split's user is one. */
  lemma {:induction false} MatchesUsers(users: seq<User>, expenses: seq<Expense>, s: Split, g: int)
    requires forall i | 0 <= i < |expenses| :: HasUser(users, expenses[i].paidBy)
    requires HasUser(users, s.userId)
    ensures forall c | c in Matches(expenses, s, g) :: HasUser(users, c.payer) && HasUser(users, c.ower)
  {
    if expenses != [] {
      var init := expenses[..|expenses| - 1];
      assert forall i | 0 <= i < |init| :: init[i] == expenses[i];
      MatchesUsers(users, init, s, g);
    }
  }

  lemma {:induction false} JoinedUsers(users: seq<User>, expenses: seq<Expense>, splits: seq<Split>, g: int)
    requires forall i | 0 <= i < |expenses| :: HasUser(users, expenses[i].paidBy)
    requires forall i | 0 <= i < |splits| :: HasUser(users, splits[i].userId)
    ensures forall c | c in Joined(expenses, splits, g) :: HasUser(users, c.payer) && HasUser(users, c.ower)
  {
    if splits != [] {
      var init := splits[..|splits| - 1];
      assert forall i | 0 <= i < |init| :: init[i] == splits[i];
      JoinedUsers(users, expenses, init, g);
      MatchesUsers(users, expenses, splits[|splits| - 1], g);
    }
  }

  /** A user appended at the end does not change the name an existing id joins to. */
  lemma {:induction false} NameOfAppend(users: seq<User>, u: User, id: int)
    requires HasUser(users, id)
    ensures NameOf(users + [u], id) == NameOf(users, id)
  {
    assert (users + [u])[0] == users[0];
    if users[0].id != id {
      assert (users + [u])[1..] == users[1..] + [u];
      var i :| 0 <= i < |users| && users[i].id == id;
      assert users[1..][i - 1] == users[i];
      NameOfAppend(users[1..], u, id);
    }
  }

  /** The outer query is the same after appending a user, when every group's
      two ids already join a user. */
  lemma {:induction false} RowsAppendUser(users: seq<User>, u: User, cs: seq<Contribution>, ps: seq<(int, int)>)
    requires forall k | k in ps :: HasUser(users, k.0) && HasUser(users, k.1)
    ensures Rows(users + [u], cs, ps) == Rows(users, cs, ps)
  {
    if ps != [] {
      assert forall k | k in ps[1..] :: k in ps;
      RowsAppendUser(users, u, cs, ps[1..]);
      NameOfAppend(users, u, ps[0].0);
      NameOfAppend(users, u, ps[0].1);
    }
  }

  /** The worked example of one-directional aggregation: A pays 10.00 owed by B,
      B pays 5.00 owed by A; both rows come back, and nothing is netted. */
  lemma NettingExample()
    ensures var users := [User(1, "a@x", "h", "A"), User(2, "b@x", "h", "B")];
            var expenses := [Expense(1, 7, "", 1000, 1, "", ""), Expense(2, 7, "", 500, 2, "", "")];
            var splits := [Split(1, 1, 2, 1000, SplitStatus.Pending), Split(2, 2, 1, 500, SplitStatus.Pending)];
            && (exists r | r in GroupBalances(users, expenses, splits, 7) :: RowKey(r) == (1, 2) && r.balance == 1000)
            && (exists r | r in GroupBalances(users, expenses, splits, 7) :: RowKey(r) == (2, 1) && r.balance == 500)
  {
    var users := [User(1, "a@x", "h", "A"), User(2, "b@x", "h", "B")];
    var expenses := [Expense(1, 7, "", 1000, 1, "", ""), Expense(2, 7, "", 500, 2, "", "")];
    var splits := [Split(1, 1, 2, 1000, SplitStatus.Pending), Split(2, 2, 1, 500, SplitStatus.Pending)];
    assert users[0].id == 1 && users[1].id == 2;
    assert PaidInGroupBy(expenses, splits[0], 7, 1) by { assert expenses[0].paidBy == 1; }
    assert !PaidInGroupBy(expenses, splits[1], 7, 1);
    assert PaidInGroupBy(expenses, splits[1], 7, 2) by { assert expenses[1].paidBy == 2; }
    assert !PaidInGroupBy(expenses, splits[0], 7, 2);
    assert splits[..1] == [splits[0]];
    assert SplitTotal(expenses, splits, 7, 1, 2) == 1000;
    assert SplitTotal(expenses, splits, 7, 2, 1) == 500;
    NoNetting(users, expenses, splits, 7, 1, 2);
  }
}
