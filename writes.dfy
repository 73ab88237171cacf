/** What each write of the ledger does to the tables: the outcome of
    registering a user, creating a group, recording an expense with its splits
    and recording a settlement, as functions from the old tables to a result
    and the new tables. The store's methods are proved to follow them. */
module Writes {
  import opened Schema
  import Balances

  datatype SplitInput = SplitInput(userId: int, amount: int)

  /** The body of POST /api/expenses; the payer is not part of it. */
  datatype ExpenseInput = ExpenseInput(
    groupId: int, description: string, amount: int, category: string, date: string, splits: seq<SplitInput>)

  // ---------------------------------------------------------------------------
  // Registering a user: one insert into users, refused when the e-mail is taken.

  function RegisterOutcome(t: Tables, email: string, passwordHash: string, name: string): (out: (Result<int>, Tables))
    ensures out.0.Err? <==> EmailTaken(t.users, email)
    ensures out.0.Err? ==> out.1 == t && out.0.error == UniqueViolation("users", "email")
    ensures out.0.Ok? ==>
      && out.1.users == t.users + [User(out.0.value, email, passwordHash, name)]
      && out.1.(users := t.users) == t
  {
    if EmailTaken(t.users, email) then (Err(UniqueViolation("users", "email")), t)
    else
      var id := |t.users| + 1;
      (Ok(id), t.(users := t.users + [User(id, email, passwordHash, name)]))
  }

  lemma RegisterPreservesValid(t: Tables, email: string, passwordHash: string, name: string)
    requires Valid(t)
    ensures Valid(RegisterOutcome(t, email, passwordHash, name).1)
  {
    var t' := RegisterOutcome(t, email, passwordHash, name).1;
    if t' != t {
      var u := User(|t.users| + 1, email, passwordHash, name);
      assert t'.users == t.users + [u];
      HasUserGrows(t.users, u);
      assert Keyed(t');
      assert EmailsUnique(t'.users) by {
        forall i, j | 0 <= i < j < |t'.users| ensures t'.users[i].email != t'.users[j].email {
          if j == |t.users| {
            assert t'.users[i] == t.users[i];
          }
        }
      }
      assert ReferencesResolve(t');
    }
  }

  /** Registering leaves every group's balances as they were: the new user is
      in no split or expense yet, and existing users keep their names. */
  lemma RegisterKeepsBalances(t: Tables, email: string, passwordHash: string, name: string, g: int)
    requires Valid(t)
    ensures var t' := RegisterOutcome(t, email, passwordHash, name).1;
      Balances.GroupBalances(t'.users, t'.expenses, t'.splits, g)
      == Balances.GroupBalances(t.users, t.expenses, t.splits, g)
  {
    var out := RegisterOutcome(t, email, passwordHash, name);
    if out.0.Ok? {
      var u := User(out.0.value, email, passwordHash, name);
      assert out.1 == t.(users := t.users + [u]);
      var cs := Balances.Joined(t.expenses, t.splits, g);
      Balances.JoinedUsers(t.users, t.expenses, t.splits, g);
      var ps := Balances.Pairs(cs);
      forall k | k in ps ensures HasUser(t.users, k.0) && HasUser(t.users, k.1) {
        var i :| 0 <= i < |cs| && Balances.Key(cs[i]) == k;
        assert cs[i] in cs;
      }
      Balances.RowsAppendUser(t.users, u, cs, ps);
    }
  }

  // ---------------------------------------------------------------------------
  // Creating a group: the group row, the creator's membership, then one
  // membership per listed id. There is no transaction: a failing member insert
  // leaves the rows written before it in place.

  /** How many of the listed member ids are inserted before the first one that
      names no user. */
  function AcceptedPrefix(users: seq<User>, ids: seq<int>): (k: nat)
    ensures k <= |ids|
    ensures forall j | 0 <= j < k :: HasUser(users, ids[j])
    ensures k < |ids| ==> !HasUser(users, ids[k])
  {
    if ids == [] then 0
    else if HasUser(users, ids[0]) then 1 + AcceptedPrefix(users, ids[1..])
    else 0
  }

  /** The membership rows for userIds in group groupId, with ids from firstId on. */
  function MemberRows(groupId: int, firstId: int, userIds: seq<int>): (rows: seq<Member>)
    ensures |rows| == |userIds|
    ensures forall i | 0 <= i < |rows| :: rows[i] == Member(firstId + i, groupId, userIds[i])
  {
    if userIds == [] then []
    else
      MemberRows(groupId, firstId, userIds[..|userIds| - 1])
      + [Member(firstId + |userIds| - 1, groupId, userIds[|userIds| - 1])]
  }

  function GroupOutcome(
    t: Tables, caller: int, name: string, description: string, category: string, memberIds: seq<int>)
    : (out: (Result<int>, Tables))
    ensures out.0.Ok? <==>
      HasUser(t.users, caller) && forall j | 0 <= j < |memberIds| :: HasUser(t.users, memberIds[j])
    ensures !HasUser(t.users, caller) ==> out == (Err(ForeignKeyViolation("groups", "created_by", caller)), t)
    ensures HasUser(t.users, caller) ==>
      var groupId := |t.groups| + 1;
      var k := AcceptedPrefix(t.users, memberIds);
      && out.1.groups == t.groups + [Group(groupId, name, description, category, caller)]
      && out.1.members == t.members + MemberRows(groupId, |t.members| + 1, [caller] + memberIds[..k])
      && (out.0.Ok? ==> out.0.value == groupId)
      && (out.0.Err? ==> out.0.error == ForeignKeyViolation("group_members", "user_id", memberIds[k]))
    ensures out.1.(groups := t.groups, members := t.members) == t
  {
    if !HasUser(t.users, caller) then (Err(ForeignKeyViolation("groups", "created_by", caller)), t)
    else
      var groupId := |t.groups| + 1;
      var k := AcceptedPrefix(t.users, memberIds);
      var t' := t.(groups := t.groups + [Group(groupId, name, description, category, caller)],
                   members := t.members + MemberRows(groupId, |t.members| + 1, [caller] + memberIds[..k]));
      if k == |memberIds| then (Ok(groupId), t')
      else (Err(ForeignKeyViolation("group_members", "user_id", memberIds[k])), t')
  }

  lemma GroupPreservesValid(
    t: Tables, caller: int, name: string, description: string, category: string, memberIds: seq<int>)
    requires Valid(t)
    ensures Valid(GroupOutcome(t, caller, name, description, category, memberIds).1)
  {
    var t' := GroupOutcome(t, caller, name, description, category, memberIds).1;
    if HasUser(t.users, caller) {
      var g := Group(|t.groups| + 1, name, description, category, caller);
      HasGroupGrows(t.groups, g);
      assert HasGroup(t'.groups, g.id) by {
        assert t'.groups[|t.groups|] == g;
      }
      var k := AcceptedPrefix(t.users, memberIds);
      var ids := [caller] + memberIds[..k];
      assert forall j | 0 <= j < |ids| :: HasUser(t.users, ids[j]) by {
        forall j | 0 <= j < |ids| ensures HasUser(t.users, ids[j]) {
          if j > 0 { assert ids[j] == memberIds[j - 1]; }
        }
      }
    }
  }

  /** The group route is not atomic: with one user and one unknown member id,
      creation fails yet the group row and the creator's membership remain. */
  lemma GroupCreationNotAtomic()
    ensures var t := Empty.(users := [User(1, "a@x", "h", "A")]);
            var out := GroupOutcome(t, 1, "Flat", "", "home", [2]);
            && out.0 == Err(ForeignKeyViolation("group_members", "user_id", 2))
            && |out.1.groups| == 1 && |out.1.members| == 1
  {
    var t := Empty.(users := [User(1, "a@x", "h", "A")]);
    assert HasUser(t.users, 1) by { assert t.users[0].id == 1; }
    assert !HasUser(t.users, 2);
    assert AcceptedPrefix(t.users, [2]) == 0;
  }

  /** Creating a group, even part-way, leaves every group's balances as they
      were: it writes no user, expense or split. */
  lemma GroupKeepsBalances(
    t: Tables, caller: int, name: string, description: string, category: string, memberIds: seq<int>, g: int)
    ensures var t' := GroupOutcome(t, caller, name, description, category, memberIds).1;
      Balances.GroupBalances(t'.users, t'.expenses, t'.splits, g)
      == Balances.GroupBalances(t.users, t.expenses, t.splits, g)
  {
    var t' := GroupOutcome(t, caller, name, description, category, memberIds).1;
    assert t'.(groups := t.groups, members := t.members) == t;
    assert t'.users == t.users && t'.expenses == t.expenses && t'.splits == t.splits;
  }

  // ---------------------------------------------------------------------------
  // Recording an expense: inside one transaction, the expense row (paid by the
  // caller) and then one split row per input pair; any failing insert rolls
  // every row of the transaction back.

  /** The constraint the expense row breaks, if any: the DECIMAL conversion of
      the amount, then the foreign keys in declaration order. */
  function ExpenseRowError(t: Tables, caller: int, req: ExpenseInput): (e: Option<DbError>)
    ensures e.None? <==> FitsDecimal(req.amount) && HasGroup(t.groups, req.groupId) && HasUser(t.users, caller)
  {
    if !FitsDecimal(req.amount) then Some(DecimalOutOfRange("expenses", "amount", req.amount))
    else if !HasGroup(t.groups, req.groupId) then Some(ForeignKeyViolation("expenses", "group_id", req.groupId))
    else if !HasUser(t.users, caller) then Some(ForeignKeyViolation("expenses", "paid_by", caller))
    else None
  }

  /** The constraint one split row breaks, if any. Its expense id always names
      the expense inserted just before it. */
  function SplitRowError(users: seq<User>, s: SplitInput): (e: Option<DbError>)
    ensures e.None? <==> FitsDecimal(s.amount) && HasUser(users, s.userId)
  {
    if !FitsDecimal(s.amount) then Some(DecimalOutOfRange("expense_splits", "amount", s.amount))
    else if !HasUser(users, s.userId) then Some(ForeignKeyViolation("expense_splits", "user_id", s.userId))
    else None
  }

  /** The error of the first split row that fails, in input order. */
  function FirstSplitError(users: seq<User>, ss: seq<SplitInput>): (e: Option<DbError>)
    ensures e.None? <==> forall i | 0 <= i < |ss| :: SplitRowError(users, ss[i]).None?
    ensures e.Some? ==>
      exists i | 0 <= i < |ss| ::
        && e == SplitRowError(users, ss[i])
        && forall j | 0 <= j < i :: SplitRowError(users, ss[j]).None?
  {
    if ss == [] then None
    else if SplitRowError(users, ss[0]).Some? then SplitRowError(users, ss[0])
    else
      var e := FirstSplitError(users, ss[1..]);
      assert forall i | 1 <= i < |ss| :: ss[1..][i - 1] == ss[i];
      e
  }

  /** The inserts run in input order: when every split before position i is
      accepted and split i is refused, its error is the one reported. */
  lemma {:induction false} FirstSplitErrorAt(users: seq<User>, ss: seq<SplitInput>, i: nat)
    requires i < |ss| && SplitRowError(users, ss[i]).Some?
    requires forall j | 0 <= j < i :: SplitRowError(users, ss[j]).None?
    ensures FirstSplitError(users, ss) == SplitRowError(users, ss[i])
  {
    if i > 0 {
      assert forall j | 0 <= j < i - 1 :: ss[1..][j] == ss[j + 1];
      FirstSplitErrorAt(users, ss[1..], i - 1);
    }
  }

  /** The expense row as the insert writes it: paid_by is the caller. */
  function ExpenseRow(id: int, caller: int, req: ExpenseInput): (e: Expense)
    ensures e.id == id && e.paidBy == caller && e.groupId == req.groupId && e.amount == req.amount
  {
    Expense(id, req.groupId, req.description, req.amount, caller, req.date, req.category)
  }

  /** The split rows of expense expenseId, ids from firstId on, in input order. */
  function SplitRows(expenseId: int, firstId: int, ss: seq<SplitInput>): (rows: seq<Split>)
    ensures |rows| == |ss|
    ensures forall i | 0 <= i < |rows| ::
      rows[i] == Split(firstId + i, expenseId, ss[i].userId, ss[i].amount, SplitStatus.Pending)
  {
    if ss == [] then []
    else
      var s := ss[|ss| - 1];
      SplitRows(expenseId, firstId, ss[..|ss| - 1])
      + [Split(firstId + |ss| - 1, expenseId, s.userId, s.amount, SplitStatus.Pending)]
  }

  /** Inserting one more split appends one more row. */
  lemma SplitRowsSnoc(expenseId: int, firstId: int, ss: seq<SplitInput>, i: nat)
    requires i < |ss|
    ensures SplitRows(expenseId, firstId, ss[..i + 1])
         == SplitRows(expenseId, firstId, ss[..i]) + [Split(firstId + i, expenseId, ss[i].userId, ss[i].amount, SplitStatus.Pending)]
  {
    assert ss[..i + 1][..i] == ss[..i];
  }

  function ExpenseOutcome(t: Tables, caller: int, req: ExpenseInput): (out: (Result<int>, Tables))
    ensures out.0.Ok? <==>
      && FitsDecimal(req.amount) && HasGroup(t.groups, req.groupId) && HasUser(t.users, caller)
      && forall i | 0 <= i < |req.splits| ::
           FitsDecimal(req.splits[i].amount) && HasUser(t.users, req.splits[i].userId)
    ensures out.0.Err? ==> out.1 == t
    ensures out.0.Ok? ==>
      && out.0.value == |t.expenses| + 1
      && out.1.expenses == t.expenses + [ExpenseRow(out.0.value, caller, req)]
      && out.1.splits == t.splits + SplitRows(out.0.value, |t.splits| + 1, req.splits)
      && out.1.(expenses := t.expenses, splits := t.splits) == t
  {
    var rowError := ExpenseRowError(t, caller, req);
    if rowError.Some? then (Err(rowError.value), t)
    else match FirstSplitError(t.users, req.splits)
      case Some(e) => (Err(e), t)
      case None =>
        var id := |t.expenses| + 1;
        (Ok(id), t.(expenses := t.expenses + [ExpenseRow(id, caller, req)],
                    splits := t.splits + SplitRows(id, |t.splits| + 1, req.splits)))
  }

  lemma ExpensePreservesValid(t: Tables, caller: int, req: ExpenseInput)
    requires Valid(t)
    ensures Valid(ExpenseOutcome(t, caller, req).1)
  {
    var out := ExpenseOutcome(t, caller, req);
    if out.0.Ok? {
      var e := ExpenseRow(out.0.value, caller, req);
      var rows := SplitRows(e.id, |t.splits| + 1, req.splits);
      assert out.1 == t.(expenses := t.expenses + [e], splits := t.splits + rows);
      AppendExpenseValid(t, e, rows);
    }
  }

  /** Appending an expense whose group and payer exist, with split rows that
      reference it and existing users, keeps the store valid. */
  lemma AppendExpenseValid(t: Tables, e: Expense, rows: seq<Split>)
    requires Valid(t)
    requires e.id == |t.expenses| + 1 && FitsDecimal(e.amount)
    requires HasGroup(t.groups, e.groupId) && HasUser(t.users, e.paidBy)
    requires forall i | 0 <= i < |rows| ::
      && rows[i].id == |t.splits| + 1 + i && rows[i].expenseId == e.id
      && HasUser(t.users, rows[i].userId) && FitsDecimal(rows[i].amount)
    ensures Valid(t.(expenses := t.expenses + [e], splits := t.splits + rows))
  {
    var t' := t.(expenses := t.expenses + [e], splits := t.splits + rows);
    HasExpenseGrows(t.expenses, e);
    assert HasExpense(t'.expenses, e.id) by {
      assert t'.expenses[|t.expenses|] == e;
    }
    forall i | 0 <= i < |t'.expenses|
      ensures t'.expenses[i].id == i + 1 && FitsDecimal(t'.expenses[i].amount)
      ensures HasGroup(t'.groups, t'.expenses[i].groupId) && HasUser(t'.users, t'.expenses[i].paidBy)
    {
      if i < |t.expenses| {
        assert t'.expenses[i] == t.expenses[i];
      }
    }
    forall i | 0 <= i < |t'.splits|
      ensures t'.splits[i].id == i + 1 && FitsDecimal(t'.splits[i].amount)
      ensures HasExpense(t'.expenses, t'.splits[i].expenseId) && HasUser(t'.users, t'.splits[i].userId)
    {
      if i < |t.splits| {
        assert t'.splits[i] == t.splits[i];
      } else {
        assert t'.splits[i] == rows[i - |t.splits|];
      }
    }
    assert Keyed(t');
    assert AmountsFit(t');
    assert ReferencesResolve(t');
  }

  /** Recording an expense of group g paid by p adds to the (p, o) total of g
      exactly the splits it gives o, and leaves every other total unchanged. */
  lemma ExpenseAddsItsSplits(t: Tables, caller: int, req: ExpenseInput, g: int, p: int, o: int)
    requires Valid(t)
    requires ExpenseOutcome(t, caller, req).0.Ok?
    ensures var t' := ExpenseOutcome(t, caller, req).1;
      Balances.SplitTotal(t'.expenses, t'.splits, g, p, o)
      == Balances.SplitTotal(t.expenses, t.splits, g, p, o)
         + (if req.groupId == g && caller == p then InputTotal(req.splits, o) else 0)
  {
    var id := |t.expenses| + 1;
    var e := ExpenseRow(id, caller, req);
    var expenses' := t.expenses + [e];
    var rows := SplitRows(id, |t.splits| + 1, req.splits);
    SplitTotalAppend(expenses', t.splits, rows, g, p, o);
    forall i | 0 <= i < |t.splits| ensures t.splits[i].expenseId != id {
      var s := t.splits[i];
      assert HasExpense(t.expenses, s.expenseId);
      var j :| 0 <= j < |t.expenses| && t.expenses[j].id == s.expenseId;
    }
    OldSplitsIgnoreNewExpense(t.expenses, e, t.splits, g, p, o);
    assert !HasExpense(t.expenses, id);
    NewSplitsTotal(t.expenses, e, req.splits, |t.splits| + 1, g, p, o);
  }

  /** The total of the input splits that o owes. */
  function InputTotal(ss: seq<SplitInput>, o: int): int
  {
    if ss == [] then 0
    else InputTotal(ss[..|ss| - 1], o) + (if ss[|ss| - 1].userId == o then ss[|ss| - 1].amount else 0)
  }

  /** An expense recorded in another group leaves the balances of g as they were. */
  lemma ExpenseKeepsOtherGroups(t: Tables, caller: int, req: ExpenseInput, g: int)
    requires Valid(t)
    requires ExpenseOutcome(t, caller, req).0.Ok? && req.groupId != g
    ensures var t' := ExpenseOutcome(t, caller, req).1;
      Balances.GroupBalances(t'.users, t'.expenses, t'.splits, g)
      == Balances.GroupBalances(t.users, t.expenses, t.splits, g)
  {
    var id := |t.expenses| + 1;
    var e := ExpenseRow(id, caller, req);
    var rows := SplitRows(id, |t.splits| + 1, req.splits);
    var t' := ExpenseOutcome(t, caller, req).1;
    assert t'.expenses == t.expenses + [e] && t'.splits == t.splits + rows && t'.users == t.users;
    JoinedAppend(t.expenses + [e], t.splits, rows, g);
    JoinedOtherGroup(t.expenses, e, t.splits, g);
    assert !HasExpense(t.expenses, id);
    forall i, j | 0 <= i < |rows| && 0 <= j < |t.expenses| + 1
      ensures (t.expenses + [e])[j].id != rows[i].expenseId || (t.expenses + [e])[j].groupId != g
    {
      if j < |t.expenses| {
        assert (t.expenses + [e])[j] == t.expenses[j];
      }
    }
    JoinedUnknownExpense(t.expenses + [e], rows, g);
    assert Balances.Joined(t'.expenses, t'.splits, g) == Balances.Joined(t.expenses, t.splits, g);
  }

  // ---------------------------------------------------------------------------
  // Recording a settlement: one insert, status 'pending', not checked against
  // any balance.

  function SettlementOutcome(t: Tables, payerId: int, receiverId: int, groupId: int, amount: int)
    : (out: (Result<int>, Tables))
    ensures out.0.Ok? <==>
      FitsDecimal(amount) && HasUser(t.users, payerId) && HasUser(t.users, receiverId) && HasGroup(t.groups, groupId)
    ensures out.0.Err? ==> out.1 == t
    ensures out.0.Ok? ==>
      && out.0.value == |t.settlements| + 1
      && out.1.settlements
         == t.settlements + [Settlement(out.0.value, payerId, receiverId, amount, groupId, SettlementStatus.Pending)]
      && out.1.(settlements := t.settlements) == t
  {
    if !FitsDecimal(amount) then (Err(DecimalOutOfRange("settlements", "amount", amount)), t)
    else if !HasUser(t.users, payerId) then (Err(ForeignKeyViolation("settlements", "payer_id", payerId)), t)
    else if !HasUser(t.users, receiverId) then (Err(ForeignKeyViolation("settlements", "receiver_id", receiverId)), t)
    else if !HasGroup(t.groups, groupId) then (Err(ForeignKeyViolation("settlements", "group_id", groupId)), t)
    else
      var id := |t.settlements| + 1;
      (Ok(id), t.(settlements := t.settlements + [Settlement(id, payerId, receiverId, amount, groupId, SettlementStatus.Pending)]))
  }

  lemma SettlementPreservesValid(t: Tables, payerId: int, receiverId: int, groupId: int, amount: int)
    requires Valid(t)
    ensures Valid(SettlementOutcome(t, payerId, receiverId, groupId, amount).1)
  {
  }

  /** A settlement is an independent fact: no group's balances change. */
  lemma SettlementKeepsBalances(t: Tables, payerId: int, receiverId: int, groupId: int, amount: int, g: int)
    ensures var t' := SettlementOutcome(t, payerId, receiverId, groupId, amount).1;
      Balances.GroupBalances(t'.users, t'.expenses, t'.splits, g)
      == Balances.GroupBalances(t.users, t.expenses, t.splits, g)
  {
  }

  // ---------------------------------------------------------------------------
  // Helper lemmas

  lemma HasUserGrows(users: seq<User>, u: User)
    ensures forall id | HasUser(users, id) :: HasUser(users + [u], id)
  {
    forall id | HasUser(users, id) ensures HasUser(users + [u], id) {
      var i :| 0 <= i < |users| && users[i].id == id;
      assert (users + [u])[i] == users[i];
    }
  }

  lemma HasGroupGrows(groups: seq<Group>, g: Group)
    ensures forall id | HasGroup(groups, id) :: HasGroup(groups + [g], id)
  {
    forall id | HasGroup(groups, id) ensures HasGroup(groups + [g], id) {
      var i :| 0 <= i < |groups| && groups[i].id == id;
      assert (groups + [g])[i] == groups[i];
    }
  }

  lemma HasExpenseGrows(expenses: seq<Expense>, e: Expense)
    ensures forall id | HasExpense(expenses, id) :: HasExpense(expenses + [e], id)
  {
    forall id | HasExpense(expenses, id) ensures HasExpense(expenses + [e], id) {
      var i :| 0 <= i < |expenses| && expenses[i].id == id;
      assert (expenses + [e])[i] == expenses[i];
    }
  }

  lemma {:induction false} SplitTotalAppend(
    expenses: seq<Expense>, a: seq<Split>, b: seq<Split>, g: int, p: int, o: int)
    ensures Balances.SplitTotal(expenses, a + b, g, p, o)
         == Balances.SplitTotal(expenses, a, g, p, o) + Balances.SplitTotal(expenses, b, g, p, o)
  {
    if b == [] {
      assert a + b == a;
    } else {
      assert (a + b)[..|a + b| - 1] == a + b[..|b| - 1];
      SplitTotalAppend(expenses, a, b[..|b| - 1], g, p, o);
    }
  }

  /** Splits that do not reference e total the same with or without e. */
  lemma {:induction false} OldSplitsIgnoreNewExpense(
    expenses: seq<Expense>, e: Expense, splits: seq<Split>, g: int, p: int, o: int)
    requires forall i | 0 <= i < |splits| :: splits[i].expenseId != e.id
    ensures Balances.SplitTotal(expenses + [e], splits, g, p, o) == Balances.SplitTotal(expenses, splits, g, p, o)
  {
    if splits != [] {
      var s := splits[|splits| - 1];
      OldSplitsIgnoreNewExpense(expenses, e, splits[..|splits| - 1], g, p, o);
      if Balances.PaidInGroupBy(expenses + [e], s, g, p) {
        var i :| 0 <= i < |expenses| + 1 && (expenses + [e])[i].id == s.expenseId
          && (expenses + [e])[i].groupId == g && (expenses + [e])[i].paidBy == p;
        assert i < |expenses|;
        assert Balances.PaidInGroupBy(expenses, s, g, p);
      }
      if Balances.PaidInGroupBy(expenses, s, g, p) {
        var i :| 0 <= i < |expenses| && expenses[i].id == s.expenseId
          && expenses[i].groupId == g && expenses[i].paidBy == p;
        assert (expenses + [e])[i] == expenses[i];
      }
    }
  }

  /** The new split rows, whose expense is e and no earlier expense, total the
      inputs o owes when e is in g and paid by p, and nothing otherwise. */
  lemma {:induction false} NewSplitsTotal(
    expenses: seq<Expense>, e: Expense, ss: seq<SplitInput>, firstId: int, g: int, p: int, o: int)
    requires !HasExpense(expenses, e.id)
    ensures Balances.SplitTotal(expenses + [e], SplitRows(e.id, firstId, ss), g, p, o)
         == if e.groupId == g && e.paidBy == p then InputTotal(ss, o) else 0
  {
    if ss != [] {
      var rows := SplitRows(e.id, firstId, ss);
      var s := rows[|rows| - 1];
      NewSplitsTotal(expenses, e, ss[..|ss| - 1], firstId, g, p, o);
      assert rows[..|rows| - 1] == SplitRows(e.id, firstId, ss[..|ss| - 1]);
      var all := expenses + [e];
      assert all[|expenses|] == e;
      if Balances.PaidInGroupBy(all, s, g, p) {
        var i :| 0 <= i < |all| && all[i].id == s.expenseId && all[i].groupId == g && all[i].paidBy == p;
        assert i == |expenses|;
      }
    }
  }

  lemma {:induction false} JoinedAppend(expenses: seq<Expense>, a: seq<Split>, b: seq<Split>, g: int)
    ensures Balances.Joined(expenses, a + b, g) == Balances.Joined(expenses, a, g) + Balances.Joined(expenses, b, g)
  {
    if b == [] {
      assert a + b == a;
    } else {
      var init, last := b[..|b| - 1], b[|b| - 1];
      assert (a + b)[..|a + b| - 1] == a + init;
      assert (a + b)[|a + b| - 1] == last;
      JoinedAppend(expenses, a, init, g);
      var ja, ji, m := Balances.Joined(expenses, a, g), Balances.Joined(expenses, init, g), Balances.Matches(expenses, last, g);
      assert Balances.Joined(expenses, a + b, g) == (ja + ji) + m;
      assert Balances.Joined(expenses, b, g) == ji + m;
      assert (ja + ji) + m == ja + (ji + m);
    }
  }

  /** An expense of another group adds no join rows. */
  lemma {:induction false} JoinedOtherGroup(expenses: seq<Expense>, e: Expense, splits: seq<Split>, g: int)
    requires e.groupId != g
    ensures Balances.Joined(expenses + [e], splits, g) == Balances.Joined(expenses, splits, g)
  {
    if splits != [] {
      JoinedOtherGroup(expenses, e, splits[..|splits| - 1], g);
      assert (expenses + [e])[..|expenses|] == expenses;
    }
  }

  /** Splits that join no expense of group g add no join rows. */
  lemma {:induction false} JoinedUnknownExpense(expenses: seq<Expense>, splits: seq<Split>, g: int)
    requires forall i, j | 0 <= i < |splits| && 0 <= j < |expenses| ::
      expenses[j].id != splits[i].expenseId || expenses[j].groupId != g
    ensures Balances.Joined(expenses, splits, g) == []
  {
    if splits != [] {
      JoinedUnknownExpense(expenses, splits[..|splits| - 1], g);
      MatchesNone(expenses, splits[|splits| - 1], g);
    }
  }

  lemma {:induction false} MatchesNone(expenses: seq<Expense>, s: Split, g: int)
    requires forall j | 0 <= j < |expenses| :: expenses[j].id != s.expenseId || expenses[j].groupId != g
    ensures Balances.Matches(expenses, s, g) == []
  {
    if expenses != [] {
      MatchesNone(expenses[..|expenses| - 1], s, g);
    }
  }
}
