/** The ledger store: six tables updated in place by the write routes, and the
    balance query that reads them. */
module Ledger {
  import opened Schema
  import Writes
  import Balances

  class Store {
    var users: seq<User>
    var groups: seq<Group>
    var members: seq<Member>
    var expenses: seq<Expense>
    var splits: seq<Split>
    var settlements: seq<Settlement>

    function Snapshot(): Tables
      reads this
    {
      Tables(users, groups, members, expenses, splits, settlements)
    }

    ghost predicate Valid()
      reads this
    {
      Schema.Valid(Snapshot())
    }

    constructor ()
      ensures Valid() && Snapshot() == Empty
    {
      users, groups, members := [], [], [];
      expenses, splits, settlements := [], [], [];
    }

    /** POST /api/auth/register, from the insert on: the hash is computed by the caller. */
    method Register(email: string, passwordHash: string, name: string) returns (r: Result<int>)
      requires Valid()
      modifies this
      ensures Valid()
      ensures (r, Snapshot()) == Writes.RegisterOutcome(old(Snapshot()), email, passwordHash, name)
    {
      Writes.RegisterPreservesValid(Snapshot(), email, passwordHash, name);
      if EmailTaken(users, email) {
        return Err(UniqueViolation("users", "email"));
      }
      var id := |users| + 1;
      users := users + [User(id, email, passwordHash, name)];
      r := Ok(id);
    }

    /** POST /api/groups: the group, the caller as its first member, then each
        listed member in order, every insert on its own. */
    method CreateGroup(caller: int, name: string, description: string, category: string, memberIds: seq<int>)
      returns (r: Result<int>)
      requires Valid()
      modifies this
      ensures Valid()
      ensures (r, Snapshot()) == Writes.GroupOutcome(old(Snapshot()), caller, name, description, category, memberIds)
    {
      Writes.GroupPreservesValid(Snapshot(), caller, name, description, category, memberIds);
      if !HasUser(users, caller) {
        return Err(ForeignKeyViolation("groups", "created_by", caller));
      }
      var groupId := |groups| + 1;
      groups := groups + [Group(groupId, name, description, category, caller)];
      members := members + [Member(|members| + 1, groupId, caller)];
      ghost var first := |old(members)| + 1;
      assert members == old(members) + Writes.MemberRows(groupId, first, [caller] + memberIds[..0]);
      var i := 0;
      while i < |memberIds|
        invariant 0 <= i <= |memberIds|
        invariant forall j | 0 <= j < i :: HasUser(users, memberIds[j])
        invariant members == old(members) + Writes.MemberRows(groupId, first, [caller] + memberIds[..i])
        invariant groups == old(groups) + [Group(groupId, name, description, category, caller)]
        invariant users == old(users) && expenses == old(expenses)
        invariant splits == old(splits) && settlements == old(settlements)
      {
        if !HasUser(users, memberIds[i]) {
          assert Writes.AcceptedPrefix(users, memberIds) == i;
          return Err(ForeignKeyViolation("group_members", "user_id", memberIds[i]));
        }
        ghost var ids := [caller] + memberIds[..i + 1];
        assert ids[..|ids| - 1] == [caller] + memberIds[..i];
        members := members + [Member(|members| + 1, groupId, memberIds[i])];
        i := i + 1;
      }
      assert Writes.AcceptedPrefix(users, memberIds) == |memberIds|;
      assert memberIds[..|memberIds|] == memberIds;
      r := Ok(groupId);
    }

    /** POST /api/expenses: BEGIN TRANSACTION, the expense paid by the caller,
        its splits, COMMIT; ROLLBACK on the first failing insert. */
    method CreateExpense(caller: int, req: Writes.ExpenseInput) returns (r: Result<int>)
      requires Valid()
      modifies this
      ensures Valid()
      ensures (r, Snapshot()) == Writes.ExpenseOutcome(old(Snapshot()), caller, req)
    {
      // BEGIN TRANSACTION: what ROLLBACK restores
      var savedExpenses, savedSplits := expenses, splits;
      var rowError := Writes.ExpenseRowError(Snapshot(), caller, req);
      if rowError.Some? {
        return Err(rowError.value);
      }
      var expenseId := |expenses| + 1;
      expenses := expenses + [Writes.ExpenseRow(expenseId, caller, req)];
      var splitError, _ := InsertSplits(expenseId, req.splits);
      if splitError.Some? {
        // ROLLBACK
        expenses, splits := savedExpenses, savedSplits;
        return Err(splitError.value);
      }
      // COMMIT
      r := Ok(expenseId);
      Writes.ExpensePreservesValid(old(Snapshot()), caller, req);
    }

    /** The loop of the expense route over its splits: one insert per pair, in
        input order, stopping at the first that fails. Rows inserted before a
        failure stay until the caller rolls back. */
    method InsertSplits(expenseId: int, ss: seq<Writes.SplitInput>) returns (err: Option<DbError>, ghost k: nat)
      modifies this
      ensures err == Writes.FirstSplitError(users, ss)
      ensures users == old(users) && groups == old(groups) && members == old(members)
      ensures expenses == old(expenses) && settlements == old(settlements)
      ensures err.None? ==> splits == old(splits) + Writes.SplitRows(expenseId, |old(splits)| + 1, ss)
      ensures err.Some? ==>
        && k < |ss|
        && err == Writes.SplitRowError(users, ss[k])
        && (forall j | 0 <= j < k :: Writes.SplitRowError(users, ss[j]).None?)
        && splits == old(splits) + Writes.SplitRows(expenseId, |old(splits)| + 1, ss[..k])
    {
      ghost var first := |splits| + 1;
      assert ss[..0] == [];
      var i := 0;
      while i < |ss|
        invariant 0 <= i <= |ss|
        invariant forall j | 0 <= j < i :: Writes.SplitRowError(users, ss[j]).None?
        invariant splits == old(splits) + Writes.SplitRows(expenseId, first, ss[..i])
        invariant users == old(users) && groups == old(groups) && members == old(members)
        invariant expenses == old(expenses) && settlements == old(settlements)
      {
        var s := ss[i];
        err := Writes.SplitRowError(users, s);
        if err.Some? {
          Writes.FirstSplitErrorAt(users, ss, i);
          k := i;
          return;
        }
        Writes.SplitRowsSnoc(expenseId, first, ss, i);
        splits := splits + [Split(|splits| + 1, expenseId, s.userId, s.amount, SplitStatus.Pending)];
        i := i + 1;
      }
      assert ss[..|ss|] == ss;
      err, k := None, |ss|;
    }

    /** POST /api/settlements: one insert with status 'pending'. */
    method CreateSettlement(payerId: int, receiverId: int, groupId: int, amount: int) returns (r: Result<int>)
      requires Valid()
      modifies this
      ensures Valid()
      ensures (r, Snapshot()) == Writes.SettlementOutcome(old(Snapshot()), payerId, receiverId, groupId, amount)
    {
      Writes.SettlementPreservesValid(Snapshot(), payerId, receiverId, groupId, amount);
      if !FitsDecimal(amount) {
        return Err(DecimalOutOfRange("settlements", "amount", amount));
      } else if !HasUser(users, payerId) {
        return Err(ForeignKeyViolation("settlements", "payer_id", payerId));
      } else if !HasUser(users, receiverId) {
        return Err(ForeignKeyViolation("settlements", "receiver_id", receiverId));
      } else if !HasGroup(groups, groupId) {
        return Err(ForeignKeyViolation("settlements", "group_id", groupId));
      }
      var id := |settlements| + 1;
      settlements := settlements + [Settlement(id, payerId, receiverId, amount, groupId, SettlementStatus.Pending)];
      r := Ok(id);
    }

    /** GET /api/groups/:groupId/balances. It changes nothing (no modifies
        clause); each row is a positive (payer, ower) total of the group. */
    method GetBalances(groupId: int) returns (rows: seq<Balances.BalanceRow>)
      requires Valid()
      ensures forall r | r in rows ::
        && Balances.NameOf(users, r.payerId) == Some(r.payer)
        && Balances.NameOf(users, r.owerId) == Some(r.ower)
        && r.balance == Balances.SplitTotal(expenses, splits, groupId, r.payerId, r.owerId)
        && r.balance > 0
      ensures Balances.DistinctKeys(rows)
      ensures forall p, o | HasUser(users, p) && HasUser(users, o)
                && Balances.SplitTotal(expenses, splits, groupId, p, o) > 0 ::
              exists r | r in rows :: Balances.RowKey(r) == (p, o)
    {
      rows := Balances.GroupBalances(users, expenses, splits, groupId);
      Balances.BalancesSound(users, expenses, splits, groupId);
      forall p, o | HasUser(users, p) && HasUser(users, o) && Balances.SplitTotal(expenses, splits, groupId, p, o) > 0
        ensures exists r | r in rows :: Balances.RowKey(r) == (p, o)
      {
        Balances.BalancesComplete(users, expenses, splits, groupId, p, o);
      }
    }
  }
}
