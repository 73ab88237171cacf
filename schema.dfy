/** The tables of the expense ledger, as value records, and the integrity the
    store keeps: generated keys, foreign keys and the unique e-mail column. */
module Schema {

  datatype Option<T> = None | Some(value: T)

  /** What a write reports: the generated id of its row, or the constraint
      that made an insert fail. */
  datatype Result<T> = Ok(value: T) | Err(error: DbError)

  datatype DbError =
    | ForeignKeyViolation(table: string, column: string, key: int)
    | DecimalOutOfRange(table: string, column: string, cents: int)
    | UniqueViolation(table: string, column: string)

  /** Amounts are DECIMAL(10,2): ten digits, two after the point. Held here as
      integer cents, so a stored amount has at most ten digits. */
  const DecimalBound: int := 10_000_000_000

  predicate FitsDecimal(cents: int) {
    -DecimalBound < cents < DecimalBound
  }

  datatype User = User(id: int, email: string, password: string, name: string)

  datatype Group = Group(id: int, name: string, description: string, category: string, createdBy: int)

  datatype Member = Member(id: int, groupId: int, userId: int)

  datatype Expense = Expense(
    id: int, groupId: int, description: string, amount: int, paidBy: int, date: string, category: string)

  datatype SplitStatus = Pending | Settled

  datatype Split = Split(id: int, expenseId: int, userId: int, amount: int, status: SplitStatus)

  datatype SettlementStatus = Pending | Confirmed

  datatype Settlement = Settlement(
    id: int, payerId: int, receiverId: int, amount: int, groupId: int, status: SettlementStatus)

  /** The whole store: one sequence of rows per table, in insertion order. */
  datatype Tables = Tables(
    users: seq<User>,
    groups: seq<Group>,
    members: seq<Member>,
    expenses: seq<Expense>,
    splits: seq<Split>,
    settlements: seq<Settlement>)

  const Empty: Tables := Tables([], [], [], [], [], [])

  // A foreign key is satisfied when the referenced table holds a row with that id.

  predicate HasUser(users: seq<User>, id: int) {
    exists i | 0 <= i < |users| :: users[i].id == id
  }

  predicate HasGroup(groups: seq<Group>, id: int) {
    exists i | 0 <= i < |groups| :: groups[i].id == id
  }

  predicate HasExpense(expenses: seq<Expense>, id: int) {
    exists i | 0 <= i < |expenses| :: expenses[i].id == id
  }

  predicate EmailTaken(users: seq<User>, email: string) {
    exists i | 0 <= i < |users| :: users[i].email == email
  }

  /** Generated keys: the row at position i of every table has id i + 1. */
  ghost predicate Keyed(t: Tables) {
    && (forall i | 0 <= i < |t.users| :: t.users[i].id == i + 1)
    && (forall i | 0 <= i < |t.groups| :: t.groups[i].id == i + 1)
    && (forall i | 0 <= i < |t.members| :: t.members[i].id == i + 1)
    && (forall i | 0 <= i < |t.expenses| :: t.expenses[i].id == i + 1)
    && (forall i | 0 <= i < |t.splits| :: t.splits[i].id == i + 1)
    && (forall i | 0 <= i < |t.settlements| :: t.settlements[i].id == i + 1)
  }

  /** Every FOREIGN KEY of the schema refers to a row that exists. */
  ghost predicate ReferencesResolve(t: Tables) {
    && (forall i | 0 <= i < |t.groups| :: HasUser(t.users, t.groups[i].createdBy))
    && (forall i | 0 <= i < |t.members| ::
          HasGroup(t.groups, t.members[i].groupId) && HasUser(t.users, t.members[i].userId))
    && (forall i | 0 <= i < |t.expenses| ::
          HasGroup(t.groups, t.expenses[i].groupId) && HasUser(t.users, t.expenses[i].paidBy))
    && (forall i | 0 <= i < |t.splits| ::
          HasExpense(t.expenses, t.splits[i].expenseId) && HasUser(t.users, t.splits[i].userId))
    && (forall i | 0 <= i < |t.settlements| ::
          && HasUser(t.users, t.settlements[i].payerId)
          && HasUser(t.users, t.settlements[i].receiverId)
          && HasGroup(t.groups, t.settlements[i].groupId))
  }

  /** The UNIQUE constraint on users.email. */
  ghost predicate EmailsUnique(users: seq<User>) {
    forall i, j | 0 <= i < j < |users| :: users[i].email != users[j].email
  }

  /** Every stored amount fits DECIMAL(10,2). */
  ghost predicate AmountsFit(t: Tables) {
    && (forall i | 0 <= i < |t.expenses| :: FitsDecimal(t.expenses[i].amount))
    && (forall i | 0 <= i < |t.splits| :: FitsDecimal(t.splits[i].amount))
    && (forall i | 0 <= i < |t.settlements| :: FitsDecimal(t.settlements[i].amount))
  }

  ghost predicate Valid(t: Tables) {
    Keyed(t) && ReferencesResolve(t) && EmailsUnique(t.users) && AmountsFit(t)
  }
}
