# Shared-expense ledger: a Dafny model

This project models the core of a group expense-splitting application. It has
two parts:

- **The backend ledger.** Six tables: users, groups, group memberships,
  expenses, expense splits and settlements. Four write routes change them:
  register, create group, record an expense with its splits, and record a
  settlement. The balance query aggregates a group's splits into
  (payer, ower) totals.
- **The client's group-creation form.** It adds, removes and edits member
  fields, then drops blank fields on submit.

The model has five modules.

- `Schema` (`schema.dfy`) holds the rows as value records and the store as a
  `Tables` value.
  - `DbError` is what a refused insert reports: a foreign key naming no row, an
    amount outside `DECIMAL(10,2)`, or a taken e-mail.
  - `Valid` is the integrity the database keeps: generated keys, every foreign
    key resolving, unique e-mails and amounts that fit.
- `Writes` (`writes.dfy`) gives each write route an *outcome function*. It maps
  the old tables to the route's result and the new tables. Lemmas prove that
  each outcome keeps `Valid`, and state how it changes the balances: register,
  create group and record settlement leave them unchanged, and an expense adds
  exactly its splits.
- `Ledger` (`ledger.dfy`) is the store itself: class `Store`, with one sequence
  field per table.
  - Its methods perform the inserts one at a time, as the routes do, including
    the loops over members and over splits and the transaction's rollback.
  - Each method is proved to end in exactly the state its outcome function
    describes.
- `Balances` (`balances.dfy`) is the balance query as functions.
  - The join of the group's expenses with their splits, grouped by
    (payer, ower) and summed.
  - The inner joins to users, and the `HAVING SUM(amount) > 0` filter.
  - The query is proved equal to a reference total written directly over the
    split table.
- `GroupForm` (`group_form.dfy`) holds the form's helpers as functions on
  `seq<string>`, with JavaScript's `trim` white-space set written out.

Amounts are integer cents. A `DECIMAL(10,2)` column then holds a value exactly
when its absolute value is below 10^10 cents.

The row at position *i* of a table has id *i + 1*. A rolled-back transaction
restores its tables, so the next insert reuses the freed ids.

When one insert breaks several constraints, the model reports the amount's
conversion first, then the foreign keys in the order the schema declares them.
This order is the model's choice. It decides only which error is reported, not
whether the insert fails.

## Model

| member | source | states |
|---|---|---|
| Ledger.Store.constructor | backend/server.js:18-83 | The tables start empty, and the empty store is valid |
| Writes.RegisterOutcome | backend/server.js:116-119 | The users insert fails exactly when the e-mail is taken, and then nothing changes; otherwise it appends exactly that user and no other table changes |
| Writes.RegisterPreservesValid | backend/server.js:116-119 | Registering keeps the store valid, and e-mails stay unique |
| Ledger.Store.Register | backend/server.js:116-119 | The store ends in the state and result of RegisterOutcome and stays valid |
| Writes.RegisterKeepsBalances | backend/server.js:116-119 | Registering leaves every group's balances unchanged: the new user is in no expense or split, and every existing id keeps its name |
| Writes.AcceptedPrefix | backend/server.js:165-170 | The number of listed members inserted before the first one that names no user |
| Writes.MemberRows | backend/server.js:158-170 | One membership row per user id, in order, with consecutive ids |
| Writes.GroupOutcome | backend/server.js:146-176 | Creating a group succeeds exactly when the caller and every listed member exist. An unknown caller changes nothing. Otherwise the group row, the creator's membership and every membership before the first failing one stay, and the error names that member. Only groups and memberships change |
| Writes.GroupPreservesValid | backend/server.js:150-170 | Creating a group keeps the store valid, even when it fails part-way |
| Writes.GroupCreationNotAtomic | backend/server.js:146-176 | With one unknown member, creation reports an error yet leaves one group and one membership behind |
| Writes.GroupKeepsBalances | backend/server.js:146-176 | Creating a group, even part-way, leaves every group's balances unchanged |
| Ledger.Store.CreateGroup | backend/server.js:146-176 | The inserts and the member loop end in exactly the state and result of GroupOutcome |
| Writes.ExpenseRowError | backend/server.js:187-191 | The expense insert is refused exactly when the amount does not fit, the group is unknown or the payer is unknown |
| Writes.SplitRowError | backend/server.js:196-202 | A split insert is refused exactly when its amount does not fit or its user is unknown |
| Writes.FirstSplitError | backend/server.js:196-202 | No error exactly when every split can be inserted; otherwise the error of the first split, in input order, that fails |
| Writes.FirstSplitErrorAt | backend/server.js:196-202 | When every split before i passes and split i fails, split i's error is the one reported |
| Writes.ExpenseRow | backend/server.js:187-191 | The expense row carries the caller as paid_by, together with the request's group and amount |
| Writes.SplitRows | backend/server.js:196-202 | Each split row carries the new expense's id, the given user and amount and status pending, in input order, with consecutive ids |
| Writes.ExpenseOutcome | backend/server.js:179-210 | All or nothing. Success exactly when the expense row and every split row can be inserted. On any failure every table is as before. On success the store gains exactly the expense row and the split rows, and nothing else changes |
| Writes.ExpensePreservesValid | backend/server.js:179-210 | Recording an expense keeps the store valid |
| Writes.AppendExpenseValid | backend/server.js:187-202 | Appending an expense with existing group and payer, and split rows that reference it and existing users, keeps the store valid |
| Writes.ExpenseAddsItsSplits | backend/server.js:179-204 | A committed expense adds, to the (p, o) total of a group, exactly the split amounts owed by o when the expense is in that group and paid by p. Every other total is unchanged |
| Writes.ExpenseKeepsOtherGroups | backend/server.js:179-204 | An expense in another group leaves a group's balances unchanged |
| Ledger.Store.CreateExpense | backend/server.js:179-210 | The transaction ends in exactly the state and result of ExpenseOutcome: a failing split rolls back the expense and every split inserted before it |
| Ledger.Store.InsertSplits | backend/server.js:196-202 | The split loop reports FirstSplitError, and leaves the other tables alone. On success it appends every split row. On failure it returns the index k of the first failing split, whose error it reports, and appends exactly the rows of the inputs before k |
| Writes.SettlementOutcome | backend/server.js:213-227 | Succeeds exactly when the amount fits and the payer, the receiver and the group exist. Otherwise nothing changes. On success exactly one settlement is added, with the given fields and status pending, and nothing else changes |
| Writes.SettlementPreservesValid | backend/server.js:213-227 | Recording a settlement keeps the store valid |
| Writes.SettlementKeepsBalances | backend/server.js:213-227 | A settlement changes no group's balances, since nothing reconciles it against them |
| Ledger.Store.CreateSettlement | backend/server.js:213-227 | The store ends in exactly the state and result of SettlementOutcome |
| Schema.Valid | backend/server.js:18-83 | No contract: the schema's constraints (generated keys, every FOREIGN KEY resolving, UNIQUE email, DECIMAL(10,2) amounts); kept by RegisterPreservesValid, GroupPreservesValid, ExpensePreservesValid and SettlementPreservesValid |
| Balances.Matches | backend/server.js:238-240 | No contract: the join rows of one split with the group's expenses; characterised by MatchesSum and MatchesInGroup |
| Balances.Joined | backend/server.js:238-240 | No contract: the join of the group's expenses with all splits; characterised by JoinedSum and JoinedInGroup |
| Balances.PairSum | backend/server.js:237-246 | No contract: the SUM of one (payer, ower) group; characterised by PairSumAppend, PairSumAbsent and JoinedSum |
| Balances.GroupBalances | backend/server.js:232-252 | No contract: the whole query; characterised by BalancesSound, BalancesComplete, NoNetting and OtherGroupsIgnored |
| Balances.Pairs | backend/server.js:241 | The groups of the join: distinct, and a pair is present exactly when some join row has it |
| Balances.NameOf | backend/server.js:248-249 | The join to users finds a name exactly when a user with that id exists, and the name is that user's |
| Balances.Rows | backend/server.js:243-251 | Every output row's key is one of the groups |
| Balances.RowsSound | backend/server.js:243-251 | Every output row names existing users, and carries its pair's positive sum |
| Balances.RowsComplete | backend/server.js:243-251 | Every group whose users both exist and whose sum is positive has a row |
| Balances.RowsDistinct | backend/server.js:250 | Distinct groups give rows with distinct (payer, ower) keys |
| Balances.PairSumAppend | backend/server.js:237 | The sum over two blocks of join rows is the sum of their sums |
| Balances.PairSumAbsent | backend/server.js:237 | A pair no join row has sums to zero |
| Balances.MatchesSum | backend/server.js:238-240 | With unique expense ids, a split contributes its amount to (p, o) exactly when its expense is in the group, paid by p, and o owes the split |
| Balances.JoinedSum | backend/server.js:233-241 | The aggregation equation: the join's (p, o) sum equals the reference total over the split table |
| Balances.BalancesSound | backend/server.js:230-252 | Every returned row names two users, carries the reference total for its pair, and is positive. No pair is returned twice |
| Balances.BalancesComplete | backend/server.js:230-252 | Every pair of existing users with a positive total in the group is returned, with that total |
| Balances.NoNetting | backend/server.js:241-250 | Opposite debts give two rows, each with its own total. With equal ids, this is the self-pair row |
| Balances.MatchesUsers | backend/server.js:238-240 | When every expense's payer and the split's user are users, so are the payer and ower of each of the split's join rows |
| Balances.JoinedUsers | backend/server.js:238-240 | When every expense's payer and every split's user are users, so are the payer and ower of every join row |
| Balances.NameOfAppend | backend/server.js:248-249 | Appending a user leaves the name an existing id joins to unchanged |
| Balances.RowsAppendUser | backend/server.js:243-251 | Appending a user leaves the outer query's rows unchanged when every group's ids already join a user |
| Balances.NettingExample | backend/server.js:241-250 | A pays 10.00 owed by B and B pays 5.00 owed by A: rows (A, B, 10.00) and (B, A, 5.00) are both returned |
| Balances.InGroup | backend/server.js:240 | An expense is kept exactly when it is one of the inputs and in the group; there are no more of them than before |
| Balances.MatchesInGroup | backend/server.js:238-240 | A split's join rows are the same over the group's own expenses |
| Balances.JoinedInGroup | backend/server.js:238-240 | The whole join is the same over the group's own expenses |
| Balances.OtherGroupsIgnored | backend/server.js:240 | Dropping every other group's expenses leaves the balances unchanged |
| Ledger.Store.GetBalances | backend/server.js:230-252 | Reads only: every row is sound, no pair repeats, and every positive pair of existing users is present |
| Writes.SplitTotalAppend | backend/server.js:237 | Reference totals add up over appended splits |
| Writes.OldSplitsIgnoreNewExpense | backend/server.js:239 | Splits of other expenses total the same once a new expense is added |
| Writes.NewSplitsTotal | backend/server.js:196-202 | A new expense's split rows total what the inputs give o when the expense is in the group and paid by p, and nothing otherwise |
| Writes.JoinedAppend | backend/server.js:239 | The join over appended splits is the concatenation of the joins |
| Writes.JoinedOtherGroup | backend/server.js:240 | An expense of another group adds no join rows |
| GroupForm.Initial | src/components/CreateGroupForm.js:5-8 | No contract: the initial state, no name and one empty field; used by FormNeverEmpty |
| GroupForm.AddMember | src/components/CreateGroupForm.js:10-15 | The old list with one empty field appended; the name is unchanged |
| GroupForm.KeepOthers | src/components/CreateGroupForm.js:18 | The filter on positions drops exactly the element at index when it is in range, and nothing otherwise |
| GroupForm.RemoveMember | src/components/CreateGroupForm.js:17-23 | For an index in range: one element fewer, those before it kept, those after it shifted down. Out of range: the list is unchanged. The name is unchanged |
| GroupForm.UpdateMember | src/components/CreateGroupForm.js:25-32 | For an index in range: same length, the new value at index, every other field unchanged. A negative index leaves the list unchanged. The length itself appends. The name is unchanged |
| GroupForm.RemoveUndoesAdd | src/components/CreateGroupForm.js:10-23 | Removing the field just added gives back the old form |
| GroupForm.UpdateRestores | src/components/CreateGroupForm.js:25-32 | Writing back a field's old value gives back the old form |
| GroupForm.IsSpace | src/components/CreateGroupForm.js:37 | No contract: the white-space and line-terminator characters that JavaScript's trim removes |
| GroupForm.TrimStart | src/components/CreateGroupForm.js:37 | No contract: drops leading white space; characterised by TrimStartDrops |
| GroupForm.TrimEnd | src/components/CreateGroupForm.js:37 | No contract: drops trailing white space; characterised by TrimEndDrops |
| GroupForm.Trim | src/components/CreateGroupForm.js:37 | No contract: JavaScript's trim; characterised by TrimEmptyIff |
| GroupForm.TrimStartDrops | src/components/CreateGroupForm.js:37 | The start trim drops exactly the leading white space |
| GroupForm.TrimEndDrops | src/components/CreateGroupForm.js:37 | The end trim drops exactly the trailing white space |
| GroupForm.TrimEmptyIff | src/components/CreateGroupForm.js:37 | A field trims to the empty string exactly when every character is white space |
| GroupForm.ValidMembers | src/components/CreateGroupForm.js:37 | The filtered list is no longer than the input |
| GroupForm.ValidMembersFilled | src/components/CreateGroupForm.js:37 | Every submitted member is non-blank |
| GroupForm.ValidMembersCount | src/components/CreateGroupForm.js:37 | Each non-blank entry is submitted exactly as often as it occurs, and no blank entry is submitted |
| GroupForm.ValidMembersSubsequence | src/components/CreateGroupForm.js:37 | The submitted members are a subsequence of the input, in its order |
| GroupForm.SubsequenceOfTail | src/components/CreateGroupForm.js:37 | A subsequence of a list's tail is a subsequence of the list |
| GroupForm.SubsequenceDropHead | src/components/CreateGroupForm.js:37 | Dropping the head of a subsequence leaves a subsequence |
| GroupForm.ValidMembersIdempotent | src/components/CreateGroupForm.js:37 | Filtering a second time changes nothing |
| GroupForm.HandleSubmit | src/components/CreateGroupForm.js:34-43 | The submission keeps the name, takes the id from the clock, and carries exactly the filtered list ValidMembers: only non-blank members, no more of them than the fields (their order and multiplicities by ValidMembersSubsequence and ValidMembersCount) |
| GroupForm.Offered | src/components/CreateGroupForm.js:60-86 | No contract: the rendered controls; a remove button per field only while there are two or more fields, an input per field, the add button and the name input |
| GroupForm.Step | src/components/CreateGroupForm.js:10-32 | No contract: one control's handler; characterised by SessionKeepsAMember and MemberActionsKeepName |
| GroupForm.SessionKeepsAMember | src/components/CreateGroupForm.js:60-86 | Through the form's own controls, a non-empty member list stays non-empty, because remove is offered only while there are two or more fields |
| GroupForm.FormNeverEmpty | src/components/CreateGroupForm.js:5-69 | From the initial form (one empty field), every session through the form's controls leaves at least one member field |
| GroupForm.MemberActionsKeepName | src/components/CreateGroupForm.js:10-32 | A session without name edits leaves the group name unchanged |

## Left out

- HTTP transport is not modelled: routing, CORS, JSON bodies and status codes. A route's reply is the `Result` its method returns.
- Authentication is not modelled: JWT signing and checking, and bcrypt. The caller's id is a trusted parameter, and `Register` takes the password hash as a parameter.
- The login route is not modelled. It is a point lookup by e-mail followed by a hash comparison, which is a foreign call.
- The database engine, its connection and its asynchronous start-up are not modelled. The tables are sequences, and the query is a function.
- Ledger.Store runs requests one at a time. In the source, every request shares one database connection and its transaction state. The all-or-nothing property of Writes.ExpenseOutcome and Ledger.Store.CreateExpense holds only for requests run one at a time. While an expense transaction is open, interleaving breaks it in three ways:
  - A second expense request's `BEGIN TRANSACTION` fails.
  - That request's `ROLLBACK` then aborts the first transaction.
  - Inserts made meanwhile by other routes are committed or rolled back with that transaction.
- Ledger.Store: the schema declares `INTEGER PRIMARY KEY` with no default, so the model assumes the engine generates the keys. The keys are *i + 1* for row *i*. A real sequence would not hand back ids freed by a rollback.
- Timestamps are not modelled: `created_at`, `join_date` and `settled_at`.
- Writes.ExpenseRowError assumes every `date` parses. In the source, a date that does not parse as a DATE fails the expense insert, and the transaction rolls back. The model keeps the date as an opaque string and never refuses it.
- `receipt_url` is not modelled. No route writes it.
- Missing JSON fields are not modelled. They would become SQL NULLs, or a JavaScript error when `members` is absent. Every input is a present value.
- Amounts arrive as exact cents. Rounding a value with more than two decimals into `DECIMAL(10,2)` is not modelled.
- Ledger.Store.GetBalances returns rows that carry the payer and ower ids beside the names and the balance. The query's response has only the names and the balance. The ids are the key it groups by.
- The order of the balance rows is not specified: the query has no `ORDER BY`. The model states the rows as a set with distinct keys.
- The code lacks two constraints, and the model follows it:
  - Split amounts are never checked against the expense amount.
  - Memberships have no UNIQUE(group_id, user_id).
- Writes.GroupOutcome takes the listed members as integer ids. The client form submits member names, and the group route inserts each listed entry directly as `user_id`, with no lookup. An entry that is not an integer fails its insert after the group row and the creator's membership are written. That leaves the same partial state as an absent id, but the error is a conversion error, not a foreign-key error. The model does not represent non-integer entries.
- GroupForm.UpdateMember requires `index <= |members|`. A JavaScript write beyond the length would leave holes in the array, which `seq` cannot hold. The form only passes in-range indices.
- The React rendering, the other client components and the `api.js` fetch wrappers are not modelled. They are UI and transport. Only the form's controls are kept, as the `Offered` actions of a session.
