/** The member list of the group-creation form: adding, removing and editing
    member fields, and dropping blank fields on submit. Each helper builds a new
    form state from the old one and changes only the member list. */
module GroupForm {

  /** The form's state: the group name and one string per member field. */
  datatype GroupData = GroupData(name: string, members: seq<string>)

  /** What submitting hands on: the name, the non-blank members, and an id
      taken from the clock (passed in here). */
  datatype Submission = Submission(name: string, members: seq<string>, id: int)

  /** The form starts with no name and exactly one empty member field. */
  const Initial: GroupData := GroupData("", [""])

  function AddMember(d: GroupData): (r: GroupData)
    ensures r.name == d.name
    ensures |r.members| == |d.members| + 1
    ensures r.members[..|d.members|] == d.members && r.members[|d.members|] == ""
  {
    d.(members := d.members + [""])
  }

  /** Keeps the elements of s whose position, counted from offset, is not index. */
  function KeepOthers(s: seq<string>, index: int, offset: int): (r: seq<string>)
    ensures r == if offset <= index < offset + |s| then s[..index - offset] + s[index - offset + 1..] else s
  {
    if s == [] then []
    else
      var rest := KeepOthers(s[1..], index, offset + 1);
      if offset == index then
        assert rest == s[1..];
        rest
      else
        assert offset < index < offset + |s| ==> s[1..][..index - offset - 1] == s[1..index - offset];
        [s[0]] + rest
  }

  function RemoveMember(d: GroupData, index: int): (r: GroupData)
    ensures r.name == d.name
    ensures 0 <= index < |d.members| ==>
      && |r.members| == |d.members| - 1
      && (forall j | 0 <= j < index :: r.members[j] == d.members[j])
      && (forall j | index <= j < |r.members| :: r.members[j] == d.members[j + 1])
    ensures !(0 <= index < |d.members|) ==> r.members == d.members
  {
    d.(members := KeepOthers(d.members, index, 0))
  }

  /** Writes value at index of a copy of the list. A negative index writes no
      element; the length itself appends. */
  function UpdateMember(d: GroupData, index: int, value: string): (r: GroupData)
    requires index <= |d.members|
    ensures r.name == d.name
    ensures 0 <= index < |d.members| ==>
      && |r.members| == |d.members|
      && r.members[index] == value
      && forall j | 0 <= j < |d.members| && j != index :: r.members[j] == d.members[j]
    ensures index < 0 ==> r.members == d.members
    ensures index == |d.members| ==> r.members == d.members + [value]
  {
    if index < 0 then d
    else if index < |d.members| then d.(members := d.members[index := value])
    else d.(members := d.members + [value])
  }

  // ---------------------------------------------------------------------------
  // Blank fields: String.prototype.trim removes white space and line terminators.

  predicate IsSpace(c: char) {
    || c == '\t' || c == '\n' || c == '\r' || c == ' '
    || c as int == 0x0B || c as int == 0x0C || c as int == 0xA0 || c as int == 0x1680
    || 0x2000 <= c as int <= 0x200A
    || c as int == 0x2028 || c as int == 0x2029 || c as int == 0x202F || c as int == 0x205F
    || c as int == 0x3000 || c as int == 0xFEFF
  }

  function TrimStart(s: string): string {
    if s != [] && IsSpace(s[0]) then TrimStart(s[1..]) else s
  }

  /** TrimStart drops exactly the leading white space. */
  lemma {:induction false} TrimStartDrops(s: string)
    ensures |TrimStart(s)| <= |s| && TrimStart(s) == s[|s| - |TrimStart(s)|..]
    ensures forall i | 0 <= i < |s| - |TrimStart(s)| :: IsSpace(s[i])
    ensures TrimStart(s) != [] ==> !IsSpace(TrimStart(s)[0])
  {
    if s != [] && IsSpace(s[0]) {
      TrimStartDrops(s[1..]);
      assert s[1..][|s| - 1 - |TrimStart(s)|..] == s[|s| - |TrimStart(s)|..];
      forall i | 0 <= i < |s| - |TrimStart(s)| ensures IsSpace(s[i]) {
        if i > 0 {
          assert s[i] == s[1..][i - 1];
        }
      }
    }
  }

  function TrimEnd(s: string): string {
    if s != [] && IsSpace(s[|s| - 1]) then TrimEnd(s[..|s| - 1]) else s
  }

  /** TrimEnd drops exactly the trailing white space. */
  lemma {:induction false} TrimEndDrops(s: string)
    ensures |TrimEnd(s)| <= |s| && TrimEnd(s) == s[..|TrimEnd(s)|]
    ensures forall i | |TrimEnd(s)| <= i < |s| :: IsSpace(s[i])
    ensures TrimEnd(s) != [] ==> !IsSpace(TrimEnd(s)[|TrimEnd(s)| - 1])
  {
    if s != [] && IsSpace(s[|s| - 1]) {
      TrimEndDrops(s[..|s| - 1]);
      assert s[..|s| - 1][..|TrimEnd(s)|] == s[..|TrimEnd(s)|];
      forall i | |TrimEnd(s)| <= i < |s| ensures IsSpace(s[i]) {
        if i < |s| - 1 {
          assert s[i] == s[..|s| - 1][i];
        }
      }
    }
  }

  function Trim(s: string): string {
    TrimEnd(TrimStart(s))
  }

  /** A field trims to the empty string exactly when it is all white space. */
  lemma TrimEmptyIff(s: string)
    ensures Trim(s) == "" <==> forall i | 0 <= i < |s| :: IsSpace(s[i])
  {
    var t := TrimStart(s);
    TrimStartDrops(s);
    TrimEndDrops(t);
    if Trim(s) == "" {
      // a non-empty t starts with a non-space, which TrimEnd would keep
      assert t == [];
    } else {
      var r := Trim(s);
      assert !IsSpace(r[0]);
      assert r[0] == t[0] == s[|s| - |t|];
    }
  }

  /** `members.filter(member => member.trim() !== '')`. */
  function ValidMembers(members: seq<string>): (r: seq<string>)
    ensures |r| <= |members|
  {
    if members == [] then []
    else (if Trim(members[0]) != "" then [members[0]] else []) + ValidMembers(members[1..])
  }

  /** Every submitted member is non-blank. */
  lemma {:induction false} ValidMembersFilled(members: seq<string>)
    ensures forall i | 0 <= i < |ValidMembers(members)| :: Trim(ValidMembers(members)[i]) != ""
  {
    if members != [] {
      var head, rest := members[0], ValidMembers(members[1..]);
      var kept := if Trim(head) != "" then [head] else [];
      assert ValidMembers(members) == kept + rest;
      ValidMembersFilled(members[1..]);
      forall i | 0 <= i < |kept + rest| ensures Trim((kept + rest)[i]) != "" {
        if i >= |kept| {
          assert (kept + rest)[i] == rest[i - |kept|];
        }
      }
    }
  }

  /** Each non-blank entry is submitted as often as it occurs; no blank entry is. */
  lemma {:induction false} ValidMembersCount(members: seq<string>, m: string)
    ensures multiset(ValidMembers(members))[m] == if Trim(m) != "" then multiset(members)[m] else 0
  {
    if members != [] {
      var head, tail := members[0], members[1..];
      ValidMembersCount(tail, m);
      var kept := if Trim(head) != "" then [head] else [];
      assert ValidMembers(members) == kept + ValidMembers(tail);
      assert multiset(ValidMembers(members)) == multiset(kept) + multiset(ValidMembers(tail));
      assert members == [head] + tail;
      assert multiset(members) == multiset([head]) + multiset(tail);
      if head == m {
        assert Trim(head) == Trim(m);
      }
    }
  }

  /** a is a subsequence of b: b with some elements left out. */
  predicate IsSubsequence<T(==)>(a: seq<T>, b: seq<T>)
    decreases |b|
  {
    if a == [] then true
    else if b == [] then false
    else if a[0] == b[0] then IsSubsequence(a[1..], b[1..])
    else IsSubsequence(a, b[1..])
  }

  /** The submitted members keep the input's order. */
  lemma {:induction false} ValidMembersSubsequence(members: seq<string>)
    ensures IsSubsequence(ValidMembers(members), members)
  {
    if members != [] {
      ValidMembersSubsequence(members[1..]);
      var rest := ValidMembers(members[1..]);
      if Trim(members[0]) != "" {
        assert ([members[0]] + rest)[1..] == rest;
      } else {
        assert ValidMembers(members) == rest;
        SubsequenceOfTail(rest, members);
      }
    }
  }

  /** A subsequence of the tail of b is a subsequence of b. */
  lemma {:induction false} SubsequenceOfTail<T>(a: seq<T>, b: seq<T>)
    requires b != [] && IsSubsequence(a, b[1..])
    ensures IsSubsequence(a, b)
    decreases |b|, 0
  {
    if a != [] && a[0] == b[0] {
      SubsequenceDropHead(a, b[1..]);
    }
  }

  /** Dropping the first element of a subsequence keeps it a subsequence. */
  lemma {:induction false} SubsequenceDropHead<T>(a: seq<T>, b: seq<T>)
    requires a != [] && IsSubsequence(a, b)
    ensures IsSubsequence(a[1..], b)
    decreases |b|, 1
  {
    if a[0] != b[0] {
      SubsequenceDropHead(a, b[1..]);
    }
    SubsequenceOfTail(a[1..], b);
  }

  /** Filtering a second time changes nothing. */
  lemma {:induction false} ValidMembersIdempotent(members: seq<string>)
    ensures ValidMembers(ValidMembers(members)) == ValidMembers(members)
  {
    if members != [] {
      ValidMembersIdempotent(members[1..]);
      var rest := ValidMembers(members[1..]);
      if Trim(members[0]) != "" {
        assert ([members[0]] + rest)[1..] == rest;
        assert ValidMembers([members[0]] + rest) == [members[0]] + ValidMembers(rest);
      } else {
        assert ValidMembers(members) == rest;
      }
    }
  }

  /** handleSubmit: the name is kept and the blank member fields dropped. */
  function HandleSubmit(d: GroupData, now: int): (s: Submission)
    ensures s.name == d.name && s.id == now
    ensures s.members == ValidMembers(d.members)
    ensures |s.members| <= |d.members|
    ensures forall i | 0 <= i < |s.members| :: Trim(s.members[i]) != ""
  {
    ValidMembersFilled(d.members);
    Submission(d.name, ValidMembers(d.members), now)
  }

  // ---------------------------------------------------------------------------
  // Sessions of the rendered form.

  datatype Action = AddClicked | RemoveClicked(index: int) | MemberTyped(index: int, value: string) | NameTyped(value: string)

  /** What the rendered form offers: an input per member row, a remove button
      on each row only while there are at least two rows, and the add button. */
  predicate Offered(d: GroupData, a: Action) {
    match a
    case AddClicked => true
    case RemoveClicked(i) => |d.members| > 1 && 0 <= i < |d.members|
    case MemberTyped(i, _) => 0 <= i < |d.members|
    case NameTyped(_) => true
  }

  function Step(d: GroupData, a: Action): GroupData
    requires Offered(d, a)
  {
    match a
    case AddClicked => AddMember(d)
    case RemoveClicked(i) => RemoveMember(d, i)
    case MemberTyped(i, v) => UpdateMember(d, i, v)
    case NameTyped(v) => d.(name := v)
  }

  /** Every action of the sequence is offered by the state it is applied to. */
  predicate Session(d: GroupData, actions: seq<Action>)
    decreases |actions|
  {
    actions == [] || (Offered(d, actions[0]) && Session(Step(d, actions[0]), actions[1..]))
  }

  function Run(d: GroupData, actions: seq<Action>): GroupData
    requires Session(d, actions)
    decreases |actions|
  {
    if actions == [] then d else Run(Step(d, actions[0]), actions[1..])
  }

  /** Through the form's own controls the member list never becomes empty. */
  lemma {:induction false} SessionKeepsAMember(d: GroupData, actions: seq<Action>)
    requires |d.members| >= 1 && Session(d, actions)
    ensures |Run(d, actions).members| >= 1
    decreases |actions|
  {
    if actions != [] {
      SessionKeepsAMember(Step(d, actions[0]), actions[1..]);
    }
  }

  lemma FormNeverEmpty(actions: seq<Action>)
    requires Session(Initial, actions)
    ensures |Run(Initial, actions).members| >= 1
  {
    SessionKeepsAMember(Initial, actions);
  }

  /** Member actions never touch the group name. */
  lemma {:induction false} MemberActionsKeepName(d: GroupData, actions: seq<Action>)
    requires Session(d, actions)
    requires forall i | 0 <= i < |actions| :: !actions[i].NameTyped?
    ensures Run(d, actions).name == d.name
    decreases |actions|
  {
    if actions != [] {
      MemberActionsKeepName(Step(d, actions[0]), actions[1..]);
    }
  }

  /** Removing the field just added gives back the old state. */
  lemma RemoveUndoesAdd(d: GroupData)
    ensures RemoveMember(AddMember(d), |d.members|) == d
  {
    assert (d.members + [""])[..|d.members|] == d.members;
  }

  /** Writing back the old value of a field gives back the old state. */
  lemma UpdateRestores(d: GroupData, index: int, value: string)
    requires 0 <= index < |d.members|
    ensures UpdateMember(UpdateMember(d, index, value), index, d.members[index]) == d
  {
  }
}
