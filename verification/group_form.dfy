/**
 * The state of the "Create New Group" dialog and its handlers: the field
 * setters, `updateMember` with its error clearing, `validateForm` and its
 * field-keyed error map, the `isFormValid` predicate that enables the Save
 * button, and `handleSave`, which submits the named members and resets the form.
 */
module GroupForm {
  import opened Optional
  import opened JsText
  import opened Roster

  /** The text of an `<input type="number">` as `Number(...)` reads it: empty, or a number. */
  datatype NumberInput = Blank | Num(value: real)

  /** The dialog's state: the four group fields, the roster and the error map. */
  datatype Form = Form(
    groupName: string,
    amount: NumberInput,
    frequency: string,
    cycles: NumberInput,
    members: seq<Member>,
    errors: Errors)

  /** The state the dialog opens with and returns to after a save. */
  const InitialForm: Form := Form("", Blank, "", Blank, InitialRoster, map[])

  /** A key of the error map. The source keys a plain object by strings;
      `Text` gives that string, and `KeyTextInjective` shows no two keys share one. */
  datatype ErrorKey =
    | GroupNameKey
    | AmountKey
    | FrequencyKey
    | CyclesKey
    | MemberKey(id: string, field: Field)
  {
    /** The property name in the source's error object. */
    function Text(): (t: string)
      ensures |t| > 0
      ensures MemberKey? <==> t[0] == 'm'
    {
      match this
      case GroupNameKey => "groupName"
      case AmountKey => "contributionAmount"
      case FrequencyKey => "frequency"
      case CyclesKey => "totalCycles"
      case MemberKey(id, f) => "member-" + id + "-" + f.Key()
    }

    /** The message `validateForm` stores under this key. */
    function Message(): (m: string)
      ensures m != ""
    {
      match this
      case GroupNameKey => "Group name is required"
      case AmountKey => "Valid contribution amount is required"
      case FrequencyKey => "Frequency is required"
      case CyclesKey => "Valid number of cycles is required"
      case MemberKey(_, f) => if f == Name then "Member name is required" else "Contact info is required"
    }
  }

  type Errors = map<ErrorKey, string>

  /** Distinct keys have distinct property names: the first character separates
      the group-level keys from each other and from member keys; for member keys
      the last character tells the field apart and the middle the identifier. */
  lemma KeyTextInjective(k1: ErrorKey, k2: ErrorKey)
    requires k1.Text() == k2.Text()
    ensures k1 == k2
  {
    var t := k1.Text();
    if k1.MemberKey? && k2.MemberKey? {
      var f1 := k1.field.Key();
      var f2 := k2.field.Key();
      assert t[|t| - 1] == f1[|f1| - 1] == f2[|f2| - 1];
      assert k1.field == k2.field;
      assert k1.id == t[7..7 + |k1.id|] == k2.id;
    } else if !k1.MemberKey? && !k2.MemberKey? {
      assert k1.Text()[0] == k2.Text()[0];
    }
  }

  /** A number field passes `!value || Number(value) <= 0` only when it holds a positive number. */
  predicate IsPositive(n: NumberInput)
  {
    n.Num? && n.value > 0.0
  }

  /** Some member with identifier `id` has a blank field `f`. */
  predicate HasBlankField(ms: seq<Member>, id: string, f: Field)
  {
    exists i :: 0 <= i < |ms| && ms[i].id == id && IsBlank(FieldOf(ms[i], f))
  }

  /** The four group-level keys. */
  const FormKeys: set<ErrorKey> := {GroupNameKey, AmountKey, FrequencyKey, CyclesKey}

  /** The test `validateForm` applies to the group-level field behind key `k`. */
  predicate FieldFails(f: Form, k: ErrorKey)
  {
    match k
    case GroupNameKey => Trim(f.groupName) == []
    case AmountKey => !IsPositive(f.amount)
    case FrequencyKey => f.frequency == ""
    case CyclesKey => !IsPositive(f.cycles)
    case MemberKey(_, _) => false
  }

  /** The entries the four `if` statements of `validateForm` add for the group-level fields. */
  function FormLevelErrors(f: Form): (e: Errors)
    ensures GroupNameKey in e <==> IsBlank(f.groupName)
    ensures AmountKey in e <==> !IsPositive(f.amount)
    ensures FrequencyKey in e <==> f.frequency == ""
    ensures CyclesKey in e <==> !IsPositive(f.cycles)
    ensures forall k :: k in e ==> !k.MemberKey? && e[k] == k.Message()
  {
    map k | k in FormKeys && FieldFails(f, k) :: k.Message()
  }

  /** The entries one iteration of the `members.forEach` loop adds for member `m`. */
  function MemberEntries(m: Member): (e: Errors)
    ensures forall k: ErrorKey :: k in e <==> k.MemberKey? && k.id == m.id && IsBlank(FieldOf(m, k.field))
    ensures forall k :: k in e ==> e[k] == k.Message()
  {
    var keys := {MemberKey(m.id, Name), MemberKey(m.id, Contact)};
    assert forall k: ErrorKey :: k in keys <==> k.MemberKey? && k.id == m.id by {
      forall k: ErrorKey | k.MemberKey? && k.id == m.id ensures k in keys {
        if k.field == Name { } else { }
      }
    }
    map k | k in keys && Trim(FieldOf(m, k.field)) == [] :: k.Message()
  }

  /** The entries the whole `members.forEach` loop of `validateForm` adds, in roster order. */
  function MemberErrors(ms: seq<Member>): (e: Errors)
    ensures forall k: ErrorKey :: k.MemberKey? ==> (k in e <==> HasBlankField(ms, k.id, k.field))
    ensures forall k :: k in e ==> k.MemberKey? && e[k] == k.Message()
  {
    if ms == [] then map[]
    else
      var init := ms[..|ms| - 1];
      var m := ms[|ms| - 1];
      assert init + [m] == ms;
      HasBlankFieldSnoc(init, m);
      MemberErrors(init) + MemberEntries(m)
  }

  /** A member appended to the roster adds its own blank fields and nothing else. */
  lemma HasBlankFieldSnoc(ms: seq<Member>, m: Member)
    ensures forall id, f :: HasBlankField(ms + [m], id, f) <==>
      HasBlankField(ms, id, f) || (m.id == id && IsBlank(FieldOf(m, f)))
  {
    var all := ms + [m];
    forall id, f | HasBlankField(all, id, f)
      ensures HasBlankField(ms, id, f) || (m.id == id && IsBlank(FieldOf(m, f)))
    {
      var i :| 0 <= i < |all| && all[i].id == id && IsBlank(FieldOf(all[i], f));
      if i < |ms| { assert all[i] == ms[i]; }
    }
    forall id, f | HasBlankField(ms, id, f) ensures HasBlankField(all, id, f)
    {
      var i :| 0 <= i < |ms| && ms[i].id == id && IsBlank(FieldOf(ms[i], f));
      assert all[i] == ms[i];
    }
    forall id, f | m.id == id && IsBlank(FieldOf(m, f)) ensures HasBlankField(all, id, f)
    {
      assert all[|ms|] == m;
    }
  }

  /** The outcome of `validateForm`: the new error map and the boolean it returns. */
  datatype Validation = Validation(errors: Errors, ok: bool)

  /** Everything `validateForm` demands, stated field by field. */
  predicate Submittable(f: Form)
  {
    && !IsBlank(f.groupName)
    && IsPositive(f.amount)
    && f.frequency != ""
    && IsPositive(f.cycles)
    && forall i :: 0 <= i < |f.members| ==>
         !IsBlank(f.members[i].name) && !IsBlank(f.members[i].contact)
  }

  /** `validateForm`: one error key per failing field, and success exactly when there are none. */
  function Validate(f: Form): (v: Validation)
    ensures v.ok <==> v.errors == map[]
    ensures v.ok <==> Submittable(f)
    ensures GroupNameKey in v.errors <==> IsBlank(f.groupName)
    ensures AmountKey in v.errors <==> !IsPositive(f.amount)
    ensures FrequencyKey in v.errors <==> f.frequency == ""
    ensures CyclesKey in v.errors <==> !IsPositive(f.cycles)
    ensures forall k: ErrorKey :: k.MemberKey? ==> (k in v.errors <==> HasBlankField(f.members, k.id, k.field))
    ensures forall k :: k in v.errors ==> v.errors[k] == k.Message()
  {
    var errors := FormLevelErrors(f) + MemberErrors(f.members);
    ValidateFacts(f);
    ValidateKeys(f);
    Validation(errors, |errors| == 0)
  }

  /** Which keys the merged error map holds, and the message under each. */
  lemma ValidateKeys(f: Form)
    ensures var errors := FormLevelErrors(f) + MemberErrors(f.members);
      && (GroupNameKey in errors <==> IsBlank(f.groupName))
      && (AmountKey in errors <==> !IsPositive(f.amount))
      && (FrequencyKey in errors <==> f.frequency == "")
      && (CyclesKey in errors <==> !IsPositive(f.cycles))
      && (forall k: ErrorKey :: k.MemberKey? ==> (k in errors <==> HasBlankField(f.members, k.id, k.field)))
      && (forall k :: k in errors ==> errors[k] == k.Message())
  {
    var fe := FormLevelErrors(f);
    var me := MemberErrors(f.members);
    forall k | k in fe + me ensures (fe + me)[k] == k.Message() {
      if k in me { } else { }
    }
  }

  /** The facts behind `Validate`'s contract about the merged error map. */
  lemma ValidateFacts(f: Form)
    ensures var errors := FormLevelErrors(f) + MemberErrors(f.members);
      && ((|errors| == 0) <==> errors == map[])
      && ((|errors| == 0) <==> Submittable(f))
  {
    var fe := FormLevelErrors(f);
    var me := MemberErrors(f.members);
    EmptyMapSize(fe + me);
    assert fe + me == map[] <==> fe == map[] && me == map[] by {
      if fe + me == map[] {
        assert forall k :: k !in fe && k !in me by {
          forall k ensures k !in fe && k !in me { assert k !in fe + me; }
        }
      }
    }
    FormLevelErrorsEmpty(f);
    MemberErrorsEmpty(f.members);
  }

  /** No group-level entry exactly when all four group-level fields pass. */
  lemma FormLevelErrorsEmpty(f: Form)
    ensures FormLevelErrors(f) == map[] <==>
      !IsBlank(f.groupName) && IsPositive(f.amount) && f.frequency != "" && IsPositive(f.cycles)
  {
    var fe := FormLevelErrors(f);
    if fe != map[] {
      var k :| k in fe;
      match k {
        case GroupNameKey =>
        case AmountKey =>
        case FrequencyKey =>
        case CyclesKey =>
        case MemberKey(_, _) =>
      }
    }
  }

  /** No member entry exactly when every member has a name and a contact. */
  lemma MemberErrorsEmpty(ms: seq<Member>)
    ensures MemberErrors(ms) == map[] <==>
      forall i :: 0 <= i < |ms| ==> !IsBlank(ms[i].name) && !IsBlank(ms[i].contact)
  {
    var me := MemberErrors(ms);
    if me != map[] {
      var k :| k in me;
      var i :| 0 <= i < |ms| && ms[i].id == k.id && IsBlank(FieldOf(ms[i], k.field));
    } else {
      forall i | 0 <= i < |ms| ensures !IsBlank(ms[i].name) && !IsBlank(ms[i].contact) {
        assert MemberKey(ms[i].id, Name) !in me;
        assert MemberKey(ms[i].id, Contact) !in me;
        assert !HasBlankField(ms, ms[i].id, Name);
        assert !HasBlankField(ms, ms[i].id, Contact);
      }
    }
  }

  /** A map has no keys exactly when its size is zero. */
  lemma EmptyMapSize(e: Errors)
    ensures |e| == 0 <==> e == map[]
  {
    if e != map[] {
      var k :| k in e;
      assert k in e.Keys;
    }
  }

  /** `isFormValid`, the condition that enables the Save button: the four fields
      are non-empty strings (untrimmed), some member has a non-blank name, and the
      error map is empty. */
  function IsFormValid(f: Form): (r: bool)
    ensures r ==> f.errors == map[] && |f.members| > 0
    ensures r ==> exists i :: 0 <= i < |f.members| && !IsBlank(f.members[i].name)
    ensures r ==> f.groupName != "" && !f.amount.Blank? && !f.cycles.Blank? && f.frequency != ""
  {
    && f.groupName != ""
    && !f.amount.Blank?
    && f.frequency != ""
    && !f.cycles.Blank?
    && (exists i :: 0 <= i < |f.members| && Trim(f.members[i].name) != "")
    && |f.errors| == 0
  }

  /** A form that passes `validateForm` and shows no errors has its Save button enabled. */
  lemma ValidFormEnablesSave(f: Form)
    requires Submittable(f) && |f.members| > 0 && f.errors == map[]
    ensures IsFormValid(f)
  {
    assert Trim(f.members[0].name) != "";
  }

  /** The Save button is weaker than validation: it is enabled for a form whose
      group name is a single space, whose amount is zero and whose member has no contact. */
  lemma SaveEnabledButInvalid()
    ensures IsFormValid(Form(" ", Num(0.0), "weekly", Num(3.0), [Member("1", 1, "Ada", "")], map[]))
    ensures !Validate(Form(" ", Num(0.0), "weekly", Num(3.0), [Member("1", 1, "Ada", "")], map[])).ok
  {
    var f := Form(" ", Num(0.0), "weekly", Num(3.0), [Member("1", 1, "Ada", "")], map[]);
    assert !IsSpace(f.members[0].name[0]);
    assert Trim(f.members[0].name) != "";
    assert IsBlank(f.groupName);
  }

  /** `members.filter(m => m.name.trim() !== "")`. */
  function NamedMembers(ms: seq<Member>): (r: seq<Member>)
    ensures |r| <= |ms|
    ensures forall m :: m in r <==> m in ms && !IsBlank(m.name)
    ensures (forall i :: 0 <= i < |ms| ==> !IsBlank(ms[i].name)) ==> r == ms
  {
    if ms == [] then []
    else
      var rest := NamedMembers(ms[1..]);
      var keep := Trim(ms[0].name) != "";
      NamedMembersStep(ms, rest, keep);
      if keep then [ms[0]] + rest else rest
  }

  /** One step of the filter: keeping or dropping the first member preserves what
      the filter of the rest promises. */
  lemma NamedMembersStep(ms: seq<Member>, rest: seq<Member>, keep: bool)
    requires ms != [] && (keep <==> !IsBlank(ms[0].name))
    requires |rest| <= |ms| - 1
    requires forall m :: m in rest <==> m in ms[1..] && !IsBlank(m.name)
    requires (forall i :: 0 <= i < |ms| - 1 ==> !IsBlank(ms[1..][i].name)) ==> rest == ms[1..]
    ensures var r := if keep then [ms[0]] + rest else rest;
      && |r| <= |ms|
      && (forall m :: m in r <==> m in ms && !IsBlank(m.name))
      && ((forall i :: 0 <= i < |ms| ==> !IsBlank(ms[i].name)) ==> r == ms)
  {
    var r := if keep then [ms[0]] + rest else rest;
    assert forall m :: m in r <==> m in ms && !IsBlank(m.name) by {
      assert ms == [ms[0]] + ms[1..];
      assert forall m :: m in ms <==> m == ms[0] || m in ms[1..];
    }
    assert (forall i :: 0 <= i < |ms| ==> !IsBlank(ms[i].name)) ==> r == ms by {
      if forall i :: 0 <= i < |ms| ==> !IsBlank(ms[i].name) {
        assert !IsBlank(ms[0].name);
        forall i | 0 <= i < |ms| - 1 ensures !IsBlank(ms[1..][i].name) {
          assert ms[1..][i] == ms[i + 1];
        }
        assert ms == [ms[0]] + ms[1..];
      }
    }
  }

  /** The filter keeps a single member exactly when its name is not blank. */
  lemma NamedMembersSingle(m: Member)
    ensures NamedMembers([m]) == if IsBlank(m.name) then [] else [m]
  {
    assert [m][1..] == [];
  }

  /** The filter works piece by piece, so the kept members stay in roster order
      and each appears as often as in the roster. */
  lemma {:induction false} NamedMembersAppend(a: seq<Member>, b: seq<Member>)
    ensures NamedMembers(a + b) == NamedMembers(a) + NamedMembers(b)
    decreases |a|
  {
    if a == [] {
      assert a + b == b;
    } else {
      assert (a + b)[0] == a[0];
      assert (a + b)[1..] == a[1..] + b;
      NamedMembersAppend(a[1..], b);
    }
  }

  /** The record `handleSave` hands on (to the console, in the source). */
  datatype Submission = Submission(
    groupName: string,
    amount: NumberInput,
    frequency: string,
    cycles: NumberInput,
    members: seq<Member>)

  /** The dialog state after a save attempt, and what was submitted, if anything. */
  datatype SaveResult = SaveResult(form: Form, submitted: Option<Submission>)

  /** `handleSave`: validate; on failure keep the form and show the new errors; on
      success submit the members with a non-blank name and reset the form. As
      validation already demands a name of every member, the filter drops none. */
  function Save(f: Form): (r: SaveResult)
    ensures r.submitted.Some? <==> Submittable(f)
    ensures r.submitted.None? ==>
      r.form == f.(errors := Validate(f).errors) && r.form.errors != map[]
    ensures r.submitted.Some? ==> r.form == InitialForm
    ensures r.submitted.Some? ==>
      r.submitted.value == Submission(f.groupName, f.amount, f.frequency, f.cycles, f.members)
  {
    var v := Validate(f);
    if !v.ok then SaveResult(f.(errors := v.errors), None)
    else
      var sent := Submission(f.groupName, f.amount, f.frequency, f.cycles, NamedMembers(f.members));
      SaveResult(InitialForm, Some(sent))
  }

  /** The copy-and-delete of the handlers: drop `key` when its message is truthy. */
  function ClearError(errors: Errors, key: ErrorKey): (r: Errors)
    ensures forall k :: k != key ==> (k in r <==> k in errors)
    ensures forall k :: k in r ==> k in errors && r[k] == errors[k]
    ensures key in r <==> key in errors && errors[key] == ""
  {
    if key in errors && errors[key] != "" then errors - {key} else errors
  }

  /** Every stored message is non-empty, so a present key is also a truthy one. */
  predicate MessagesNonEmpty(e: Errors)
  {
    forall k :: k in e ==> e[k] != ""
  }

  /** `updateMember`: edit the roster and clear exactly that field's error key. */
  function TypeInMember(f: Form, id: string, fl: Field, v: string): (r: Form)
    ensures r.members == UpdateMember(f.members, id, fl, v)
    ensures MessagesNonEmpty(f.errors) ==> MemberKey(id, fl) !in r.errors
    ensures forall k :: k != MemberKey(id, fl) ==> (k in r.errors <==> k in f.errors)
    ensures forall k :: k in r.errors ==> k in f.errors && r.errors[k] == f.errors[k]
    ensures r.groupName == f.groupName && r.amount == f.amount
    ensures r.frequency == f.frequency && r.cycles == f.cycles
  {
    f.(members := UpdateMember(f.members, id, fl, v), errors := ClearError(f.errors, MemberKey(id, fl)))
  }

  /** The `onChange` handlers of the four group-level inputs. */
  datatype FieldEdit =
    | SetGroupName(name: string)
    | SetAmount(amount: NumberInput)
    | SetFrequency(frequency: string)
    | SetCycles(cycles: NumberInput)
  {
    /** The error key the handler clears. */
    function Key(): (k: ErrorKey)
      ensures !k.MemberKey?
    {
      match this
      case SetGroupName(_) => GroupNameKey
      case SetAmount(_) => AmountKey
      case SetFrequency(_) => FrequencyKey
      case SetCycles(_) => CyclesKey
    }
  }

  /** One group-level edit: set the field and clear its error key; the roster is untouched. */
  function EditField(f: Form, e: FieldEdit): (r: Form)
    ensures r.members == f.members
    ensures MessagesNonEmpty(f.errors) ==> e.Key() !in r.errors
    ensures forall k :: k != e.Key() ==> (k in r.errors <==> k in f.errors)
    ensures forall k :: k in r.errors ==> k in f.errors && r.errors[k] == f.errors[k]
    ensures e.SetGroupName? ==> r == f.(groupName := e.name, errors := r.errors)
    ensures e.SetAmount? ==> r == f.(amount := e.amount, errors := r.errors)
    ensures e.SetFrequency? ==> r == f.(frequency := e.frequency, errors := r.errors)
    ensures e.SetCycles? ==> r == f.(cycles := e.cycles, errors := r.errors)
  {
    var errors := ClearError(f.errors, e.Key());
    match e
    case SetGroupName(s) => f.(groupName := s, errors := errors)
    case SetAmount(n) => f.(amount := n, errors := errors)
    case SetFrequency(s) => f.(frequency := s, errors := errors)
    case SetCycles(n) => f.(cycles := n, errors := errors)
  }

  /** `removeMember` as the dialog runs it: the roster changes, the error map does not. */
  function RemoveMemberAsWritten(f: Form, id: string): (r: Form)
    ensures r.members == RemoveMember(f.members, id) && r.errors == f.errors
  {
    f.(members := RemoveMember(f.members, id))
  }

  /** `removeMember` with the removed member's two error keys deleted as well. */
  function RemoveMemberCorrected(f: Form, id: string): (r: Form)
    ensures r.members == RemoveMember(f.members, id)
    ensures forall k :: k in r.errors <==>
      k in f.errors && !(|f.members| > 1 && k.MemberKey? && k.id == id)
    ensures forall k :: k in r.errors ==> r.errors[k] == f.errors[k]
  {
    assert forall k: ErrorKey :: k in {MemberKey(id, Name), MemberKey(id, Contact)} <==> k.MemberKey? && k.id == id by {
      forall k: ErrorKey | k.MemberKey? && k.id == id ensures k in {MemberKey(id, Name), MemberKey(id, Contact)} {
        if k.field == Name { } else { }
      }
    }
    if |f.members| > 1 then
      f.(members := RemoveMember(f.members, id),
         errors := f.errors - {MemberKey(id, Name), MemberKey(id, Contact)})
    else f
  }

  /** What the user can do in the dialog. */
  datatype Event =
    | AddClick(freshId: string)
    | RemoveClick(id: string)
    | TypeMember(id: string, field: Field, value: string)
    | Edit(edit: FieldEdit)
    | SaveClick

  /** The Save button: ignored while disabled, otherwise `handleSave`. An enabled
      click either resets the dialog or shows errors, which disables the button. */
  function PressSave(f: Form): (r: Form)
    ensures !IsFormValid(f) ==> r == f
    ensures IsFormValid(f) && Submittable(f) ==> r == InitialForm
    ensures IsFormValid(f) && !Submittable(f) ==>
      r.members == f.members && r.errors != map[] && !IsFormValid(r)
    ensures IsFormValid(f) && !Submittable(f) ==> r == f.(errors := Validate(f).errors)
  {
    if IsFormValid(f) then
      var r := Save(f).form;
      EmptyMapSize(r.errors);
      r
    else f
  }

  /** One event, with the corrected removal. Every event keeps the roster
      numbered 1..N, and every event but Save only ever removes error keys. */
  function Step(f: Form, ev: Event): (r: Form)
    ensures Numbered(f.members) ==> Numbered(r.members)
    ensures !ev.SaveClick? ==> r.errors.Keys <= f.errors.Keys
    ensures ev.AddClick? ==> r.errors == f.errors && |r.members| == |f.members| + 1
  {
    if ev.SaveClick? then PressSave(f)
    else if ev.AddClick? then f.(members := AddMember(f.members, ev.freshId))
    else if ev.RemoveClick? then RemoveMemberCorrected(f, ev.id)
    else if ev.TypeMember? then TypeInMember(f, ev.id, ev.field, ev.value)
    else EditField(f, ev.edit)
  }

  /** One event as the source handles it: it differs from `Step` only in that a
      removal leaves the error map as it was. */
  function StepAsWritten(f: Form, ev: Event): (r: Form)
    ensures Numbered(f.members) ==> Numbered(r.members)
    ensures !ev.SaveClick? ==> r.errors.Keys <= f.errors.Keys
    ensures ev.RemoveClick? ==> r.members == Step(f, ev).members && r.errors == f.errors
    ensures !ev.RemoveClick? ==> r == Step(f, ev)
  {
    if ev.RemoveClick? then RemoveMemberAsWritten(f, ev.id) else Step(f, ev)
  }

  /** The state after a sequence of events, with the corrected removal. */
  function Run(f: Form, evs: seq<Event>): (r: Form)
    ensures Numbered(f.members) ==> Numbered(r.members)
    decreases |evs|
  {
    if evs == [] then f else Run(Step(f, evs[0]), evs[1..])
  }

  /** The state after a sequence of events, as the source handles them. */
  function RunAsWritten(f: Form, evs: seq<Event>): (r: Form)
    ensures Numbered(f.members) ==> Numbered(r.members)
    decreases |evs|
  {
    if evs == [] then f else RunAsWritten(StepAsWritten(f, evs[0]), evs[1..])
  }

  /** The event adds or edits the member with identifier `x`. */
  predicate Touches(ev: Event, x: string)
  {
    (ev.AddClick? && ev.freshId == x) || (ev.TypeMember? && ev.id == x)
  }

  /** As written: an error key of a member no longer in the roster survives
      every event that does not bring that member back, and so keeps the Save
      button disabled for good. */
  lemma {:induction false} StaleErrorPersists(f: Form, evs: seq<Event>, x: string, fl: Field)
    requires MemberKey(x, fl) in f.errors && !HasId(f.members, x)
    requires forall i :: 0 <= i < |evs| ==> !Touches(evs[i], x)
    ensures MemberKey(x, fl) in RunAsWritten(f, evs).errors
    ensures !HasId(RunAsWritten(f, evs).members, x)
    ensures !IsFormValid(RunAsWritten(f, evs))
    decreases |evs|
  {
    if evs != [] {
      var g := StepAsWritten(f, evs[0]);
      match evs[0] {
        case AddClick(y) =>
          assert !HasId(g.members, x) by {
            forall i | 0 <= i < |g.members| ensures g.members[i].id != x {
              if i < |f.members| { assert g.members[i] == f.members[i]; }
            }
          }
        case RemoveClick(id) =>
          RemoveKeepsAbsent(f.members, id, x);
        case TypeMember(id, fl', v) =>
          assert !HasId(g.members, x) by {
            forall i | 0 <= i < |g.members| ensures g.members[i].id != x {
              assert g.members[i].id == f.members[i].id;
            }
          }
        case Edit(e) =>
        case SaveClick =>
      }
      StaleErrorPersists(g, evs[1..], x, fl);
    }
  }

  /** A form whose Save button is enabled though its second member is blank. */
  const StaleStart: Form :=
    Form("Friends", Num(5000.0), "weekly", Num(10.0),
         [Member("1", 1, "Ada", "0801"), Member("2", 2, "", "")], map[])

  /** The events that reach the stale state: Save with a blank second member,
      then removing that member. Save stays disabled afterwards. */
  lemma StaleErrorScenario()
    ensures IsFormValid(StaleStart)
    ensures var f2 := RunAsWritten(StaleStart, [SaveClick, RemoveClick("2")]);
      && f2.members == [Member("1", 1, "Ada", "0801")]
      && MemberKey("2", Name) in f2.errors
      && !IsFormValid(f2)
  {
    StaleStartEnabled();
    StaleStartSaveFails();
    var f1 := StepAsWritten(StaleStart, SaveClick);
    var f2 := StepAsWritten(f1, RemoveClick("2"));
    RemoveSecondOfTwo(Member("1", 1, "Ada", "0801"), Member("2", 2, "", ""));
    assert f2.members == [Member("1", 1, "Ada", "0801")];
    RunAsWrittenTwo(StaleStart, SaveClick, RemoveClick("2"));
  }

  /** The events that fill in the opening dialog as `StaleStart`: add a second
      member, type the first member's name and contact, and set the four group fields. */
  const StaleSetup: seq<Event> := [
    AddClick("2"), TypeMember("1", Name, "Ada"), TypeMember("1", Contact, "0801"),
    Edit(SetGroupName("Friends")), Edit(SetAmount(Num(5000.0))),
    Edit(SetFrequency("weekly")), Edit(SetCycles(Num(10.0)))]

  /** `StaleStart` is reachable from the opening dialog. */
  lemma StaleSetupReachesStaleStart()
    ensures RunAsWritten(InitialForm, StaleSetup) == StaleStart
  {
    var e := StaleSetup;
    assert e[0..] == e;
    var g1 := RunFrom(InitialForm, e, 0);
    var g2 := RunFrom(g1, e, 1);
    var g3 := RunFrom(g2, e, 2);
    var g4 := RunFrom(g3, e, 3);
    var g5 := RunFrom(g4, e, 4);
    var g6 := RunFrom(g5, e, 5);
    var g7 := RunFrom(g6, e, 6);
    assert e[7..] == [];
    assert g7 == StaleStart by {
      SetupRoster();
      SetupFields();
    }
  }

  /** Running from event `i` is running from event `i + 1` after that event. */
  lemma RunFrom(f: Form, e: seq<Event>, i: nat) returns (g: Form)
    requires i < |e|
    ensures g == StepAsWritten(f, e[i])
    ensures RunAsWritten(f, e[i..]) == RunAsWritten(g, e[i + 1..])
  {
    g := StepAsWritten(f, e[i]);
    assert e[i..][1..] == e[i + 1..];
  }

  /** The roster part of `StaleSetup`: a second member, and the first one filled in. */
  lemma SetupRoster()
    ensures StepAsWritten(StepAsWritten(StepAsWritten(InitialForm, AddClick("2")),
              TypeMember("1", Name, "Ada")), TypeMember("1", Contact, "0801"))
            == Form("", Blank, "", Blank, [Member("1", 1, "Ada", "0801"), Member("2", 2, "", "")], map[])
  {
    var m2 := Member("2", 2, "", "");
    var f1 := StepAsWritten(InitialForm, AddClick("2"));
    assert f1 == Form("", Blank, "", Blank, [Member("1", 1, "", ""), m2], map[]);
    var f2 := StepAsWritten(f1, TypeMember("1", Name, "Ada"));
    assert f2.members == [Member("1", 1, "Ada", ""), m2] by {
      assert f2.members == UpdateMember(f1.members, "1", Name, "Ada");
    }
    var f3 := StepAsWritten(f2, TypeMember("1", Contact, "0801"));
    assert f3.members == [Member("1", 1, "Ada", "0801"), m2] by {
      assert f3.members == UpdateMember(f2.members, "1", Contact, "0801");
    }
  }

  /** The group-field part of `StaleSetup`: the four fields set on a form without errors. */
  lemma SetupFields()
    ensures var f := Form("", Blank, "", Blank, [Member("1", 1, "Ada", "0801"), Member("2", 2, "", "")], map[]);
      StepAsWritten(StepAsWritten(StepAsWritten(StepAsWritten(f,
        Edit(SetGroupName("Friends"))), Edit(SetAmount(Num(5000.0)))),
        Edit(SetFrequency("weekly"))), Edit(SetCycles(Num(10.0)))) == StaleStart
  {
  }

  /** As written, the dialog opened fresh reaches a state whose error map names a
      member that is gone, and Save stays disabled there. */
  lemma InitialFormGoesStale()
    ensures var f := RunAsWritten(InitialForm, StaleSetup + [SaveClick, RemoveClick("2")]);
      !ErrorsLive(f) && !IsFormValid(f)
  {
    var f := RunAsWritten(InitialForm, StaleSetup + [SaveClick, RemoveClick("2")]);
    assert f == RunAsWritten(StaleStart, [SaveClick, RemoveClick("2")]) by {
      StaleSetupReachesStaleStart();
      RunAsWrittenAppend(InitialForm, StaleSetup, [SaveClick, RemoveClick("2")]);
    }
    assert f.members == [Member("1", 1, "Ada", "0801")] && MemberKey("2", Name) in f.errors
      && !IsFormValid(f) by {
      StaleErrorScenario();
    }
    assert !HasId(f.members, "2");
  }

  /** One more event after a run. */
  lemma {:induction false} RunAsWrittenSnoc(f: Form, evs: seq<Event>, e: Event)
    ensures RunAsWritten(f, evs + [e]) == StepAsWritten(RunAsWritten(f, evs), e)
    decreases |evs|
  {
    if evs == [] {
      assert evs + [e] == [e];
      assert [e][1..] == [];
    } else {
      assert (evs + [e])[1..] == evs[1..] + [e];
      RunAsWrittenSnoc(StepAsWritten(f, evs[0]), evs[1..], e);
    }
  }

  /** A run of two event sequences is the second run from where the first ends. */
  lemma {:induction false} RunAsWrittenAppend(f: Form, a: seq<Event>, b: seq<Event>)
    ensures RunAsWritten(f, a + b) == RunAsWritten(RunAsWritten(f, a), b)
    decreases |a|
  {
    if a == [] {
      assert a + b == b;
    } else {
      assert (a + b)[1..] == a[1..] + b;
      RunAsWrittenAppend(StepAsWritten(f, a[0]), a[1..], b);
    }
  }

  /** Two events in a row. */
  lemma RunAsWrittenTwo(f: Form, e1: Event, e2: Event)
    ensures RunAsWritten(f, [e1, e2]) == StepAsWritten(StepAsWritten(f, e1), e2)
  {
    var g := StepAsWritten(f, e1);
    assert RunAsWritten(f, [e1, e2]) == RunAsWritten(g, [e1, e2][1..]);
    assert [e1, e2][1..] == [e2];
    assert RunAsWritten(g, [e2]) == RunAsWritten(StepAsWritten(g, e2), [e2][1..]);
    assert [e2][1..] == [];
  }

  lemma StaleStartEnabled()
    ensures IsFormValid(StaleStart)
  {
    var name := StaleStart.members[0].name;
    assert !IsSpace(name[0]);
    assert Trim(name) != "";
  }

  lemma StaleStartSaveFails()
    ensures StepAsWritten(StaleStart, SaveClick).members == StaleStart.members
    ensures MemberKey("2", Name) in StepAsWritten(StaleStart, SaveClick).errors
  {
    StaleStartEnabled();
    assert StaleStart.members[1].id == "2";
    SaveFlagsBlankName(StaleStart, 1);
  }

  /** An enabled Save on a form with a blank member name keeps the roster and
      flags that member's name. */
  lemma SaveFlagsBlankName(f: Form, i: int)
    requires IsFormValid(f) && 0 <= i < |f.members| && IsBlank(f.members[i].name)
    ensures Step(f, SaveClick).members == f.members
    ensures MemberKey(f.members[i].id, Name) in Step(f, SaveClick).errors
  {
    BlankMemberFlagged(f, i);
    assert Step(f, SaveClick) == PressSave(f) == Save(f).form;
  }

  /** A member with a blank name makes validation fail and is flagged. */
  lemma BlankMemberFlagged(f: Form, i: int)
    requires 0 <= i < |f.members| && IsBlank(f.members[i].name)
    ensures !Submittable(f)
    ensures MemberKey(f.members[i].id, Name) in Validate(f).errors
  {
    assert HasBlankField(f.members, f.members[i].id, Name);
  }

  /** Every error key belongs to a field the user can still edit (a group-level
      field, or a member present in the roster), and every message is truthy. */
  predicate ErrorsLive(f: Form)
  {
    && MessagesNonEmpty(f.errors)
    && forall k :: k in f.errors && k.MemberKey? ==> HasId(f.members, k.id)
  }

  /** As written, removal breaks that invariant. */
  lemma AsWrittenBreaksErrorsLive()
    ensures var f := Form("", Blank, "", Blank, [Member("1", 1, "", ""), Member("2", 2, "", "")],
                          map[MemberKey("2", Name) := MemberKey("2", Name).Message()]);
            ErrorsLive(f) && !ErrorsLive(StepAsWritten(f, RemoveClick("2")))
  {
    var ms := [Member("1", 1, "", ""), Member("2", 2, "", "")];
    var f := Form("", Blank, "", Blank, ms, map[MemberKey("2", Name) := MemberKey("2", Name).Message()]);
    assert HasId(ms, "2") by { assert ms[1].id == "2"; }
    assert ErrorsLive(f);
    var g := StepAsWritten(f, RemoveClick("2"));
    assert Without(ms, "2") == [ms[0]] by { assert ms[1..][1..] == []; }
    assert g.members == [Member("1", 1, "", "")];
    assert !HasId(g.members, "2");
  }

  /** With the corrected removal every event keeps the error keys live. */
  lemma StepKeepsErrorsLive(f: Form, ev: Event)
    requires ErrorsLive(f)
    ensures ErrorsLive(Step(f, ev))
  {
    var g := Step(f, ev);
    match ev {
      case AddClick(x) =>
        forall k | k in g.errors && k.MemberKey? ensures HasId(g.members, k.id) {
          var i :| 0 <= i < |f.members| && f.members[i].id == k.id;
          assert g.members[i] == f.members[i];
        }
      case RemoveClick(id) =>
        forall k | k in g.errors && k.MemberKey? ensures HasId(g.members, k.id) {
          var i :| 0 <= i < |f.members| && f.members[i].id == k.id;
          if |f.members| > 1 {
            assert k.id != id;
            RemoveKeepsOthers(f.members, id, f.members[i]);
            var j :| 0 <= j < |g.members| && g.members[j] == f.members[i].(order := j + 1);
            assert g.members[j].id == k.id;
          }
        }
      case TypeMember(id, fl, v) =>
        forall k | k in g.errors && k.MemberKey? ensures HasId(g.members, k.id) {
          var i :| 0 <= i < |f.members| && f.members[i].id == k.id;
          assert g.members[i].id == f.members[i].id;
        }
      case Edit(e) =>
      case SaveClick =>
        if IsFormValid(f) && !Submittable(f) {
          var v := Validate(f);
          forall k | k in g.errors && k.MemberKey? ensures HasId(g.members, k.id) {
            assert HasBlankField(f.members, k.id, k.field);
          }
        }
    }
  }

  /** Liveness of error keys holds after any sequence of events. */
  lemma {:induction false} RunKeepsErrorsLive(f: Form, evs: seq<Event>)
    requires ErrorsLive(f)
    ensures ErrorsLive(Run(f, evs))
    decreases |evs|
  {
    if evs != [] {
      StepKeepsErrorsLive(f, evs[0]);
      RunKeepsErrorsLive(Step(f, evs[0]), evs[1..]);
    }
  }

  /** With live error keys, every key shown can be cleared by one event the
      dialog offers: typing in that field. */
  lemma ErrorsClearable(f: Form, k: ErrorKey)
    requires ErrorsLive(f) && k in f.errors
    ensures exists ev :: k !in Step(f, ev).errors
  {
    match k {
      case GroupNameKey => assert k !in Step(f, Edit(SetGroupName(f.groupName))).errors;
      case AmountKey => assert k !in Step(f, Edit(SetAmount(f.amount))).errors;
      case FrequencyKey => assert k !in Step(f, Edit(SetFrequency(f.frequency))).errors;
      case CyclesKey => assert k !in Step(f, Edit(SetCycles(f.cycles))).errors;
      case MemberKey(id, fl) =>
        var i :| 0 <= i < |f.members| && f.members[i].id == id;
        assert k !in Step(f, TypeMember(id, fl, FieldOf(f.members[i], fl))).errors;
    }
  }

  /** With the corrected removal, every state the dialog reaches from its initial
      state keeps the error keys live, so no error can outlive the field it is about.
      The dialog as written does not: see `InitialFormGoesStale`. */
  lemma InitialFormStaysLive(evs: seq<Event>)
    ensures ErrorsLive(Run(InitialForm, evs))
  {
    RunKeepsErrorsLive(InitialForm, evs);
  }

  /** The dialog's roster is numbered 1..N in every reachable state, whether
      removal clears errors or not; Save, which resets the roster, keeps it too. */
  lemma InitialFormNumbered(evs: seq<Event>)
    ensures Numbered(Run(InitialForm, evs).members)
    ensures Numbered(RunAsWritten(InitialForm, evs).members)
  {
    assert Numbered(InitialForm.members);
  }
}
