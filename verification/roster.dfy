/**
 * The member roster of the "Create New Group" dialog: an ordered list of
 * members whose `order` field is always the member's 1-based position.
 * Three edits act on it: add an empty member at the end, remove a member
 * (never the last one) and renumber, and overwrite one text field of a member.
 */
module Roster {

  /** One row of the roster. `order` is the number shown in the first column. */
  datatype Member = Member(id: string, order: int, name: string, contact: string)

  /** The two text fields a member row lets the user edit. */
  datatype Field = Name | Contact {

    /** The property name used in error keys (`member-<id>-<field>`). */
    function Key(): string
    {
      match this
      case Name => "name"
      case Contact => "contact"
    }

    /** The other editable field. */
    function Other(): Field
    {
      match this
      case Name => Contact
      case Contact => Name
    }
  }

  /** The value of field `f` of member `m`. */
  function FieldOf(m: Member, f: Field): string
  {
    match f
    case Name => m.name
    case Contact => m.contact
  }

  /** `m` with field `f` set to `v` (the object spread `{ ...m, [f]: v }`). */
  function WithField(m: Member, f: Field, v: string): (r: Member)
    ensures FieldOf(r, f) == v && FieldOf(r, f.Other()) == FieldOf(m, f.Other())
    ensures r.id == m.id && r.order == m.order
  {
    match f
    case Name => m.(name := v)
    case Contact => m.(contact := v)
  }

  /** The roster the dialog opens with, and is reset to after a save. */
  const InitialRoster: seq<Member> := [Member("1", 1, "", "")]

  /** Orders are exactly 1..N in list order: contiguous, from 1, without duplicates. */
  predicate Numbered(ms: seq<Member>)
  {
    forall i :: 0 <= i < |ms| ==> ms[i].order == i + 1
  }

  /** Some member carries the identifier `id`. */
  predicate HasId(ms: seq<Member>, id: string)
  {
    exists i :: 0 <= i < |ms| && ms[i].id == id
  }

  /** No two members share an identifier. */
  predicate DistinctIds(ms: seq<Member>)
  {
    forall i, j :: 0 <= i < j < |ms| ==> ms[i].id != ms[j].id
  }

  /** `addMember`: append an empty member whose order is the new length. */
  function AddMember(ms: seq<Member>, freshId: string): (r: seq<Member>)
    ensures |r| == |ms| + 1 && r[..|ms|] == ms
    ensures r[|ms|].id == freshId && r[|ms|].name == "" && r[|ms|].contact == ""
    ensures r[|ms|].order == |ms| + 1
    ensures Numbered(ms) ==> Numbered(r)
    ensures HasId(r, freshId)
    ensures DistinctIds(ms) && !HasId(ms, freshId) ==> DistinctIds(r)
  {
    ms + [Member(freshId, |ms| + 1, "", "")]
  }

  /** `ms.filter(m => m.id !== id)`. */
  function Without(ms: seq<Member>, id: string): (r: seq<Member>)
    ensures |r| <= |ms|
    ensures forall m :: m in r <==> m in ms && m.id != id
  {
    if ms == [] then []
    else if ms[0].id == id then Without(ms[1..], id)
    else [ms[0]] + Without(ms[1..], id)
  }

  /** `ms.map((m, index) => ({ ...m, order: index + 1 }))`. */
  function Renumber(ms: seq<Member>): (r: seq<Member>)
    ensures |r| == |ms| && Numbered(r)
    ensures forall i :: 0 <= i < |ms| ==>
      r[i].id == ms[i].id && r[i].name == ms[i].name && r[i].contact == ms[i].contact
  {
    seq(|ms|, i requires 0 <= i < |ms| => ms[i].(order := i + 1))
  }

  /** `removeMember`: unless only one member is left, drop every member with
      identifier `id` and renumber the survivors 1..N in their original order. */
  function RemoveMember(ms: seq<Member>, id: string): (r: seq<Member>)
    ensures |ms| <= 1 ==> r == ms
    ensures |ms| > 1 ==> Numbered(r) && !HasId(r, id)
    ensures |ms| > 1 ==> (|r| == |Without(ms, id)| &&
      forall i :: 0 <= i < |r| ==> r[i] == Without(ms, id)[i].(order := i + 1))
    ensures Numbered(ms) ==> Numbered(r)
  {
    if |ms| > 1 then
      var kept := Without(ms, id);
      var r := Renumber(kept);
      assert forall i :: 0 <= i < |r| ==> r[i].id == kept[i].id && kept[i] in kept;
      r
    else ms
  }

  /** `updateMember` on the list: field `f` of every member with identifier `id` becomes `v`. */
  function UpdateMember(ms: seq<Member>, id: string, f: Field, v: string): (r: seq<Member>)
    ensures |r| == |ms|
    ensures forall i :: 0 <= i < |ms| ==>
      r[i].id == ms[i].id && r[i].order == ms[i].order &&
      FieldOf(r[i], f.Other()) == FieldOf(ms[i], f.Other())
    ensures forall i :: 0 <= i < |ms| && ms[i].id == id ==> FieldOf(r[i], f) == v
    ensures forall i :: 0 <= i < |ms| && ms[i].id != id ==> r[i] == ms[i]
  {
    seq(|ms|, i requires 0 <= i < |ms| => if ms[i].id == id then WithField(ms[i], f, v) else ms[i])
  }

  /** Filtering distributes over concatenation: the survivors of `a` come
      first, in their order, followed by the survivors of `b`. */
  lemma {:induction false} WithoutAppend(a: seq<Member>, b: seq<Member>, id: string)
    ensures Without(a + b, id) == Without(a, id) + Without(b, id)
  {
    if a == [] {
      assert a + b == b;
    } else {
      assert (a + b)[1..] == a[1..] + b;
      WithoutAppend(a[1..], b, id);
    }
  }

  /** A member with another identifier survives the filter; one with `id` does not. */
  lemma {:induction false} WithoutSingle(m: Member, id: string)
    ensures Without([m], id) == if m.id == id then [] else [m]
  {
    assert [m][1..] == [];
  }

  /** With distinct identifiers at most one member matches, so the filter
      removes at most one entry, and exactly one when `id` is present. */
  lemma {:induction false} WithoutDistinct(ms: seq<Member>, id: string)
    requires DistinctIds(ms)
    ensures |Without(ms, id)| >= |ms| - 1
    ensures HasId(ms, id) ==> |Without(ms, id)| == |ms| - 1
    ensures !HasId(ms, id) ==> Without(ms, id) == ms
  {
    if ms != [] {
      WithoutDistinct(ms[1..], id);
      if ms[0].id == id {
        assert !HasId(ms[1..], id) by {
          forall i | 0 <= i < |ms[1..]| ensures ms[1..][i].id != id {
            assert ms[1..][i] == ms[i + 1];
          }
        }
      } else if HasId(ms, id) {
        var k :| 0 <= k < |ms| && ms[k].id == id;
        assert ms[1..][k - 1].id == id;
      } else {
        assert !HasId(ms[1..], id) by {
          forall i | 0 <= i < |ms[1..]| ensures ms[1..][i].id != id {
            assert ms[1..][i] == ms[i + 1];
          }
        }
        assert ms == [ms[0]] + ms[1..];
      }
    }
  }

  /** With distinct identifiers the roster never becomes empty, and removing
      an identifier that is present shortens it by exactly one. */
  lemma RemoveKeepsOne(ms: seq<Member>, id: string)
    requires DistinctIds(ms) && |ms| >= 1
    ensures |RemoveMember(ms, id)| >= 1
    ensures |ms| > 1 && HasId(ms, id) ==> |RemoveMember(ms, id)| == |ms| - 1
  {
    WithoutDistinct(ms, id);
  }

  /** Removal keeps identifiers distinct. */
  lemma {:induction false} RemoveKeepsDistinct(ms: seq<Member>, id: string)
    requires DistinctIds(ms)
    ensures DistinctIds(RemoveMember(ms, id))
  {
    if |ms| > 1 {
      WithoutKeepsDistinct(ms, id);
    }
  }

  lemma {:induction false} WithoutKeepsDistinct(ms: seq<Member>, id: string)
    requires DistinctIds(ms)
    ensures DistinctIds(Without(ms, id))
  {
    if ms != [] {
      assert DistinctIds(ms[1..]) by {
        forall i, j | 0 <= i < j < |ms[1..]| ensures ms[1..][i].id != ms[1..][j].id {
          assert ms[1..][i] == ms[i + 1] && ms[1..][j] == ms[j + 1];
        }
      }
      WithoutKeepsDistinct(ms[1..], id);
      if ms[0].id != id {
        var rest := Without(ms[1..], id);
        forall j | 0 <= j < |rest| ensures rest[j].id != ms[0].id {
          assert rest[j] in rest;
          var k :| 0 <= k < |ms[1..]| && ms[1..][k] == rest[j];
          assert ms[k + 1] == rest[j];
        }
      }
    }
  }

  /** Removing an identifier does not bring back one that was absent. */
  lemma RemoveKeepsAbsent(ms: seq<Member>, id: string, x: string)
    requires !HasId(ms, x)
    ensures !HasId(RemoveMember(ms, id), x)
  {
    if |ms| > 1 {
      var r := RemoveMember(ms, id);
      var kept := Without(ms, id);
      forall i | 0 <= i < |r| ensures r[i].id != x {
        assert r[i].id == kept[i].id && kept[i] in kept;
      }
    }
  }

  /** A member with another identifier survives removal, renumbered to its new position. */
  lemma RemoveKeepsOthers(ms: seq<Member>, id: string, m: Member)
    requires |ms| > 1 && m in ms && m.id != id
    ensures exists k :: 0 <= k < |RemoveMember(ms, id)| && RemoveMember(ms, id)[k] == m.(order := k + 1)
  {
    var kept := Without(ms, id);
    var k :| 0 <= k < |kept| && kept[k] == m;
    assert RemoveMember(ms, id)[k] == m.(order := k + 1);
  }

  /** Removing the second of two members leaves the first, still numbered 1. */
  lemma RemoveSecondOfTwo(a: Member, b: Member)
    requires a.id != b.id && a.order == 1
    ensures RemoveMember([a, b], b.id) == [a]
  {
    var ms := [a, b];
    assert ms[1..] == [b] && [b][1..] == [];
    assert Without([b], b.id) == [];
    assert Without(ms, b.id) == [a];
  }

  /** With duplicate identifiers (two members added within the same clock tick)
      removal can empty the roster, despite the one-member guard. */
  lemma RemoveDuplicateIdsEmpties()
    ensures RemoveMember([Member("7", 1, "", ""), Member("7", 2, "", "")], "7") == []
  {
    var ms := [Member("7", 1, "", ""), Member("7", 2, "", "")];
    assert ms[1..][1..] == [];
  }

  /** The three roster edits, as the dialog's buttons and inputs issue them. */
  datatype RosterEdit = Add(freshId: string) | Remove(id: string) | Update(id: string, field: Field, value: string)

  function Apply(ms: seq<Member>, e: RosterEdit): seq<Member>
  {
    match e
    case Add(x) => AddMember(ms, x)
    case Remove(id) => RemoveMember(ms, id)
    case Update(id, f, v) => UpdateMember(ms, id, f, v)
  }

  /** The roster after applying `es` in order. */
  function RunEdits(ms: seq<Member>, es: seq<RosterEdit>): seq<Member>
    decreases |es|
  {
    if es == [] then ms else RunEdits(Apply(ms, es[0]), es[1..])
  }

  /** Every `Add` in `es` uses an identifier not in the roster at that moment. */
  predicate FreshAdds(ms: seq<Member>, es: seq<RosterEdit>)
    decreases |es|
  {
    es == [] ||
    ((es[0].Add? ==> !HasId(ms, es[0].freshId)) && FreshAdds(Apply(ms, es[0]), es[1..]))
  }

  /** Orders stay exactly 1..N after any sequence of edits from a numbered roster. */
  lemma {:induction false} RunKeepsNumbered(ms: seq<Member>, es: seq<RosterEdit>)
    requires Numbered(ms)
    ensures Numbered(RunEdits(ms, es))
    decreases |es|
  {
    if es != [] {
      RunKeepsNumbered(Apply(ms, es[0]), es[1..]);
    }
  }

  /** With fresh identifiers, any sequence of edits keeps identifiers distinct
      and leaves at least one member. */
  lemma {:induction false} RunKeepsNonEmpty(ms: seq<Member>, es: seq<RosterEdit>)
    requires DistinctIds(ms) && |ms| >= 1 && FreshAdds(ms, es)
    ensures DistinctIds(RunEdits(ms, es)) && |RunEdits(ms, es)| >= 1
    decreases |es|
  {
    if es != [] {
      var next := Apply(ms, es[0]);
      match es[0] {
        case Add(x) =>
        case Remove(id) =>
          RemoveKeepsOne(ms, id);
          RemoveKeepsDistinct(ms, id);
        case Update(id, f, v) =>
      }
      RunKeepsNonEmpty(next, es[1..]);
    }
  }

  /** The invariant of the dialog's roster: from the initial one-member roster
      orders are 1..N and, as long as added identifiers are fresh, the roster is
      never empty and no identifier repeats. */
  lemma InitialRosterInvariant(es: seq<RosterEdit>)
    ensures Numbered(RunEdits(InitialRoster, es))
    ensures FreshAdds(InitialRoster, es) ==>
      |RunEdits(InitialRoster, es)| >= 1 && DistinctIds(RunEdits(InitialRoster, es))
  {
    RunKeepsNumbered(InitialRoster, es);
    if FreshAdds(InitialRoster, es) {
      RunKeepsNonEmpty(InitialRoster, es);
    }
  }
}
