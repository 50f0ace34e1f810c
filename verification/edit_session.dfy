/** The detail screen as an edit session: a private working copy of the
    four editable fields of one record, one setter per text input, and the
    two header buttons, Save (commit the edited record, then go back) and
    Cancel (only go back). The commit callback is the store's keyed
    replace.
 */
module EditSession {
  import opened ContactStore

  /** The four fields a text input can change; the id has no input. */
  datatype Field = FirstName | LastName | Email | Phone

  /** The working copy, one piece of screen state per editable field. */
  datatype Draft = Draft(firstName: string, lastName: string, email: string, phone: string)

  /** An open session: the record it was opened on and the working copy. */
  datatype Session = Session(original: Contact, draft: Draft)

  /** What a button press asks of the outside world, in order. */
  datatype Effect = Commit(item: Contact) | GoBack

  /** One text change, and the button that ends the session. */
  datatype Edit = Edit(field: Field, value: string)
  datatype Finish = SavePressed | CancelPressed

  /** The value of field `f` of a record. */
  function ValueOf(c: Contact, f: Field): string {
    match f
    case FirstName => c.firstName
    case LastName => c.lastName
    case Email => c.email
    case Phone => c.phone
  }

  /** The value of field `f` of the working copy. */
  function Get(d: Draft, f: Field): string {
    match f
    case FirstName => d.firstName
    case LastName => d.lastName
    case Email => d.email
    case Phone => d.phone
  }

  /* ---------------------------------------------------------------------
     Opening and editing
     --------------------------------------------------------------------- */

  /** Opening a record: every field of the working copy reads as the
      record's. */
  function Open(c: Contact): (s: Session)
    ensures s.original == c
    ensures forall f :: Get(s.draft, f) == ValueOf(c, f)
  {
    Session(c, Draft(c.firstName, c.lastName, c.email, c.phone))
  }

  /** A text change on the input of field `f`: that field takes `v`, the
      other three and the opened record stay as they were. */
  function SetField(s: Session, f: Field, v: string): (r: Session)
    ensures r.original == s.original
    ensures Get(r.draft, f) == v
    ensures forall g :: g != f ==> Get(r.draft, g) == Get(s.draft, g)
  {
    match f
    case FirstName => s.(draft := s.draft.(firstName := v))
    case LastName => s.(draft := s.draft.(lastName := v))
    case Email => s.(draft := s.draft.(email := v))
    case Phone => s.(draft := s.draft.(phone := v))
  }

  /** A run of text changes, applied in order. */
  function ApplyEdits(s: Session, edits: seq<Edit>): Session
    decreases |edits|
  {
    if |edits| == 0 then s
    else ApplyEdits(SetField(s, edits[0].field, edits[0].value), edits[1..])
  }

  /** Reference for the value a field ends with: the value of the LAST
      change to it, or `initial` when it was never changed. */
  function LastWrite(edits: seq<Edit>, f: Field, initial: string): string
    decreases |edits|
  {
    if |edits| == 0 then initial
    else if edits[|edits| - 1].field == f then edits[|edits| - 1].value
    else LastWrite(edits[..|edits| - 1], f, initial)
  }

  /** Applying one more change at the end of a run. */
  lemma {:induction false} ApplyEditsSnoc(s: Session, edits: seq<Edit>, e: Edit)
    ensures ApplyEdits(s, edits + [e]) == SetField(ApplyEdits(s, edits), e.field, e.value)
    decreases |edits|
  {
    if |edits| == 0 {
      assert edits + [e] == [e];
    } else {
      assert (edits + [e])[1..] == edits[1..] + [e];
      ApplyEditsSnoc(SetField(s, edits[0].field, edits[0].value), edits[1..], e);
    }
  }

  /** After any run of changes, every field holds its last written value
      and the opened record is untouched. */
  lemma {:induction false} ApplyEditsLastWrite(s: Session, edits: seq<Edit>)
    ensures ApplyEdits(s, edits).original == s.original
    ensures forall f :: Get(ApplyEdits(s, edits).draft, f) == LastWrite(edits, f, Get(s.draft, f))
    decreases |edits|
  {
    if |edits| > 0 {
      var init := edits[..|edits| - 1];
      var e := edits[|edits| - 1];
      assert edits == init + [e];
      ApplyEditsLastWrite(s, init);
      ApplyEditsSnoc(s, init, e);
    }
  }

  /* ---------------------------------------------------------------------
     Save and cancel
     --------------------------------------------------------------------- */

  /** The record Save hands to the commit callback: the opened record's id
      with the working copy's four fields. */
  function Committed(s: Session): (c: Contact)
    ensures c.id == s.original.id
    ensures forall f :: ValueOf(c, f) == Get(s.draft, f)
  {
    Contact(s.original.id, s.draft.firstName, s.draft.lastName, s.draft.phone, s.draft.email)
  }

  /** The records a run of effects commits, in order. */
  function Commits(effects: seq<Effect>): (items: seq<Contact>)
    ensures forall x :: x in items <==> Commit(x) in effects
    decreases |effects|
  {
    if |effects| == 0 then []
    else (if effects[0].Commit? then [effects[0].item] else []) + Commits(effects[1..])
  }

  /** Save: one commit of the edited record, then back to the list. */
  function Save(s: Session): (effects: seq<Effect>)
    ensures Commits(effects) == [Committed(s)]
    ensures |effects| > 0 && effects[|effects| - 1] == GoBack
    ensures forall i :: 0 <= i < |effects| - 1 ==> effects[i] != GoBack
  {
    var effects := [Commit(Committed(s)), GoBack];
    assert effects[1..] == [GoBack] && [GoBack][1..] == [];
    effects
  }

  /** Cancel: back to the list, nothing committed. */
  function Cancel(s: Session): (effects: seq<Effect>)
    ensures Commits(effects) == []
    ensures |effects| > 0 && effects[|effects| - 1] == GoBack
    ensures forall i :: 0 <= i < |effects| - 1 ==> effects[i] != GoBack
  {
    [GoBack]
  }

  /** The store after a run of effects: a commit is the store's update, a
      return to the list leaves the store alone. */
  function Perform(st: Store, effects: seq<Effect>): Store
    decreases |effects|
  {
    if |effects| == 0 then st
    else
      var next := match effects[0]
        case Commit(item) => Update(st, item)
        case GoBack => st;
      Perform(next, effects[1..])
  }

  /** Running effects is running `updateContact` on the committed records,
      in order: a return to the list never touches the store. */
  lemma {:induction false} PerformIsUpdates(st: Store, effects: seq<Effect>)
    ensures Perform(st, effects) == UpdateAll(st, Commits(effects))
    decreases |effects|
  {
    if |effects| > 0 {
      var rest := effects[1..];
      match effects[0]
      case Commit(item) =>
        assert Commits(effects) == [item] + Commits(rest);
        assert ([item] + Commits(rest))[1..] == Commits(rest);
        PerformIsUpdates(Update(st, item), rest);
      case GoBack =>
        assert Commits(effects) == Commits(rest);
        PerformIsUpdates(st, rest);
    }
  }

  /** Effects that commit nothing leave the store as it was. */
  lemma {:induction false} PerformWithoutCommits(st: Store, effects: seq<Effect>)
    requires Commits(effects) == []
    ensures Perform(st, effects) == st
    decreases |effects|
  {
    if |effects| > 0 {
      assert !effects[0].Commit?;
      PerformWithoutCommits(st, effects[1..]);
    }
  }

  /** The effects of a whole session: open `c`, apply the changes, press
      the finishing button. */
  function SessionEffects(c: Contact, edits: seq<Edit>, finish: Finish): (effects: seq<Effect>)
    ensures finish == SavePressed ==> Commits(effects) == [Committed(ApplyEdits(Open(c), edits))]
    ensures finish == CancelPressed ==> Commits(effects) == []
    ensures |effects| > 0 && effects[|effects| - 1] == GoBack
    ensures forall i :: 0 <= i < |effects| - 1 ==> effects[i] != GoBack
  {
    var s := ApplyEdits(Open(c), edits);
    match finish
    case SavePressed => Save(s)
    case CancelPressed => Cancel(s)
  }

  /** The store after a whole session. */
  function Outcome(st: Store, c: Contact, edits: seq<Edit>, finish: Finish): (r: Store)
    ensures r.seed == st.seed && r.refreshing == st.refreshing
    ensures Ids(r.list) == Ids(st.list)
    ensures Valid(st) ==> Valid(r)
  {
    PerformIsUpdates(st, SessionEffects(c, edits, finish));
    Perform(st, SessionEffects(c, edits, finish))
  }

  /** Cancel leaks nothing: after any changes, the store is unchanged. */
  lemma CancelLeaksNothing(st: Store, c: Contact, edits: seq<Edit>)
    ensures Outcome(st, c, edits, CancelPressed) == st
  {
    PerformWithoutCommits(st, SessionEffects(c, edits, CancelPressed));
  }

  /** Saving is exactly one store update, with the record built from the
      opened id and the last value written to each field. */
  lemma SaveCommitsLastWrites(st: Store, c: Contact, edits: seq<Edit>)
    ensures var item := Committed(ApplyEdits(Open(c), edits));
            && Outcome(st, c, edits, SavePressed) == Update(st, item)
            && item.id == c.id
            && forall f :: ValueOf(item, f) == LastWrite(edits, f, ValueOf(c, f))
  {
    var s := ApplyEdits(Open(c), edits);
    ApplyEditsLastWrite(Open(c), edits);
    assert Perform(st, Save(s)) == Perform(Update(st, Committed(s)), [GoBack]);
  }

  /** Saving without changes writes back the opened record, which leaves a
      list with unique ids unchanged. */
  lemma SaveWithoutEditsIsNoOp(st: Store, c: Contact)
    requires UniqueIds(st.list)
    requires c in st.list
    ensures Committed(Open(c)) == c
    ensures Outcome(st, c, [], SavePressed) == st
  {
    SaveCommitsLastWrites(st, c, []);
    ReplaceWithMember(st.list, c);
  }

  /** One change then Save, on the record at position `k` of a list with
      unique ids: that position keeps its id, takes the new value in the
      changed field and keeps the other fields; every other position is
      unchanged. */
  lemma SingleEditSave(st: Store, k: int, f: Field, v: string)
    requires UniqueIds(st.list)
    requires 0 <= k < |st.list|
    ensures var r := Outcome(st, st.list[k], [Edit(f, v)], SavePressed).list;
            && |r| == |st.list|
            && r[k].id == st.list[k].id
            && ValueOf(r[k], f) == v
            && (forall g :: g != f ==> ValueOf(r[k], g) == ValueOf(st.list[k], g))
            && (forall i :: 0 <= i < |r| && i != k ==> r[i] == st.list[i])
  {
    var c := st.list[k];
    var edits := [Edit(f, v)];
    SaveCommitsLastWrites(st, c, edits);
    var item := Committed(ApplyEdits(Open(c), edits));
    ReplaceUniqueAt(st.list, item, k);
    forall g
      ensures LastWrite(edits, g, ValueOf(c, g)) == if g == f then v else ValueOf(c, g)
    {
      assert edits[..0] == [];
    }
  }

  /* ---------------------------------------------------------------------
     The two worked scenarios
     --------------------------------------------------------------------- */

  function AdaSeed(): seq<Contact> {
    [Contact("1", "Ada", "Lovelace", "555", "a@x.com")]
  }

  /** Changing the phone to "999" and saving. */
  lemma PhoneEditScenario()
    ensures Outcome(Init(AdaSeed()), AdaSeed()[0], [Edit(Phone, "999")], SavePressed).list
            == [Contact("1", "Ada", "Lovelace", "999", "a@x.com")]
  {
    SingleEditSave(Init(AdaSeed()), 0, Phone, "999");
  }

  /** Changing the first name and cancelling. */
  lemma CancelScenario()
    ensures Outcome(Init(AdaSeed()), AdaSeed()[0], [Edit(FirstName, "X")], CancelPressed).list
            == AdaSeed()
  {
    CancelLeaksNothing(Init(AdaSeed()), AdaSeed()[0], [Edit(FirstName, "X")]);
  }
}
