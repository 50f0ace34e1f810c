/** The in-memory contact store of the list screen: the `ContactDetails`
    record, the list seeded from the bundled dataset, the reset on
    pull-to-refresh and the keyed whole-record replace used as the commit
    callback of the edit screen.
 */
module ContactStore {

  /** One contact record; every field is free text. */
  datatype Contact = Contact(
    id: string,
    firstName: string,
    lastName: string,
    phone: string,
    email: string
  )

  /** The state of the list screen. `seed` is the bundled dataset the list
      starts from and returns to on refresh; it never changes. */
  datatype Store = Store(seed: seq<Contact>, list: seq<Contact>, refreshing: bool)

  /* ---------------------------------------------------------------------
     Ids and uniqueness
     --------------------------------------------------------------------- */

  /** The ids of a list of records, in order. */
  function Ids(s: seq<Contact>): (ids: seq<string>)
    ensures |ids| == |s|
    ensures forall i :: 0 <= i < |s| ==> ids[i] == s[i].id
  {
    if |s| == 0 then [] else [s[0].id] + Ids(s[1..])
  }

  /** No string occurs twice in `ids`. */
  predicate Distinct(ids: seq<string>) {
    forall i, j :: 0 <= i < j < |ids| ==> ids[i] != ids[j]
  }

  /** Exactly one record per id. */
  predicate UniqueIds(s: seq<Contact>) {
    Distinct(Ids(s))
  }

  /** Some record of `s` carries `id`. */
  predicate HasId(s: seq<Contact>, id: string) {
    id in Ids(s)
  }

  /* ---------------------------------------------------------------------
     updateContact: map-replace by id
     --------------------------------------------------------------------- */

  /** The callback given to `map`: the incoming record where the ids agree,
      the existing record otherwise. */
  function Substitute(c: Contact, item: Contact): (r: Contact)
    ensures c.id == item.id ==> r == item
    ensures r.id == c.id
    ensures r == c || r == item
  {
    if c.id == item.id then item else c
  }

  /** The list `updateContact` computes: every record is passed through
      `Substitute`, in order. */
  function Replace(s: seq<Contact>, item: Contact): (r: seq<Contact>)
    ensures |r| == |s|
  {
    if |s| == 0 then [] else [Substitute(s[0], item)] + Replace(s[1..], item)
  }

  /** Reference definition of a keyed whole-record replace, stated position
      by position. */
  ghost predicate IsKeyedReplace(s: seq<Contact>, item: Contact, r: seq<Contact>) {
    && |r| == |s|
    && (forall i :: 0 <= i < |s| && s[i].id == item.id ==> r[i] == item)
    && (forall i :: 0 <= i < |s| && s[i].id != item.id ==> r[i] == s[i])
  }

  /** Position `i` of the result holds `item` exactly where the old record
      had `item`'s id, and the old record everywhere else. */
  lemma {:induction false} ReplaceAt(s: seq<Contact>, item: Contact)
    ensures forall i :: 0 <= i < |s| && s[i].id == item.id ==> Replace(s, item)[i] == item
    ensures forall i :: 0 <= i < |s| && s[i].id != item.id ==> Replace(s, item)[i] == s[i]
  {
    if |s| > 0 {
      ReplaceAt(s[1..], item);
      var r := Replace(s, item);
      assert r == [Substitute(s[0], item)] + Replace(s[1..], item);
      forall i | 1 <= i < |s|
        ensures r[i] == Replace(s[1..], item)[i - 1]
      {
      }
    }
  }

  /** `Replace` computes exactly the keyed replace, and nothing else does. */
  lemma ReplaceMeetsReference(s: seq<Contact>, item: Contact, r: seq<Contact>)
    ensures IsKeyedReplace(s, item, r) <==> r == Replace(s, item)
  {
    ReplaceAt(s, item);
    if IsKeyedReplace(s, item, r) {
      var q := Replace(s, item);
      forall i | 0 <= i < |s|
        ensures r[i] == q[i]
      {
      }
    }
  }

  /** When no record carries `item.id`, the list is left as it was. */
  lemma {:induction false} ReplaceUnknownId(s: seq<Contact>, item: Contact)
    requires !HasId(s, item.id)
    ensures Replace(s, item) == s
  {
    ReplaceAt(s, item);
    var r := Replace(s, item);
    forall i | 0 <= i < |s|
      ensures r[i] == s[i]
    {
      assert Ids(s)[i] == s[i].id;
    }
  }

  /** Replacing twice with the same record is replacing once. */
  lemma {:induction false} ReplaceIdempotent(s: seq<Contact>, item: Contact)
    ensures Replace(Replace(s, item), item) == Replace(s, item)
  {
    var once := Replace(s, item);
    ReplaceAt(s, item);
    ReplaceAt(once, item);
    var twice := Replace(once, item);
    forall i | 0 <= i < |s|
      ensures twice[i] == once[i]
    {
    }
  }

  /** The sequence of ids is unchanged, because a record is only ever
      replaced by one with the same id. */
  lemma {:induction false} ReplaceKeepsIds(s: seq<Contact>, item: Contact)
    ensures Ids(Replace(s, item)) == Ids(s)
  {
    ReplaceAt(s, item);
    var r := Replace(s, item);
    forall i | 0 <= i < |s|
      ensures Ids(r)[i] == Ids(s)[i]
    {
    }
  }

  /** Ids that are unique before the replace stay unique after it. */
  lemma ReplaceKeepsUniqueIds(s: seq<Contact>, item: Contact)
    ensures UniqueIds(Replace(s, item)) <==> UniqueIds(s)
  {
    ReplaceKeepsIds(s, item);
  }

  /** With unique ids, replacing by the id found at position `k` is the
      single-position update at `k`. */
  lemma ReplaceUniqueAt(s: seq<Contact>, item: Contact, k: int)
    requires UniqueIds(s)
    requires 0 <= k < |s| && s[k].id == item.id
    ensures Replace(s, item) == s[k := item]
  {
    ReplaceAt(s, item);
    var r := Replace(s, item);
    forall i | 0 <= i < |s|
      ensures r[i] == s[k := item][i]
    {
      if i != k {
        assert Ids(s)[i] != Ids(s)[k];
      }
    }
  }

  /** With unique ids, writing back a record that is already in the list
      leaves the list unchanged. */
  lemma ReplaceWithMember(s: seq<Contact>, c: Contact)
    requires UniqueIds(s)
    requires c in s
    ensures Replace(s, c) == s
  {
    var k :| 0 <= k < |s| && s[k] == c;
    ReplaceUniqueAt(s, c, k);
  }

  /** Without unique ids, writing back a record of the list can overwrite
      a different record that shares its id. */
  lemma ReplaceWithMemberNeedsUniqueIds()
    ensures var a := Contact("1", "Ada", "Lovelace", "555", "a@x.com");
            var b := Contact("1", "Bob", "Byte", "777", "b@x.com");
            Replace([a, b], a) != [a, b]
  {
    var a := Contact("1", "Ada", "Lovelace", "555", "a@x.com");
    var b := Contact("1", "Bob", "Byte", "777", "b@x.com");
    ReplaceAt([a, b], a);
    assert Replace([a, b], a)[1] == a;
  }

  /* ---------------------------------------------------------------------
     The list screen's state and its two transitions
     --------------------------------------------------------------------- */

  /** The state when the screen mounts: the seed, not refreshing. */
  function Init(seed: seq<Contact>): Store {
    Store(seed, seed, false)
  }

  /** The store invariant: the seed and the current list each hold one
      record per id, and no refresh is in progress between events. */
  predicate Valid(st: Store) {
    UniqueIds(st.seed) && UniqueIds(st.list) && !st.refreshing
  }

  function SetRefreshing(st: Store, b: bool): Store {
    st.(refreshing := b)
  }

  function SetList(st: Store, list: seq<Contact>): Store {
    st.(list := list)
  }

  /** `refreshContact`: raise the flag, put the seed back, lower the flag. */
  function Refresh(st: Store): (r: Store)
    ensures r.seed == st.seed
    ensures r.list == st.seed
    ensures !r.refreshing
  {
    var raised := SetRefreshing(st, true);
    var reset := SetList(raised, raised.seed);
    SetRefreshing(reset, false)
  }

  /** `updateContact`: replace the list with its keyed replace. The ids,
      and so the store invariant, are kept. */
  function Update(st: Store, item: Contact): (r: Store)
    ensures r.seed == st.seed && r.refreshing == st.refreshing
    ensures Ids(r.list) == Ids(st.list)
    ensures Valid(st) ==> Valid(r)
    ensures IsKeyedReplace(st.list, item, r.list)
  {
    ReplaceKeepsIds(st.list, item);
    ReplaceMeetsReference(st.list, item, Replace(st.list, item));
    SetList(st, Replace(st.list, item))
  }

  /** A run of `updateContact` calls, applied in order. Each keeps the seed,
      the refreshing flag and the id sequence, so the run does too. */
  function UpdateAll(st: Store, items: seq<Contact>): (r: Store)
    ensures r.seed == st.seed && r.refreshing == st.refreshing
    ensures Ids(r.list) == Ids(st.list)
    decreases |items|
  {
    if |items| == 0 then st else UpdateAll(Update(st, items[0]), items[1..])
  }

  /** An update whose id is not in the list changes nothing. */
  lemma UpdateUnknownId(st: Store, item: Contact)
    requires !HasId(st.list, item.id)
    ensures Update(st, item) == st
  {
    ReplaceUnknownId(st.list, item);
  }

  /** The events the list screen reacts to. */
  datatype Event = Refreshed | Updated(item: Contact)

  /** One event; the seed and the store invariant are kept. */
  function Step(st: Store, e: Event): (r: Store)
    ensures r.seed == st.seed
    ensures Valid(st) ==> Valid(r)
  {
    match e
    case Refreshed => Refresh(st)
    case Updated(item) => Update(st, item)
  }

  /** A sequence of events, applied in order. */
  function Run(st: Store, events: seq<Event>): Store
    decreases |events|
  {
    if |events| == 0 then st else Run(Step(st, events[0]), events[1..])
  }

  /** The mounted screen shows the seed and, for a seed with one record
      per id, meets the store invariant. */
  lemma InitValid(seed: seq<Contact>)
    requires UniqueIds(seed)
    ensures Valid(Init(seed))
    ensures Init(seed).list == seed
  {
  }

  /** Every event keeps the store invariant and the seed. */
  lemma {:induction false} RunKeepsValid(st: Store, events: seq<Event>)
    requires Valid(st)
    ensures Valid(Run(st, events))
    ensures Run(st, events).seed == st.seed
    decreases |events|
  {
    if |events| > 0 {
      RunKeepsValid(Step(st, events[0]), events[1..]);
    }
  }

  /** The seed survives any sequence of events. */
  lemma {:induction false} RunKeepsSeed(st: Store, events: seq<Event>)
    ensures Run(st, events).seed == st.seed
    decreases |events|
  {
    if |events| > 0 {
      RunKeepsSeed(Step(st, events[0]), events[1..]);
    }
  }

  /** Whatever edits and refreshes came before, a refresh returns the
      screen to the state it mounted in. */
  lemma RefreshDiscardsEdits(seed: seq<Contact>, events: seq<Event>)
    ensures Refresh(Run(Init(seed), events)) == Init(seed)
  {
    RunKeepsSeed(Init(seed), events);
  }
}
