/**
 * The roster store: the `users` table, held in memory, with the operations
 * the screens perform on it. Each record is a value addressed by its
 * primary key; an operation that changes a record replaces it in the table.
 */
module RosterStore {
  import opened Collaborators
  import opened DisplayOrder
  import opened ClipboardReport

  class Roster {
    /** The rows of the table in insertion order. */
    var users: seq<User>

    ghost predicate Valid()
      reads this
    {
      WellFormed(users)
    }

    /** An empty table. */
    constructor ()
      ensures Valid() && users == []
    {
      users := [];
    }

    /**
     * Inserts a collaborator called `name` at time `now` and commits. The
     * unique constraint on `name` rejects a name already in the table, and
     * the table is then as it was. The name is not checked for emptiness
     * here: that is the registration form's job.
     */
    method Add(name: string, now: Timestamp) returns (r: Result<User>)
      requires Valid()
      modifies this
      ensures Valid()
      ensures NameTaken(old(users), name) ==> r == Err(DuplicateName) && users == old(users)
      ensures !NameTaken(old(users), name) ==>
        r == Ok(User(NextId(old(users)), name, now, false, None)) &&
        users == old(users) + [r.value]
    {
      if NameTaken(users, name) {
        r := Err(DuplicateName);
      } else {
        var u := User(NextId(users), name, now, false, None);
        users := users + [u];
        r := Ok(u);
      }
    }

    /**
     * The registration form's button: an empty name is refused before the
     * store is touched; any other name is inserted as by Add.
     */
    method Register(name: string, now: Timestamp) returns (r: Result<User>)
      requires Valid()
      modifies this
      ensures Valid()
      ensures name == "" ==> r == Err(EmptyName) && users == old(users)
      ensures name != "" && NameTaken(old(users), name) ==> r == Err(DuplicateName) && users == old(users)
      ensures name != "" && !NameTaken(old(users), name) ==>
        r == Ok(User(NextId(old(users)), name, now, false, None)) &&
        users == old(users) + [r.value]
    {
      if name == "" {
        r := Err(EmptyName);
      } else {
        r := Add(name, now);
      }
    }

    /**
     * The away checkbox: sets the flag of the record with key `id` to
     * `value` and commits. No other field and no other record changes.
     */
    method SetAway(id: nat, value: bool) returns (r: Result<User>)
      requires Valid()
      modifies this
      ensures Valid()
      ensures Find(old(users), id).None? ==> r == Err(NotFound) && users == old(users)
      ensures Find(old(users), id).Some? ==>
        var i := Find(old(users), id).value;
        users == old(users)[i := old(users)[i].(afastado := value)] &&
        r == Ok(users[i])
    {
      match Find(users, id)
      case None =>
        r := Err(NotFound);
      case Some(i) =>
        var u := users[i].(afastado := value);
        users := users[i := u];
        r := Ok(u);
    }

    /**
     * The dismissal button: records `now` as the dismissal time of the
     * record with key `id`, replacing any earlier one, and commits. The
     * away flag, the other fields and the other records do not change.
     */
    method MarkDismissal(id: nat, now: Timestamp) returns (r: Result<User>)
      requires Valid()
      modifies this
      ensures Valid()
      ensures Find(old(users), id).None? ==> r == Err(NotFound) && users == old(users)
      ensures Find(old(users), id).Some? ==>
        var i := Find(old(users), id).value;
        users == old(users)[i := old(users)[i].(dataDispensa := Some(now))] &&
        r == Ok(users[i])
    {
      match Find(users, id)
      case None =>
        r := Err(NotFound);
      case Some(i) =>
        var u := users[i].(dataDispensa := Some(now));
        users := users[i := u];
        r := Ok(u);
    }

    /** The list screen's query: every record, in an order the sort key allows. */
    method LoadDisplayList() returns (r: seq<User>)
      ensures IsDisplayOrder(users, r)
    {
      r := OrderForDisplay(users);
    }

    /**
     * The "Copiar" button: queries the records that are not away and builds
     * the clipboard text line by line.
     */
    method CopyToClipboard(today: Date) returns (text: string)
      ensures text == Report(users, today)
    {
      var active := Active(users);
      var header := Header(today);
      text := header;
      for i := 0 to |active|
        invariant text == header + Lines(active[..i], 1)
      {
        ListingStep(header, active, i);
        text := text + Line(i + 1, active[i].name);
      }
      assert active[..|active|] == active;
    }
  }

  /**
   * Pressing the dismissal button twice keeps only the second time: the
   * table ends as if the button had been pressed once, at `second`.
   */
  method DismissTwice(store: Roster, id: nat, first: Timestamp, second: Timestamp)
    requires store.Valid() && Find(store.users, id).Some?
    modifies store
    ensures store.Valid()
    ensures var i := Find(old(store.users), id).value;
      store.users == old(store.users)[i := old(store.users)[i].(dataDispensa := Some(second))]
  {
    ghost var i := Find(store.users, id).value;
    var _ := store.MarkDismissal(id, first);
    FindUnique(store.users, id, i);
    var _ := store.MarkDismissal(id, second);
  }

  /**
   * Ticking a collaborator's away box and reloading the list shows that
   * collaborator after every active one, whatever its dismissal date.
   */
  method MarkAwayAndReload(store: Roster, id: nat) returns (r: seq<User>, k: nat)
    requires store.Valid() && Find(store.users, id).Some?
    modifies store
    ensures store.Valid() && IsDisplayOrder(store.users, r)
    ensures k < |r| && r[k].id == id && r[k].afastado
    ensures forall j :: 0 <= j < |r| && !r[j].afastado ==> j < k
  {
    var u := store.SetAway(id, true);
    r := store.LoadDisplayList();
    assert u.value in multiset(r);
    k :| 0 <= k < |r| && r[k] == u.value;
    forall j | 0 <= j < |r| && !r[j].afastado
      ensures j < k
    {
      ActiveBeforeAway(r, j, k);
    }
  }
}
