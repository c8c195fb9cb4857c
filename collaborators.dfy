/**
 * The collaborator table: one record per collaborator, with the columns
 * `id`, `name`, `dataCreated`, `afastado` and `dataDispensa`, and the
 * integrity rules the table enforces (primary key, unique name).
 */
module Collaborators {

  /** A point in time; the column type is a naive date-time, modelled by its ticks. */
  type Timestamp = int

  datatype Option<T> = None | Some(value: T)

  /** One row of the `users` table. */
  datatype User = User(
    id: nat,                          // primary key, assigned by the store
    name: string,                     // unique, not null
    dataCreated: Timestamp,           // set once, at insertion
    afastado: bool,                   // "away" flag, false on insertion
    dataDispensa: Option<Timestamp>   // dismissal time, null on insertion
  )

  /** The ways an operation on the store can fail. */
  datatype StoreError =
    | DuplicateName   // the unique constraint on `name` rejected an insert
    | EmptyName       // the registration form was submitted with no name
    | NotFound        // no record carries the requested id

  datatype Result<T> = Ok(value: T) | Err(error: StoreError)

  /** Some record of `users` is called `name`. */
  predicate NameTaken(users: seq<User>, name: string)
  {
    exists i :: 0 <= i < |users| && users[i].name == name
  }

  /** Primary keys are positive and appear in insertion (increasing) order. */
  predicate IdsIncreasing(users: seq<User>)
  {
    (forall i :: 0 <= i < |users| ==> users[i].id >= 1) &&
    (forall i, j :: 0 <= i < j < |users| ==> users[i].id < users[j].id)
  }

  /** No two records share a name (the unique constraint on `name`). */
  predicate NamesUnique(users: seq<User>)
  {
    forall i, j :: 0 <= i < j < |users| ==> users[i].name != users[j].name
  }

  /** The integrity rules of the table. */
  predicate WellFormed(users: seq<User>)
  {
    IdsIncreasing(users) && NamesUnique(users)
  }

  /**
   * The key SQLite gives a new row of an integer primary key column without
   * AUTOINCREMENT: one more than the largest key in use, or 1 in an empty table.
   */
  function NextId(users: seq<User>): (id: nat)
    requires IdsIncreasing(users)
    ensures id >= 1
    ensures forall i :: 0 <= i < |users| ==> users[i].id < id
  {
    if users == [] then 1 else users[|users| - 1].id + 1
  }

  /** The position of the record whose primary key is `id`, if there is one. */
  function Find(users: seq<User>, id: nat): (r: Option<nat>)
    ensures r.Some? ==> r.value < |users| && users[r.value].id == id
    ensures r.None? ==> forall i :: 0 <= i < |users| ==> users[i].id != id
  {
    if users == [] then None
    else if users[0].id == id then Some(0)
    else match Find(users[1..], id)
      case None => None
      case Some(k) => Some(k + 1)
  }

  /** In a well-formed table the primary key identifies at most one position. */
  lemma {:induction false} FindUnique(users: seq<User>, id: nat, i: nat)
    requires IdsIncreasing(users)
    requires i < |users| && users[i].id == id
    ensures Find(users, id) == Some(i)
  {
    if i > 0 {
      assert users[0].id < users[i].id;
      var rest := users[1..];
      assert rest[i - 1] == users[i];
      FindUnique(rest, id, i - 1);
    }
  }
}
