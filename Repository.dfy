/**
 * The persistence collaborator (a Spring Data JPA repository), reduced to
 * its observable contract: a table of users keyed by id and an identity
 * counter that hands out fresh ids on insert.
 */
module Repository {
  import opened Wrappers
  import opened Dates
  import opened Model

  /** `birthdate BETWEEN from AND to`: a null birthdate never matches. */
  predicate BirthdateBetween(u: User, from: Date, to: Date) {
    u.birthdate.Some? && !IsBefore(u.birthdate.value, from) && !IsBefore(to, u.birthdate.value)
  }

  /** A non-empty key set has a key to pick. */
  lemma NonEmptyHasMember(keys: set<Id>)
    requires keys != {}
    ensures exists k :: k in keys
  {
    if forall k :: k !in keys {
      assert false;
    }
  }

  /** Every stored value sits under some key. */
  lemma StoredUnderSomeKey(users: map<Id, User>, u: User)
    requires u in users.Values
    ensures exists k :: k in users && users[k] == u
  {
    if forall k :: k in users ==> users[k] != u {
      assert false;
    }
  }

  class UserRepository {
    var users: map<Id, User>
    var nextId: Id

    /** Each row is stored under its own id, and the counter is above every id in use. */
    ghost predicate Valid()
      reads this
    {
      forall k :: k in users ==> k < nextId && users[k].id == Some(k)
    }

    constructor ()
      ensures Valid() && users == map[] && nextId == 1
    {
      users := map[];
      nextId := 1;
    }

    /** `findById`. */
    function FindById(id: Id): (r: Option<User>)
      reads this
      ensures r.Some? <==> id in users
      ensures r.Some? ==> r.value == users[id]
    {
      if id in users then Some(users[id]) else None
    }

    /** `findByEmail`: some stored user with that email, or none when no row has it. */
    method FindByEmail(email: string) returns (r: Option<User>)
      ensures r.Some? ==> r.value in users.Values && r.value.email == Some(email)
      ensures r.None? <==> forall k :: k in users ==> users[k].email != Some(email)
    {
      var pending := users.Keys;
      while pending != {}
        invariant pending <= users.Keys
        invariant forall k :: k in users && k !in pending ==> users[k].email != Some(email)
        decreases pending
      {
        NonEmptyHasMember(pending);
        var k :| k in pending;
        if users[k].email == Some(email) {
          return Some(users[k]);
        }
        pending := pending - {k};
      }
      return None;
    }

    /**
     * `findByBirthdateBetween`: every stored user whose birthdate lies in
     * [from, to], each exactly once, in no particular order.
     */
    method FindByBirthdateBetween(from: Date, to: Date) returns (r: seq<User>)
      requires Valid()
      ensures forall u :: u in r <==> u in users.Values && BirthdateBetween(u, from, to)
      ensures forall i, j :: 0 <= i < j < |r| ==> r[i] != r[j]
    {
      r := [];
      var pending := users.Keys;
      while pending != {}
        invariant pending <= users.Keys
        invariant forall u :: u in r ==> u in users.Values && BirthdateBetween(u, from, to)
        invariant forall u :: u in r ==> u.id.Some? && u.id.value in users && u.id.value !in pending
        invariant forall k :: k in users && k !in pending && BirthdateBetween(users[k], from, to) ==> users[k] in r
        invariant forall i, j :: 0 <= i < j < |r| ==> r[i] != r[j]
        decreases pending
      {
        NonEmptyHasMember(pending);
        var k :| k in pending;
        if BirthdateBetween(users[k], from, to) {
          r := r + [users[k]];
        }
        pending := pending - {k};
      }
      forall u | u in users.Values && BirthdateBetween(u, from, to)
        ensures u in r
      {
        StoredUnderSomeKey(users, u);
      }
    }

    /**
     * `save`: a user without an id is inserted under a fresh id; a user with
     * an id is written under that id, replacing any row there.
     */
    method Save(user: User) returns (saved: User)
      requires Valid()
      modifies this
      ensures Valid()
      ensures saved.id.Some?
      ensures saved == user.(id := saved.id)
      ensures user.id.Some? ==> saved == user
      ensures user.id.None? ==> saved.id.value !in old(users)
      ensures users == old(users)[saved.id.value := saved]
      ensures saved.id.value in old(users) ==> nextId == old(nextId)
    {
      var id := if user.id.Some? then user.id.value else nextId;
      saved := user.(id := Some(id));
      users := users[id := saved];
      if id >= nextId {
        nextId := id + 1;
      }
    }

    /** `deleteById`: removes the row if there is one; an absent id is not an error. */
    method DeleteById(id: Id)
      requires Valid()
      modifies this
      ensures Valid()
      ensures users == old(users) - {id} && nextId == old(nextId)
    {
      users := users - {id};
    }
  }
}
