/**
  MemoryStore as an object: user records live on the heap, and callers hold records of their own.
  Every operation is proved against its effect on the three maps (UserTable).  No record of the store
  is ever a caller's record, and no record of the store is written after it has been published.
*/
module UserStore {
  import opened Bytes
  import opened UserTable

  class User {
    var id: string
    var username: string
    var email: string
    var passwordHash: string
    var displayName: string
    var status: string
    var isOnline: bool
    var externalID: string
    var sourceSystem: string
    var createdAt: int
    var updatedAt: int

    ghost function Value(): Record
      reads this
    {
      Record(id, username, email, passwordHash, displayName, status, isOnline, externalID, sourceSystem, createdAt, updatedAt)
    }

    constructor (r: Record)
      ensures Value() == r
    {
      id, username, email, passwordHash := r.id, r.username, r.email, r.passwordHash;
      displayName, status, isOnline := r.displayName, r.status, r.isOnline;
      externalID, sourceSystem, createdAt, updatedAt := r.externalID, r.sourceSystem, r.createdAt, r.updatedAt;
    }

    /** clone := *u */
    constructor Clone(u: User)
      ensures Value() == u.Value()
    {
      id, username, email, passwordHash := u.id, u.username, u.email, u.passwordHash;
      displayName, status, isOnline := u.displayName, u.status, u.isOnline;
      externalID, sourceSystem, createdAt, updatedAt := u.externalID, u.sourceSystem, u.createdAt, u.updatedAt;
    }

    /** What Create writes into the caller's record. */
    method Timestamp(now: int)
      modifies this`createdAt, this`updatedAt, this`status
      ensures Value() == Stamp(old(Value()), now)
    {
      createdAt := now;
      updatedAt := now;
      if status == "" {
        status := ACTIVE;
      }
    }

    /** The field assignments of Update, on its own copy of the existing record. */
    method Overwrite(user: User, now: int)
      requires user != this
      modifies this
      ensures Value() == Merge(old(Value()), user.Value(), now)
    {
      if user.email != "" && user.email != email {
        email := user.email;
      }
      if user.displayName != "" {
        displayName := user.displayName;
      }
      if user.status != "" {
        status := user.status;
      }
      isOnline := user.isOnline;
      updatedAt := now;
    }

    method Erase(now: int)
      modifies this
      ensures Value() == MarkDeleted(old(Value()), now)
    {
      status := DELETED;
      updatedAt := now;
    }
  }

  const MAX_INT64 := 0x7fff_ffff_ffff_ffff

  /** Go's int. */
  type int64 = x: int | -0x8000_0000_0000_0000 <= x <= MAX_INT64

  /** Addition with wrap-around. */
  function Add64(a: int64, b: int64): int64 {
    if a + b > MAX_INT64 then a + b - 0x1_0000_0000_0000_0000
    else if a + b < -0x8000_0000_0000_0000 then a + b + 0x1_0000_0000_0000_0000
    else a + b
  }

  ghost predicate Distinct(order: seq<string>) {
    forall i, j | 0 <= i < j < |order| :: order[i] != order[j]
  }

  lemma UpdateCases(s: Store, u: Record, now: int)
    requires Live(s.users, u.id)
    ensures var e, users' := s.users[u.id], s.users[u.id := Merge(s.users[u.id], u, now)];
      UpdateEffect(s, u, now) ==
        if u.email == "" || u.email == e.email then (s.(users := users'), None)
        else if u.email in s.byEmail then (s, Some(UserAlreadyExists))
        else (s.(users := users', byEmail := s.byEmail[u.email := u.id] - {e.email}), None)
  {
  }

  /** users are records of their own with the values stored under ids, which are live. */
  ghost predicate ClonesOf(users: seq<User>, t: Table, ids: seq<string>)
    reads users
  {
    |users| == |ids| && forall i | 0 <= i < |users| :: Live(t, ids[i]) && users[i].Value() == t[ids[i]]
  }

  class MemoryStore {
    var users: map<string, User>
    var byUsername: map<string, string>
    var byEmail: map<string, string>

    /** The records that belong to the store. */
    ghost function Records(): set<User>
      reads this`users
    {
      set id | id in users :: users[id]
    }

    ghost function Users(): Table
      reads this`users, Records()
    {
      map id | id in users :: users[id].Value()
    }

    ghost function State(): Store
      reads this, Records()
    {
      Store(Users(), byUsername, byEmail)
    }

    /** While the map and the records in it stay the same, so does the table. */
    twostate lemma Undisturbed()
      requires users == old(users) && forall o | o in old(Records()) :: unchanged(o)
      ensures Users() == old(Users()) && Records() == old(Records())
    {
    }

    constructor ()
      ensures State() == EMPTY && Records() == {}
    {
      users, byUsername, byEmail := map[], map[], map[];
    }

    /** Writes the timestamps and the default status into the caller's record, and stores a clone. */
    method Create(user: User, now: int) returns (err: Option<Err>)
      requires user !in Records()
      modifies this, user`createdAt, user`updatedAt, user`status
      ensures State() == CreateEffect(old(State()), old(user.Value()), now).0
      ensures err == CreateEffect(old(State()), old(user.Value()), now).1
      ensures user.Value() == if err == None then Stamp(old(user.Value()), now) else old(user.Value())
      ensures fresh(Records() - old(Records())) && user !in Records()
    {
      ghost var t, u := Users(), user.Value();
      assert u.id == user.id && u.username == user.username && u.email == user.email;
      assert Stamp(u, now).id == u.id;
      hide Users, Stamp, User.Value;
      if user.username in byUsername {
        return Some(UserAlreadyExists);
      }
      byUsername := byUsername[user.username := user.id];
      if user.email in byEmail {
        byUsername := byUsername - {user.username};
        Undisturbed();
        return Some(UserAlreadyExists);
      }
      byEmail := byEmail[user.email := user.id];
      user.Timestamp(now);
      var clone := new User.Clone(user);
      Undisturbed();
      Publish(user.id, clone);
      return None;
    }

    /** users.Store: the record becomes part of the store. */
    method Publish(id: string, record: User)
      modifies this`users
      ensures users == old(users)[id := record]
      ensures Users() == old(Users())[id := record.Value()]
      ensures Records() <= old(Records()) + {record}
    {
      users := users[id := record];
    }

    method GetByID(id: string) returns (user: User?)
      ensures user == null <==> UserTable.GetByID(State(), id) == None
      ensures user != null ==> fresh(user) && user.Value() == UserTable.GetByID(State(), id).value
    {
      if id !in users || users[id].status == DELETED {
        return null;
      }
      user := new User.Clone(users[id]);
    }

    method GetByUsername(username: string) returns (user: User?)
      ensures user == null <==> UserTable.GetByUsername(State(), username) == None
      ensures user != null ==> fresh(user) && user.Value() == UserTable.GetByUsername(State(), username).value
    {
      if username !in byUsername {
        return null;
      }
      user := GetByID(byUsername[username]);
    }

    method GetByEmail(email: string) returns (user: User?)
      ensures user == null <==> UserTable.GetByEmail(State(), email) == None
      ensures user != null ==> fresh(user) && user.Value() == UserTable.GetByEmail(State(), email).value
    {
      if email !in byEmail {
        return null;
      }
      user := GetByID(byEmail[email]);
    }

    /** Publishes a changed copy; the caller's record and the replaced one are left as they are. */
    method Update(user: User, now: int) returns (err: Option<Err>)
      modifies this
      ensures State() == UpdateEffect(old(State()), user.Value(), now).0
      ensures err == UpdateEffect(old(State()), user.Value(), now).1
      ensures fresh(Records() - old(Records()))
    {
      ghost var u, s := user.Value(), State();
      assert u.id == user.id && u.email == user.email;
      if user.id !in users {
        return Some(UserNotFound);
      }
      var existing := users[user.id];
      ghost var e := existing.Value();
      assert s.users[u.id] == e && e.status == existing.status && e.email == existing.email;
      if existing.status == DELETED {
        return Some(UserNotFound);
      }
      UpdateCases(s, u, now);
      ghost var t := Users();
      assert s.users == t;
      hide Users, Merge, User.Value, UpdateEffect;
      var updated := new User.Clone(existing);
      if user.email != "" && user.email != existing.email {
        if user.email in byEmail {
          Undisturbed();
          return Some(UserAlreadyExists);
        }
        byEmail := byEmail[user.email := user.id];
        byEmail := byEmail - {existing.email};
      }
      updated.Overwrite(user, now);
      Undisturbed();
      Publish(user.id, updated);
      return None;
    }

    /** Soft delete: publishes a copy marked deleted. */
    method Delete(id: string, now: int) returns (err: Option<Err>)
      modifies this`users
      ensures State() == DeleteEffect(old(State()), id, now).0
      ensures err == DeleteEffect(old(State()), id, now).1
      ensures fresh(Records() - old(Records()))
    {
      if id !in users || users[id].status == DELETED {
        return Some(UserNotFound);
      }
      ghost var t := Users();
      assert Live(State().users, id) && t[id] == users[id].Value();
      hide Users, MarkDeleted, User.Value;
      var updated := new User.Clone(users[id]);
      updated.Erase(now);
      Undisturbed();
      Publish(id, updated);
      return None;
    }

    /** The Range loop of List: clones of the live records, in whatever order Range visits the map. */
    method LiveClones() returns (all: seq<User>, ghost order: seq<string>)
      ensures Distinct(order) && forall id :: id in order <==> Live(Users(), id)
      ensures (forall i | 0 <= i < |all| :: fresh(all[i])) && ClonesOf(all, Users(), order)
    {
      ghost var t := Users();
      all, order := [], [];
      var todo := users.Keys;
      while todo != {}
        invariant todo <= users.Keys && Users() == t
        invariant Distinct(order) && forall id :: id in order <==> Live(t, id) && id !in todo
        invariant (forall i | 0 <= i < |all| :: fresh(all[i])) && ClonesOf(all, t, order)
        decreases |todo|
      {
        var id :| id in todo;
        todo := todo - {id};
        var u := users[id];
        assert t[id] == u.Value() && t[id].status == u.status;
        if u.status != DELETED {
          var clone := new User.Clone(u);
          all := all + [clone];
          order := order + [id];
        }
      }
    }

    /** One page of the live records.  The slice expression panics exactly if the page would begin before
        the records, or end before it begins; the latter through a negative limit or one that overflows. */
    method List(offset: int64, limit: int64) returns (page: seq<User>, total: nat, panics: bool, ghost order: seq<string>)
      ensures Distinct(order) && forall id :: id in order <==> Live(State().users, id)
      ensures total == |order|
      ensures panics <==> offset < total && (offset < 0 || limit < 0 || offset + limit > 0x7fff_ffff_ffff_ffff)
      ensures !panics ==>
                |page| == if offset >= total then 0 else if total - offset < limit then total - offset else limit
      ensures forall i | 0 <= i < |page| :: fresh(page[i])
      ensures page != [] ==> 0 <= offset && offset + |page| <= total && ClonesOf(page, State().users, order[offset..offset + |page|])
    {
      var all;
      all, order := LiveClones();
      total := |all|;
      if offset >= |all| {
        return [], total, false, order;
      }
      var end := Add64(offset, limit);
      if end > |all| {
        end := |all|;
      }
      if offset < 0 || end < offset {
        return [], total, true, order;
      }
      page, panics := all[offset..end], false;
      assert forall i | 0 <= i < |page| :: page[i] == all[offset + i];
      assert ClonesOf(page, Users(), order[offset..end]);
    }
  }
}
