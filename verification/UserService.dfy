/**
  UserService over the in-memory store.
*/
module UserService {
  import opened Bytes
  import opened UserTable
  import opened UserStore
  import opened UserHistory

  datatype CreateUserRequest = CreateUserRequest(username: string, email: string, password: string, displayName: string)

  datatype UpdateUserRequest = UpdateUserRequest(email: string, displayName: string, status: string)

  datatype SvcErr = Ok | PasswordTooShort | StoreErr(e: Err) | BadCredentials | Disabled | TokenFailed

  datatype Token = Token(text: string, expires: int)

  const MIN_PASSWORD := 8

  /** A record with everything else left at its zero value. */
  function Blank(id: string): Record {
    Record(id, "", "", "", "", "", false, "", "", 0, 0)
  }

  /** HashPassword stores the password as it is. */
  function NewRecord(req: CreateUserRequest, id: string): Record {
    Blank(id).(username := req.username, email := req.email, passwordHash := req.password,
               displayName := req.displayName, status := ACTIVE)
  }

  function Change(id: string, req: UpdateUserRequest): Record {
    Blank(id).(email := req.email, displayName := req.displayName, status := req.status)
  }

  function Presence(id: string, online: bool): Record {
    Blank(id).(isOnline := online)
  }

  function FromErr(e: Option<Err>): SvcErr {
    match e
    case None => Ok
    case Some(x) => StoreErr(x)
  }

  // ---------- What the requests ask of the store, field by field ----------

  /** Only the user's presence, and its time of change, are written. */
  ghost predicate PresenceSet(s: Store, s': Store, id: string, online: bool, now: int) {
    && id in s.users
    && s' == s.(users := s.users[id := s.users[id].(isOnline := online, updatedAt := now)])
    && OnlineIds(s') == if online then OnlineIds(s) + {id} else OnlineIds(s) - {id}
  }

  lemma PresenceEffect(s: Store, id: string, online: bool, now: int)
    ensures var (s', e) := UpdateEffect(s, Presence(id, online), now);
      if Live(s.users, id) then e == None && PresenceSet(s, s', id, online, now)
      else e == Some(UserNotFound) && s' == s
  {
    var (s', e) := UpdateEffect(s, Presence(id, online), now);
    if e == None {
      UpdateSets(s, Presence(id, online), now);
      assert forall j | j in s.users && j != id :: s'.users[j] == s.users[j];
    }
  }

  /** Empty fields of the request keep what is stored; the presence does not survive. */
  ghost predicate Changed(r: Record, r': Record, req: UpdateUserRequest, now: int) {
    r' == r.(
      email := if req.email == "" then r.email else req.email,
      displayName := if req.displayName == "" then r.displayName else req.displayName,
      status := if req.status == "" then r.status else req.status,
      isOnline := false,
      updatedAt := now)
  }

  predicate EmailRefused(s: Store, id: string, email: string)
    requires Live(s.users, id)
  {
    email != "" && email != s.users[id].email && email in s.byEmail
  }

  lemma ChangeEffect(s: Store, id: string, req: UpdateUserRequest, now: int)
    ensures var (s', e) := UpdateEffect(s, Change(id, req), now);
      if !Live(s.users, id) then e == Some(UserNotFound) && s' == s
      else if EmailRefused(s, id, req.email) then e == Some(UserAlreadyExists) && s' == s
      else e == None && id in s'.users && s'.users == s.users[id := s'.users[id]] && Changed(s.users[id], s'.users[id], req, now)
  {
  }

  lemma ChangedIsLive(s: Store, s': Store, id: string, req: UpdateUserRequest, now: int)
    ensures Live(s.users, id) && id in s'.users && Changed(s.users[id], s'.users[id], req, now) ==>
              GetByID(s', id) == if req.status == "deleted" then None else Some(s'.users[id])
  {
  }

  /** A user whose status is set to anything but "active" or "deleted" is turned away, whatever the password. */
  lemma DisabledByUpdate(s: Store, id: string, req: UpdateUserRequest, now: int, password: string)
    requires Agree(s) && UpdateEffect(s, Change(id, req), now).1 == None
    requires req.status != "" && req.status != "active" && req.status != "deleted"
    ensures Verify(UpdateEffect(s, Change(id, req), now).0, s.users[id].username, password) == UserDisabled
  {
    StepRefines(s, Update(Change(id, req), now));
    var s' := UpdateEffect(s, Change(id, req), now).0;
    ChangeEffect(s, id, req, now);
    VerifyOutcomes(s', s.users[id].username, password);
    hide Agree, UpdateEffect, Verify;
    assert LiveWithUsername(s'.users, id, s.users[id].username);
  }

  /** The user of the request, found by username and password and under its email. */
  ghost predicate CanLogIn(s: Store, req: CreateUserRequest, id: string, now: int) {
    && id in s.users
    && s.users[id] == Record(id, req.username, req.email, req.password, req.displayName, "active", false, "", "", now, now)
    && Verify(s, req.username, req.password) == Verified(s.users[id])
    && GetByEmail(s, req.email) == Some(s.users[id])
  }

  /** A created user can log in with the credentials of the request, and is found under its email. */
  lemma CreatedCanLogIn(s: Store, req: CreateUserRequest, id: string, now: int)
    ensures var (s', e) := CreateEffect(s, NewRecord(req, id), now);
      && e == (if req.username in s.byUsername || req.email in s.byEmail then Some(UserAlreadyExists) else None)
      && (e == None && Agree(s) && id !in s.users ==> CanLogIn(s', req, id, now))
  {
    if CreateEffect(s, NewRecord(req, id), now).1 == None { CreateSets(s, NewRecord(req, id), now); }
  }

  lemma VerifiedPresence(s: Store, username: string, password: string, now: int)
    ensures Agree(s) && Verify(s, username, password).Verified? ==>
              var id := Verify(s, username, password).user.id;
              PresenceSet(s, UpdateEffect(s, Presence(id, true), now).0, id, true, now)
  {
    if Agree(s) && Verify(s, username, password).Verified? {
      PresenceEffect(s, Verify(s, username, password).user.id, true, now);
    }
  }

  class UserService {
    const userStore: MemoryStore

    constructor (userStore: MemoryStore)
      ensures this.userStore == userStore
    {
      this.userStore := userStore;
    }

    /** The id is the UUID generator's. */
    method CreateUser(req: CreateUserRequest, id: string, now: int) returns (user: User?, err: SvcErr)
      modifies userStore
      ensures |req.password| < 8 ==> err == PasswordTooShort && userStore.State() == old(userStore.State())
      ensures |req.password| >= 8 ==>
                && userStore.State() == CreateEffect(old(userStore.State()), NewRecord(req, id), now).0
                && err == if req.username in old(userStore.byUsername) || req.email in old(userStore.byEmail)
                          then StoreErr(UserAlreadyExists) else Ok
      ensures Agree(old(userStore.State())) && id !in old(userStore.State()).users && err == Ok ==>
                CanLogIn(userStore.State(), req, id, now)
      ensures user != null <==> err == Ok
      ensures user != null ==>
                fresh(user) && user !in userStore.Records() && user.Value() == Stamp(NewRecord(req, id), now)
      ensures fresh(userStore.Records() - old(userStore.Records()))
    {
      hide MemoryStore.Users, User.Value, CreateEffect, Agree, CanLogIn, NewRecord, Stamp;
      CreatedCanLogIn(userStore.State(), req, id, now);
      if |req.password| < MIN_PASSWORD {
        return null, PasswordTooShort;
      }
      var u := new User(NewRecord(req, id));
      userStore.Undisturbed();
      var e := userStore.Create(u, now);
      if e != None {
        return null, FromErr(e);
      }
      return u, Ok;
    }

    method UpdateUser(id: string, req: UpdateUserRequest, now: int) returns (user: User?, err: SvcErr)
      modifies userStore
      ensures userStore.State() == UpdateEffect(old(userStore.State()), Change(id, req), now).0
      ensures var s, s' := old(userStore.State()), userStore.State();
        if !Live(s.users, id) then s' == s && user == null && err == StoreErr(UserNotFound)
        else if EmailRefused(s, id, req.email) then s' == s && user == null && err == StoreErr(UserAlreadyExists)
        else
          && id in s'.users && s'.users == s.users[id := s'.users[id]] && Changed(s.users[id], s'.users[id], req, now)
          && if req.status == "deleted" then user == null && err == StoreErr(UserNotFound)
             else user != null && fresh(user) && user.Value() == s'.users[id] && err == Ok
      ensures fresh(userStore.Records() - old(userStore.Records()))
    {
      hide MemoryStore.Users, User.Value, UpdateEffect, GetByID, Changed, EmailRefused, Live, Change;
      ghost var s := userStore.State();
      ChangeEffect(s, id, req, now);
      ChangedIsLive(s, UpdateEffect(s, Change(id, req), now).0, id, req, now);
      var u := new User(Change(id, req));
      userStore.Undisturbed();
      var e := userStore.Update(u, now);
      if e != None {
        return null, FromErr(e);
      }
      user := userStore.GetByID(id);
      err := if user == null then StoreErr(UserNotFound) else Ok;
    }

    method VerifyCredentials(username: string, password: string) returns (user: User?, err: SvcErr)
      ensures match Verify(userStore.State(), username, password)
              case Verified(r) => err == Ok && user != null && fresh(user) && user.Value() == r
              case InvalidCredentials => err == BadCredentials && user == null
              case UserDisabled => err == Disabled && user == null
    {
      user := userStore.GetByUsername(username);
      if user == null {
        return null, BadCredentials;
      }
      ghost var u := user.Value();
      assert u.status == user.status && u.passwordHash == user.passwordHash;
      if user.status != ACTIVE {
        return null, Disabled;
      }
      if user.passwordHash != password {
        return null, BadCredentials;
      }
      err := Ok;
    }

    /** Presence is set before the token is made, and its failure is ignored.  `generate` is GenerateToken. */
    method Login(username: string, password: string, now: int, generate: (string, string) -> Option<Token>)
      returns (user: User?, token: Option<Token>, err: SvcErr)
      modifies userStore
      ensures match Verify(old(userStore.State()), username, password)
              case Verified(r) =>
                && userStore.State() == UpdateEffect(old(userStore.State()), Presence(r.id, true), now).0
                && (Agree(old(userStore.State())) ==> PresenceSet(old(userStore.State()), userStore.State(), r.id, true, now))
                && token == generate(r.id, r.username)
                && err == (if token != None then Ok else TokenFailed)
                && (token != None ==> user != null && fresh(user) && user.Value() == r.(isOnline := true))
              case InvalidCredentials => userStore.State() == old(userStore.State()) && err == BadCredentials
              case UserDisabled => userStore.State() == old(userStore.State()) && err == Disabled
      ensures err != Ok ==> user == null && token == None
    {
      hide MemoryStore.Users, UpdateEffect, Verify, Agree, PresenceSet;
      VerifiedPresence(userStore.State(), username, password, now);
      user, err := VerifyCredentials(username, password);
      userStore.Undisturbed();
      if err != Ok {
        return null, None, err;
      }
      ghost var r := user.Value();
      var p := new User(Presence(user.id, true));
      userStore.Undisturbed();
      var e := userStore.Update(p, now);
      label Updated:
      user.isOnline := true;
      assert user.Value() == r.(isOnline := true);
      userStore.Undisturbed@Updated();
      token := generate(user.id, user.username);
      if token == None {
        return null, None, TokenFailed;
      }
    }

    method Logout(userID: string, now: int) returns (err: SvcErr)
      modifies userStore
      ensures if Live(old(userStore.State()).users, userID)
              then err == Ok && PresenceSet(old(userStore.State()), userStore.State(), userID, false, now)
              else err == StoreErr(UserNotFound) && userStore.State() == old(userStore.State())
    {
      err := SetOnline(userID, false, now);
    }

    method SetOnline(userID: string, online: bool, now: int) returns (err: SvcErr)
      modifies userStore
      ensures if Live(old(userStore.State()).users, userID)
              then err == Ok && PresenceSet(old(userStore.State()), userStore.State(), userID, online, now)
              else err == StoreErr(UserNotFound) && userStore.State() == old(userStore.State())
    {
      hide MemoryStore.Users, User.Value, UpdateEffect, PresenceSet, Live;
      PresenceEffect(userStore.State(), userID, online, now);
      var p := new User(Presence(userID, online));
      userStore.Undisturbed();
      var e := userStore.Update(p, now);
      err := FromErr(e);
    }

    /** Exact while the first page of 10000 holds every live user; a lower bound beyond that. */
    method GetOnlineCount() returns (count: nat)
      ensures count <= |OnlineIds(userStore.State())|
      ensures |LiveIds(userStore.State())| <= 10000 ==> count == |OnlineIds(userStore.State())|
    {
      hide MemoryStore.Users, User.Value, ClonesOf, OnlineIds, LiveIds, OnlineAmong, Live;
      ghost var s := userStore.State();
      var page, total, panics, order := userStore.List(0, 10000);
      userStore.Undisturbed();
      assert userStore.State() == s;
      if page != [] { PageOnline(s, page, order[0..|page|]); }
      assert forall i | 0 <= i < |page| :: order[0..|page|][i] == order[i];
      count := CountOnline(page, s, order);
      PageIsAll(s, order, |page|);
    }
  }

  /** The counting loop of GetOnlineCount. */
  method CountOnline(users: seq<User>, ghost s: Store, ghost order: seq<string>) returns (count: nat)
    requires Distinct(order) && |users| <= |order|
    requires forall i | 0 <= i < |users| :: users[i].isOnline <==> order[i] in OnlineIds(s)
    ensures count == |OnlineAmong(s, order[..|users|])|
  {
    hide OnlineIds;
    count := 0;
    for i := 0 to |users|
      invariant count == |OnlineAmong(s, order[..i])|
    {
      OnlineNext(s, order, i);
      if users[i].isOnline {
        count := count + 1;
      }
    }
  }

  /** The users online among the given ids. */
  function OnlineAmong(s: Store, ids: seq<string>): set<string> {
    set id | id in ids && id in OnlineIds(s)
  }

  lemma PageOnline(s: Store, page: seq<User>, ids: seq<string>)
    requires ClonesOf(page, s.users, ids)
    ensures |page| == |ids| && forall i | 0 <= i < |page| :: page[i].isOnline <==> ids[i] in OnlineIds(s)
  {
    forall i | 0 <= i < |page| ensures page[i].isOnline <==> ids[i] in OnlineIds(s) {
      assert page[i].Value().isOnline == page[i].isOnline;
    }
  }

  lemma OnlineNext(s: Store, order: seq<string>, i: nat)
    requires Distinct(order) && i < |order|
    ensures |OnlineAmong(s, order[..i + 1])|
         == |OnlineAmong(s, order[..i])| + if order[i] in OnlineIds(s) then 1 else 0
  {
    hide OnlineIds;
    assert order[..i + 1] == order[..i] + [order[i]];
    assert order[i] !in order[..i];
    var before, after := OnlineAmong(s, order[..i]), OnlineAmong(s, order[..i + 1]);
    if order[i] in OnlineIds(s) {
      assert after == before + {order[i]};
    } else {
      assert after == before;
    }
  }

  lemma PageIsAll(s: Store, order: seq<string>, n: nat)
    requires Distinct(order) && forall id :: id in order <==> Live(s.users, id)
    requires n == if |order| < 10000 then |order| else 10000
    ensures |OnlineAmong(s, order[..n])| <= |OnlineIds(s)|
    ensures |LiveIds(s)| <= 10000 ==> OnlineAmong(s, order[..n]) == OnlineIds(s)
  {
    OrderCounts(order, LiveIds(s));
    CountSubset(OnlineAmong(s, order[..n]), OnlineIds(s));
    if |LiveIds(s)| <= 10000 {
      assert order[..n] == order;
    }
  }

  function LiveIds(s: Store): set<string> {
    set id | id in s.users && Live(s.users, id)
  }

  lemma {:induction false} CountSubset<T>(a: set<T>, b: set<T>)
    requires a <= b
    ensures |a| <= |b|
  {
    assert b == a + (b - a);
  }

  lemma {:induction false} OrderCounts(order: seq<string>, ids: set<string>)
    requires Distinct(order) && forall id :: id in order <==> id in ids
    ensures |order| == |ids|
    decreases |order|
  {
    if order != [] {
      var last := order[|order| - 1];
      var front := order[..|order| - 1];
      assert order == front + [last];
      assert last !in front;
      OrderCounts(front, ids - {last});
    } else {
      assert ids == {};
    }
  }

  /** As coded, a successful UpdateUser takes the user offline, whatever it was asked to change. */
  lemma UpdateUserGoesOffline(s: Store, id: string, req: UpdateUserRequest, now: int)
    requires UpdateEffect(s, Change(id, req), now).1 == None
    ensures id !in OnlineIds(UpdateEffect(s, Change(id, req), now).0)
  {
  }
}
