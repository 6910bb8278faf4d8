/**
 * Login by CNIC. A CNIC logs in only when it is on the allow-list; the user
 * record for it is fetched, or created on the first login. The session
 * keeps the user's id only, and every request looks the user up again.
 */
module Auth {
  import opened Wrappers
  import opened Schema
  import opened Storage
  import opened Http

  const NotAuthorized := "Your CNIC is not authorized"

  /** What the login check hands back to the session layer. */
  datatype LoginResult = Denied(message: string) | Accepted(user: User)

  /** The session entry for a logged-in user: its id. */
  function SerializeUser(u: User): Session
  {
    Session(Some(u.id))
  }

  /** The caller of a request: the session's user as the store holds it now.
      A session without a user carries no one. A session whose id the store
      does not know is given no one as well; with this store that state is
      never reached, since sessions come only from logins of stored users
      and no user is ever removed. */
  function CallerOf(s: Session, users: map<int, User>): (c: Caller)
    ensures c.SignedIn? <==> s.userId.Some? && s.userId.value in users
    ensures c.SignedIn? ==> c.user == users[s.userId.value]
  {
    if s.userId.Some? && s.userId.value in users then SignedIn(users[s.userId.value])
    else Anonymous
  }

  /** Serializing a user and resolving the session again yields the record
      the store holds for that id at the time of the request. */
  lemma SessionRoundTrip(u: User, users: map<int, User>)
    ensures CallerOf(SerializeUser(u), users) ==
            if u.id in users then SignedIn(users[u.id]) else Anonymous
  {
  }

  /** Resolves the session of a request by reading the store. */
  method ResolveSession(store: MemStorage, s: Session) returns (c: Caller)
    requires store.Valid()
    ensures c == CallerOf(s, store.users)
  {
    if s.userId.None? {
      return Anonymous;
    }
    var found := store.GetUser(s.userId.value);
    c := if found.Some? then SignedIn(found.value) else Anonymous;
  }

  /** The login check. The password takes no part in the decision: the
      contract fixes the result from the CNIC and the store alone. */
  method Verify(store: MemStorage, cnic: string, password: string) returns (r: LoginResult)
    requires store.Valid()
    modifies store
    ensures store.Valid()
    ensures cnic !in old(store.authorizedCnics) ==> r == Denied(NotAuthorized) && unchanged(store)
    ensures cnic in old(store.authorizedCnics) && !NoMatch(old(store.users), ByCnic(cnic)) ==>
      r.Accepted? && IsFirstMatch(old(store.users), ByCnic(cnic), r.user) && unchanged(store)
    ensures cnic in old(store.authorizedCnics) && NoMatch(old(store.users), ByCnic(cnic)) ==>
      r == Accepted(User(old(store.currentUserId), None, None, cnic, None)) && store.UserAdded(r.user)
    ensures r.Accepted? ==> r.user.cnic == cnic && IsFirstMatch(store.users, ByCnic(cnic), r.user)
    ensures UsersUnique(old(store.users)) ==> UsersUnique(store.users)
  {
    var authorized := store.GetAuthorizedCnic(cnic);
    if !authorized {
      return Denied(NotAuthorized);
    }
    var found := store.GetUserByCnic(cnic);
    var user: User;
    if found.Some? {
      user := found.value;
    } else {
      user := store.CreateUser(InsertUser(None, None, cnic));
      if UsersUnique(old(store.users)) {
        InsertKeepsUnique(old(store.users), user);
      }
      assert forall k :: k in store.users && k < user.id ==> !HasKey(store.users[k], ByCnic(cnic));
    }
    return Accepted(user);
  }

  /** The login route: a denied CNIC gets 401 and the session stays as it
      was; an accepted one gets 200 with the user, and the session then
      resolves to that user. */
  method HandleLogin(store: MemStorage, s: Session, cnic: string, password: string)
    returns (resp: Response, after: Session)
    requires store.Valid()
    modifies store
    ensures store.Valid()
    ensures cnic !in old(store.authorizedCnics) <==> resp.status == 401
    ensures resp.status == 401 ==> resp.body == NoBody && after == s && unchanged(store)
    ensures resp.status != 401 ==>
      && resp.status == 200
      && resp.body.UserJson?
      && resp.body.user.cnic == cnic
      && after == SerializeUser(resp.body.user)
      && CallerOf(after, store.users) == SignedIn(resp.body.user)
      && IsFirstMatch(store.users, ByCnic(cnic), resp.body.user)
      && (!NoMatch(old(store.users), ByCnic(cnic)) ==> unchanged(store))
      && (NoMatch(old(store.users), ByCnic(cnic)) ==> store.UserAdded(resp.body.user))
      && (NoMatch(old(store.users), ByCnic(cnic)) ==>
            resp.body.user == User(old(store.currentUserId), None, None, cnic, None))
    ensures UsersUnique(old(store.users)) ==> UsersUnique(store.users)
  {
    var r := Verify(store, cnic, password);
    if r.Denied? {
      return Response(401, NoBody), s;
    }
    return Response(200, UserJson(r.user)), SerializeUser(r.user);
  }

  /** Logging out drops the user from the session. */
  function HandleLogout(s: Session): (r: (Response, Session))
    ensures r.0.status == 200
    ensures forall users: map<int, User> :: CallerOf(r.1, users) == Anonymous
  {
    (Response(200, NoBody), Session(None))
  }

  /** The current-user route: 401 without a logged-in user, otherwise the
      user as the store holds it now. */
  function HandleCurrentUser(s: Session, users: map<int, User>): (r: Response)
    ensures r.status == 401 <==> !(s.userId.Some? && s.userId.value in users)
    ensures r.status != 401 ==> r == Response(200, UserJson(users[s.userId.value]))
  {
    match CallerOf(s, users)
    case Anonymous => Response(401, NoBody)
    case SignedIn(u) => Response(200, UserJson(u))
  }

  /** Get-or-create: two logins with the same allow-listed CNIC, whatever
      passwords they give, yield the same user, and at most one user is
      created between them. */
  method LoginTwice(store: MemStorage, cnic: string, first: string, second: string)
    returns (r1: LoginResult, r2: LoginResult)
    requires store.Valid()
    requires cnic in store.authorizedCnics
    modifies store
    ensures r1.Accepted? && r2.Accepted? && r1.user == r2.user
    ensures |store.users| <= |old(store.users)| + 1
  {
    r1 := Verify(store, cnic, first);
    r2 := Verify(store, cnic, second);
    FirstMatchUnique(store.users, ByCnic(cnic), r1.user, r2.user);
    if store.users != old(store.users) {
      assert store.users == old(store.users)[r1.user.id := r1.user];
    }
  }
}
