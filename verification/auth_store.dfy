/** The in-memory authentication endpoints: users indexed by email, users
    indexed by bearer token, and a user-id counter. Each endpoint is a
    function from the store to the next store and the response or error. */
module AuthStore {
  import opened Wrappers
  import opened PyText

  datatype UserRecord = UserRecord(id: int, email: string, password: string)

  /** `_USERS_BY_EMAIL`, `_USERS_BY_TOKEN` and `_NEXT_USER_ID`. */
  datatype Store = Store(usersByEmail: map<string, UserRecord>, usersByToken: map<string, UserRecord>, nextUserId: int)

  const Initial: Store := Store(map[], map[], 1)

  /** The store after a request, and the request's response or error. */
  datatype Step<T> = Step(store: Store, outcome: Result<T, HttpError>)

  /** The `/me` response. */
  datatype Me = Me(id: int, email: string)

  const BearerPrefix: string := "Bearer "

  /** A character `secrets.token_urlsafe` can produce (URL-safe base64). */
  predicate IsUrlSafeChar(c: char) {
    ('A' <= c <= 'Z') || ('a' <= c <= 'z') || ('0' <= c <= '9') || c == '-' || c == '_'
  }

  /** A value of `secrets.token_urlsafe(24)`: 24 random bytes in URL-safe
      base64 without padding, i.e. 32 such characters. */
  predicate IsUrlSafeToken(t: string) {
    |t| == 32 && forall i :: 0 <= i < |t| ==> IsUrlSafeChar(t[i])
  }

  /** The user record stored under its own email. */
  predicate Registered(s: Store, u: UserRecord) {
    u.email in s.usersByEmail && s.usersByEmail[u.email] == u
  }

  /** What the endpoints maintain: every user is stored under its own email
      with an id below the counter, ids are distinct, and every token names a
      registered user. */
  predicate Valid(s: Store) {
    && s.nextUserId >= 1
    && (forall e :: e in s.usersByEmail ==> s.usersByEmail[e].email == e && 1 <= s.usersByEmail[e].id < s.nextUserId)
    && (forall e1, e2 :: e1 in s.usersByEmail && e2 in s.usersByEmail && e1 != e2 ==>
          s.usersByEmail[e1].id != s.usersByEmail[e2].id)
    && (forall t :: t in s.usersByToken ==> Registered(s, s.usersByToken[t]))
  }

  /** `_issue_token(user)`; `token` is the value `secrets.token_urlsafe`
      returned. It is stored as is: a clash with an existing token would
      overwrite that token's user. */
  function IssueToken(s: Store, user: UserRecord, token: string): (s': Store)
    ensures token in s'.usersByToken && s'.usersByToken[token] == user
    ensures s'.usersByToken.Keys == s.usersByToken.Keys + {token}
    ensures forall t :: t in s.usersByToken && t != token ==> s'.usersByToken[t] == s.usersByToken[t]
    ensures s'.usersByEmail == s.usersByEmail && s'.nextUserId == s.nextUserId
  {
    s.(usersByToken := s.usersByToken[token := user])
  }

  /** The token a header carries: what follows "Bearer ", stripped. It is
      a slice of the header after the prefix with only whitespace around it,
      and neither starts nor ends with whitespace. */
  function BearerToken(header: string): (t: string)
    ensures t != [] ==> !IsSpace(t[0]) && !IsSpace(t[|t| - 1])
    ensures StartsWith(header, BearerPrefix) ==>
      var lo := |BearerPrefix| + StripStart(header[|BearerPrefix|..]);
      && lo + |t| <= |header|
      && t == header[lo..lo + |t|]
      && (forall i :: |BearerPrefix| <= i < lo ==> IsSpace(header[i]))
      && (forall i :: lo + |t| <= i < |header| ==> IsSpace(header[i]))
  {
    var t := Strip(RemovePrefix(header, BearerPrefix));
    if StartsWith(header, BearerPrefix) then
      StrippedSuffix(header, |BearerPrefix|);
      t
    else
      t
  }

  /** Stripping the part of s after offset n leaves a piece of s with only
      whitespace between n and it, and only whitespace after it. */
  lemma StrippedSuffix(s: string, n: nat)
    requires n <= |s|
    ensures var t, lo := Strip(s[n..]), n + StripStart(s[n..]);
      && lo + |t| <= |s|
      && t == s[lo..lo + |t|]
      && (forall i :: n <= i < lo ==> IsSpace(s[i]))
      && (forall i :: lo + |t| <= i < |s| ==> IsSpace(s[i]))
  {
    var rest := s[n..];
    var t, m := Strip(rest), StripStart(rest);
    assert t == rest[m..m + |t|];
    assert rest[m..m + |t|] == s[n + m..n + m + |t|];
    forall i | n <= i < n + m
      ensures IsSpace(s[i])
    {
      assert s[i] == rest[i - n];
    }
    forall i | n + m + |t| <= i < |s|
      ensures IsSpace(s[i])
    {
      assert s[i] == rest[i - n];
    }
  }

  /** `_get_current_user(authorization)`. A missing header, or one without
      the "Bearer " prefix, is 401 "Not authenticated"; a token the store does
      not know is 401 "Invalid token"; otherwise the token's user. */
  function CurrentUser(s: Store, authorization: Option<string>): (r: Result<UserRecord, HttpError>)
    ensures r.Ok? <==>
      authorization.Some? && StartsWith(authorization.value, BearerPrefix) && BearerToken(authorization.value) in s.usersByToken
    ensures r.Ok? ==> r.value == s.usersByToken[BearerToken(authorization.value)]
    ensures authorization.None? || !StartsWith(authorization.value, BearerPrefix) ==>
      r == Err(HttpError(Unauthorized, "Not authenticated"))
    ensures r.Err? && authorization.Some? && StartsWith(authorization.value, BearerPrefix) ==>
      r == Err(HttpError(Unauthorized, "Invalid token"))
  {
    if authorization.None? || authorization.value == "" || !StartsWith(authorization.value, BearerPrefix) then
      Err(HttpError(Unauthorized, "Not authenticated"))
    else
      var token := BearerToken(authorization.value);
      if token !in s.usersByToken then Err(HttpError(Unauthorized, "Invalid token"))
      else Ok(s.usersByToken[token])
  }

  /** `signup(payload)`; `token` is the value the token generator returns. An
      email already registered is 400 "User already exists" and changes
      nothing; otherwise the user gets the counter as id, the counter moves
      on, the email and the new token map to the user, and the token is
      returned. */
  function Signup(s: Store, email: string, password: string, token: string): (r: Step<string>)
    ensures email in s.usersByEmail <==> r.outcome.Err?
    ensures r.outcome.Err? ==> r == Step(s, Err(HttpError(BadRequest, "User already exists")))
    ensures r.outcome.Ok? ==>
      var user := UserRecord(s.nextUserId, email, password);
      && r.outcome.value == token
      && r.store.nextUserId == s.nextUserId + 1
      && r.store.usersByEmail == s.usersByEmail[email := user]
      && r.store.usersByToken == s.usersByToken[token := user]
  {
    if email in s.usersByEmail then Step(s, Err(HttpError(BadRequest, "User already exists")))
    else
      var user := UserRecord(s.nextUserId, email, password);
      var s1 := s.(nextUserId := s.nextUserId + 1, usersByEmail := s.usersByEmail[email := user]);
      Step(IssueToken(s1, user, token), Ok(token))
  }

  /** `login(payload)`: an unknown email or a different password is 401
      "Invalid credentials" and changes nothing; otherwise a new token for the
      registered user is added, and the email map and counter stay. */
  function Login(s: Store, email: string, password: string, token: string): (r: Step<string>)
    ensures r.outcome.Err? <==> email !in s.usersByEmail || s.usersByEmail[email].password != password
    ensures r.outcome.Err? ==> r == Step(s, Err(HttpError(Unauthorized, "Invalid credentials")))
    ensures r.outcome.Ok? ==>
      && r.outcome.value == token
      && r.store.usersByEmail == s.usersByEmail
      && r.store.nextUserId == s.nextUserId
      && r.store.usersByToken == s.usersByToken[token := s.usersByEmail[email]]
  {
    if email !in s.usersByEmail || s.usersByEmail[email].password != password then
      Step(s, Err(HttpError(Unauthorized, "Invalid credentials")))
    else
      Step(IssueToken(s, s.usersByEmail[email], token), Ok(token))
  }

  /** `read_me`: the id and email of the header's user. */
  function ReadMe(s: Store, authorization: Option<string>): (r: Result<Me, HttpError>)
    ensures r.Ok? <==> CurrentUser(s, authorization).Ok?
    ensures r.Ok? ==> r.value.id == CurrentUser(s, authorization).value.id && r.value.email == CurrentUser(s, authorization).value.email
    ensures r.Err? ==> r.error == CurrentUser(s, authorization).error
  {
    match CurrentUser(s, authorization)
    case Err(e) => Err(e)
    case Ok(user) => Ok(Me(user.id, user.email))
  }

  // ----------------------------------------------------------------- lemmas

  lemma InitialValid()
    ensures Valid(Initial)
  {
  }

  /** A successful signup registers a user whose id exceeds every existing
      user's id, and keeps the store valid. */
  lemma SignupPreservesValid(s: Store, email: string, password: string, token: string)
    requires Valid(s)
    ensures var r := Signup(s, email, password, token);
      && Valid(r.store)
      && (r.outcome.Ok? ==> forall e :: e in s.usersByEmail ==> s.usersByEmail[e].id < r.store.usersByEmail[email].id)
  {
    var r := Signup(s, email, password, token);
    if r.outcome.Ok? {
      var user := UserRecord(s.nextUserId, email, password);
      var s' := r.store;
      forall t | t in s'.usersByToken
        ensures Registered(s', s'.usersByToken[t])
      {
        if t != token {
          var u := s.usersByToken[t];
          assert Registered(s, u);
          assert u.email != email;
        }
      }
    }
  }

  lemma LoginPreservesValid(s: Store, email: string, password: string, token: string)
    requires Valid(s)
    ensures Valid(Login(s, email, password, token).store)
  {
  }

  /** A URL-safe token survives the header round trip: "Bearer " + token
      carries exactly that token. */
  lemma BearerRoundTrip(token: string)
    requires IsUrlSafeToken(token)
    ensures StartsWith(BearerPrefix + token, BearerPrefix)
    ensures BearerToken(BearerPrefix + token) == token
  {
    var h := BearerPrefix + token;
    assert h[..|BearerPrefix|] == BearerPrefix;
    assert h[|BearerPrefix|..] == token;
    assert !IsSpace(token[0]) && !IsSpace(token[|token| - 1]);
    StripUnchanged(token);
  }

  /** The token a signup returns authenticates the new user. */
  lemma SignupThenAuthenticate(s: Store, email: string, password: string, token: string)
    requires IsUrlSafeToken(token)
    requires Signup(s, email, password, token).outcome.Ok?
    ensures var s' := Signup(s, email, password, token).store;
      && CurrentUser(s', Some(BearerPrefix + token)) == Ok(UserRecord(s.nextUserId, email, password))
      && ReadMe(s', Some(BearerPrefix + token)) == Ok(Me(s.nextUserId, email))
      && s'.usersByEmail[email] == UserRecord(s.nextUserId, email, password)
  {
    BearerRoundTrip(token);
  }

  /** The token a login returns authenticates the registered user, and with a
      fresh token every header that authenticated before still authenticates
      the same user. */
  lemma LoginKeepsTokens(s: Store, email: string, password: string, token: string, header: Option<string>)
    requires IsUrlSafeToken(token)
    requires Login(s, email, password, token).outcome.Ok?
    requires token !in s.usersByToken
    ensures var s' := Login(s, email, password, token).store;
      && CurrentUser(s', Some(BearerPrefix + token)) == Ok(s.usersByEmail[email])
      && (CurrentUser(s, header).Ok? ==> CurrentUser(s', header) == CurrentUser(s, header))
  {
    BearerRoundTrip(token);
    if CurrentUser(s, header).Ok? {
      assert BearerToken(header.value) != token;
    }
  }

  /** A request to the store. */
  datatype Request =
    | SignupRequest(email: string, password: string, token: string)
    | LoginRequest(email: string, password: string, token: string)

  function Apply(s: Store, req: Request): Step<string> {
    match req
    case SignupRequest(email, password, token) => Signup(s, email, password, token)
    case LoginRequest(email, password, token) => Login(s, email, password, token)
  }

  /** The store after serving `reqs` in order, and the ids of the users the
      successful signups created, in creation order. */
  function Serve(s: Store, reqs: seq<Request>): (Store, seq<int>)
    decreases |reqs|
  {
    if reqs == [] then (s, [])
    else
      var r := Apply(s, reqs[0]);
      var (s', ids) := Serve(r.store, reqs[1..]);
      var created := if reqs[0].SignupRequest? && r.outcome.Ok? then [s.nextUserId] else [];
      (s', created + ids)
  }

  /** Over any sequence of requests, created user ids strictly increase, are
      all at least the starting counter and below the final one, and the
      store stays valid: ids are never reused. */
  lemma {:induction false} ServeIdsIncrease(s: Store, reqs: seq<Request>)
    requires Valid(s)
    ensures var (s', ids) := Serve(s, reqs);
      && Valid(s')
      && s.nextUserId <= s'.nextUserId
      && (forall k :: 0 <= k < |ids| ==> s.nextUserId <= ids[k] < s'.nextUserId)
      && (forall k :: 0 <= k < |ids| - 1 ==> ids[k] < ids[k + 1])
    decreases |reqs|
  {
    if reqs != [] {
      var r := Apply(s, reqs[0]);
      match reqs[0] {
        case SignupRequest(email, password, token) => SignupPreservesValid(s, email, password, token);
        case LoginRequest(email, password, token) => LoginPreservesValid(s, email, password, token);
      }
      assert r.store.nextUserId >= s.nextUserId;
      ServeIdsIncrease(r.store, reqs[1..]);
      var (s', rest) := Serve(r.store, reqs[1..]);
      var created := if reqs[0].SignupRequest? && r.outcome.Ok? then [s.nextUserId] else [];
      var ids := created + rest;
      assert Serve(s, reqs).1 == ids;
      if created != [] {
        assert r.store.nextUserId == s.nextUserId + 1;
        forall k | 0 <= k < |ids| - 1
          ensures ids[k] < ids[k + 1]
        {
          if k > 0 {
            assert ids[k] == rest[k - 1] && ids[k + 1] == rest[k];
          } else {
            assert ids[1] == rest[0];
          }
        }
      }
    }
  }
}
