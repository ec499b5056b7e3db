/**
 The authentication controller's decision logic: the login lockout (the
 `isBlocked` middleware followed by `login`, the order the login route
 installs them), role restriction, and the token checks of `protect`.
 Password comparison, token signing and the user store are parameters.
 */
module Auth {
  import opened Results
  import opened JsValues
  import opened UserModel

  /** The state a handler persists, and what it does with the request. */
  datatype Step<S> = Step(state: S, outcome: Outcome)

  /** A block lasts one hour. */
  const BlockDuration: int := 60 * 60 * 1000

  /** Wrong passwords tolerated before the next one blocks. */
  const Threshold: nat := 2

  /** The counter never passes the threshold, and the block flag travels with its expiry. */
  predicate Consistent(s: LockState)
  {
    && s.wrongPassword <= Threshold
    && (s.block <==> s.blockDate.Some?)
    && (s.block ==> s.wrongPassword == Threshold)
  }

  predicate Expired(s: LockState, now: int)
  {
    s.blockDate.Some? && s.blockDate.value <= now
  }

  /** "You're blocked for N minutes": N is the remaining time truncated to whole minutes, NaN without an expiry. */
  function MinutesLeft(blockDate: Option<int>, now: int): Option<int>
  {
    match blockDate
    case None => None
    case Some(d) => Some(TruncDiv(d - now, 60_000))
  }

  /**
   `isBlocked`: first clear a block whose expiry has passed (resetting the
   counter), then refuse the request while the user is still blocked.
   */
  function IsBlocked(s: LockState, now: int): (r: Step<LockState>)
    ensures Expired(s, now) ==> r == Step(Unlocked, Proceed)
    ensures !Expired(s, now) ==> r.state == s
    ensures r.outcome == Proceed <==> !r.state.block
    ensures r.outcome.Reject? ==> r.outcome.error == AppError(Blocked(MinutesLeft(s.blockDate, now)), Some(401))
    ensures r.outcome.Reject? && s.blockDate.Some? ==>
      var m := MinutesLeft(s.blockDate, now).value;
      var left := s.blockDate.value - now;
      left > 0 && m >= 0 && m * 60_000 <= left < m * 60_000 + 60_000
  {
    var t := if Expired(s, now) then Unlocked else s;
    if t.block then Step(t, Reject(AppError(Blocked(MinutesLeft(t.blockDate, now)), Some(401))))
    else Step(t, Proceed)
  }

  /** `!email || !password` is false: the body carries both credentials. */
  predicate HasCredentials(body: Body)
    ensures HasCredentials(body) ==> "email" in body && "password" in body
  {
    TruthyField(body, "email") && TruthyField(body, "password")
  }

  /** The body's password is a string, the only kind the bcrypt comparison accepts. */
  predicate PasswordIsString(body: Body)
  {
    "password" in body && body["password"].JStr?
  }

  /**
   `login`: insist on an email and a password, look the user up, compare the
   password — a password that is not a string makes the comparison reject —
   then count a wrong password, blocking for an hour once two have already been
   counted, or reset the counter on a correct one. `correct` is the verdict of
   the comparison of a string password; the state is None when no user has
   that email.
   */
  function Login(body: Body, found: Option<LockState>, correct: bool, now: int): (r: Step<Option<LockState>>)
    ensures !HasCredentials(body) ==> r == Step(found, Reject(AppError(MissingCredentials, Some(400))))
    ensures HasCredentials(body) && found.None? ==> r == Step(None, Reject(AppError(NoUserForEmail, Some(401))))
    ensures HasCredentials(body) && found.Some? && !PasswordIsString(body) ==>
      r == Step(found, Reject(AppError(IllegalArguments, None)))
    ensures r.state.Some? <==> found.Some?
    ensures r.outcome == Proceed <==> HasCredentials(body) && found.Some? && PasswordIsString(body) && correct
    ensures r.outcome == Proceed ==> r.state.value == found.value.(wrongPassword := 0)
    ensures HasCredentials(body) && found.Some? && PasswordIsString(body) && !correct ==>
      var s, s' := found.value, r.state.value;
      if s.wrongPassword < Threshold then
        && s' == s.(wrongPassword := s.wrongPassword + 1)
        && r.outcome == Reject(AppError(IncorrectPassword, Some(401)))
      else
        && s' == s.(block := true, blockDate := Some(now + 3_600_000))
        && r.outcome == Reject(AppError(Blocked(Some(3600)), Some(401)))
  {
    if !HasCredentials(body) then
      Step(found, Reject(AppError(MissingCredentials, Some(400))))
    else if found.None? then
      Step(None, Reject(AppError(NoUserForEmail, Some(401))))
    else if !body["password"].JStr? then
      Step(found, Reject(AppError(IllegalArguments, None)))
    else
      var s := found.value;
      if !correct then
        if s.wrongPassword >= Threshold then
          var blockDate := now + BlockDuration;
          Step(Some(s.(block := true, blockDate := Some(blockDate))),
               Reject(AppError(Blocked(Some(TruncDiv(blockDate - now, 1000))), Some(401))))
        else
          Step(Some(s.(wrongPassword := s.wrongPassword + 1)), Reject(AppError(IncorrectPassword, Some(401))))
      else
        Step(Some(s.(wrongPassword := 0)), Proceed)
  }

  /** One request to the login route for an existing user: `isBlocked`, then `login` if it lets the request through. */
  function Attempt(body: Body, s: LockState, correct: bool, now: int): (r: Step<LockState>)
    ensures IsBlocked(s, now).outcome.Reject? ==> r == IsBlocked(s, now)
    ensures r.outcome == Proceed ==> r.state.wrongPassword == 0 && !r.state.block
  {
    var checked := IsBlocked(s, now);
    if checked.outcome.Reject? then checked
    else
      var l := Login(body, Some(checked.state), correct, now);
      Step(l.state.value, l.outcome)
  }

  /** Every login request keeps the lockout fields consistent. */
  lemma AttemptConsistent(body: Body, s: LockState, correct: bool, now: int)
    requires Consistent(s)
    ensures Consistent(Attempt(body, s, correct, now).state)
  {
  }

  /** With consistent fields the block message always shows a number, never NaN. */
  lemma BlockedMessageIsANumber(body: Body, s: LockState, correct: bool, now: int)
    requires Consistent(s)
    ensures var r := Attempt(body, s, correct, now);
      r.outcome.Reject? && r.outcome.error.reason.Blocked? ==> r.outcome.error.reason.shown.Some?
  {
  }

  /**
   From a fresh account, the first two wrong passwords only count, and the
   third blocks for one hour from the moment of that third attempt.
   */
  lemma ThirdFailureBlocks(body: Body, t1: int, t2: int, t3: int)
    requires HasCredentials(body) && PasswordIsString(body)
    ensures var r1 := Attempt(body, Unlocked, false, t1);
      && r1 == Step(LockState(1, false, None), Reject(AppError(IncorrectPassword, Some(401))))
      && var r2 := Attempt(body, r1.state, false, t2);
      && r2 == Step(LockState(2, false, None), Reject(AppError(IncorrectPassword, Some(401))))
      && var r3 := Attempt(body, r2.state, false, t3);
      && r3 == Step(LockState(2, true, Some(t3 + 3_600_000)), Reject(AppError(Blocked(Some(3600)), Some(401))))
  {
  }

  /**
   While a block has not expired, a login request is refused whatever it
   carries: the password is never examined and nothing is stored.
   */
  lemma LockedIgnoresCredentials(body: Body, body': Body, s: LockState, correct: bool, correct': bool, now: int)
    requires s.block && s.blockDate.Some? && now < s.blockDate.value
    ensures Attempt(body, s, correct, now) == Attempt(body', s, correct', now)
    ensures Attempt(body, s, correct, now).state == s
    ensures Attempt(body, s, correct, now).outcome.Reject?
  {
  }

  /** Once the block has expired, the next correct login succeeds and the account is fully unlocked. */
  lemma ExpiredBlockReopens(body: Body, s: LockState, now: int)
    requires HasCredentials(body) && PasswordIsString(body)
    requires s.blockDate.Some? && s.blockDate.value <= now
    ensures Attempt(body, s, true, now) == Step(Unlocked, Proceed)
  {
  }

  /** Once the block has expired, a wrong password counts as the first of three again. */
  lemma ExpiredBlockRestartsCount(body: Body, s: LockState, now: int)
    requires HasCredentials(body) && PasswordIsString(body)
    requires s.blockDate.Some? && s.blockDate.value <= now
    ensures Attempt(body, s, false, now) == Step(LockState(1, false, None), Reject(AppError(IncorrectPassword, Some(401))))
  {
  }

  // ---------------------------------------------------------------------------
  // restrictTo

  /**
   `restrictTo(...roles)`: let the request through iff the user's stored role
   string is listed. The stored string is compared as it is, so a role outside
   the schema's enum passes only a list that names it.
   */
  function RestrictTo(roles: seq<string>, role: string): (r: Outcome)
    ensures r == Proceed <==> role in roles
    ensures r.Reject? ==> r.error == AppError(PermissionDenied, Some(403))
  {
    if role in roles then Proceed
    else Reject(AppError(PermissionDenied, Some(403)))
  }

  /** Listing more roles never shuts out a role that passed before. */
  lemma RestrictToMonotone(roles: seq<string>, more: seq<string>, role: string)
    requires forall x :: x in roles ==> x in more
    ensures RestrictTo(roles, role) == Proceed ==> RestrictTo(more, role) == Proceed
  {
  }

  /** The role lists of the user routes: creating and editing users, and deleting them. */
  const AdminOnly: seq<string> := ["admin"]
  const ModeratorOrAdmin: seq<string> := ["modrator", "admin"]

  /**
   Plain users pass neither list; moderators may delete but not edit; admins
   pass both; a stored "moderator", which the enum does not know, passes neither.
   */
  lemma RouteRoles()
    ensures RestrictTo(AdminOnly, RoleName(Member)).Reject? && RestrictTo(ModeratorOrAdmin, RoleName(Member)).Reject?
    ensures RestrictTo(AdminOnly, RoleName(Moderator)).Reject? && RestrictTo(ModeratorOrAdmin, RoleName(Moderator)) == Proceed
    ensures RestrictTo(AdminOnly, RoleName(Admin)) == Proceed && RestrictTo(ModeratorOrAdmin, RoleName(Admin)) == Proceed
    ensures RestrictTo(AdminOnly, "moderator").Reject? && RestrictTo(ModeratorOrAdmin, "moderator").Reject?
  {
  }

  // ---------------------------------------------------------------------------
  // protect

  /** Index of the first space in `s`, or |s| when there is none. */
  function SpaceIndex(s: string): (i: nat)
    ensures i <= |s|
    ensures forall k :: 0 <= k < i ==> s[k] != ' '
    ensures i < |s| ==> s[i] == ' '
  {
    if s == [] || s[0] == ' ' then 0 else 1 + SpaceIndex(s[1..])
  }

  /**
   The token of `protect`: the header must be present and start with
   "Bearer"; the token is `split(' ')[1]`, the text between the first and the
   second space. An empty or missing piece is no token.
   */
  function BearerToken(authorization: Option<string>): (r: Option<string>)
    ensures r.Some? ==> authorization.Some? && |authorization.value| >= 6 && authorization.value[..6] == "Bearer"
    ensures r.Some? ==> r.value != "" && forall k :: 0 <= k < |r.value| ==> r.value[k] != ' '
  {
    if authorization.None? || |authorization.value| < 6 || authorization.value[..6] != "Bearer" then None
    else
      var h := authorization.value;
      var i := SpaceIndex(h);
      if i == |h| then None
      else
        var rest := h[i + 1..];
        var token := rest[..SpaceIndex(rest)];
        if token == "" then None else Some(token)
  }

  lemma {:induction false} SpaceIndexOfJoin(pre: string, post: string)
    requires forall k :: 0 <= k < |pre| ==> pre[k] != ' '
    requires post == [] || post[0] == ' '
    ensures SpaceIndex(pre + post) == |pre|
    decreases |pre|
  {
    if pre != [] {
      assert (pre + post)[1..] == pre[1..] + post;
      SpaceIndexOfJoin(pre[1..], post);
    }
  }

  /**
   Every header of the shape `pre + " " + token + post`, where `pre` starts with
   "Bearer" and has no space and `post` is empty or starts with a space, yields
   exactly `token` (or nothing when `token` is empty).
   */
  lemma BearerTokenOfHeader(pre: string, token: string, post: string)
    requires |pre| >= 6 && pre[..6] == "Bearer"
    requires forall k :: 0 <= k < |pre| ==> pre[k] != ' '
    requires forall k :: 0 <= k < |token| ==> token[k] != ' '
    requires post == [] || post[0] == ' '
    ensures BearerToken(Some(pre + " " + token + post)) == if token == "" then None else Some(token)
  {
    var h := pre + " " + token + post;
    assert h == pre + (" " + token + post);
    SpaceIndexOfJoin(pre, " " + token + post);
    assert h[..6] == pre[..6];
    assert h[|pre| + 1..] == token + post;
    SpaceIndexOfJoin(token, post);
    assert (token + post)[..|token|] == token;
  }

  /** A header without any space carries no token. */
  lemma BearerTokenNeedsSpace(h: string)
    requires forall k :: 0 <= k < |h| ==> h[k] != ' '
    ensures BearerToken(Some(h)) == None
  {
    assert h == h + [];
    SpaceIndexOfJoin(h, []);
  }

  /** The claims a verified token carries: the user id and the issue time in seconds. */
  datatype Claims = Claims(id: UserId, iat: int)

  /**
   `User.findById(id)` over the stored users `stored`: the schema's find hook
   hides accounts whose `active` is false, and the default projection leaves
   out the `select: false` path `passwordChangedAt` unless the query asks for
   it with `.select('+passwordChangedAt')`.
   */
  function FindById(stored: UserId -> Option<User>, id: UserId, selectChangeTime: bool): (r: Option<User>)
    ensures r.Some? <==> stored(id).Some? && stored(id).value.active
    ensures r.Some? ==> r.value.(passwordChangedAt := stored(id).value.passwordChangedAt) == stored(id).value
    ensures r.Some? ==> r.value.passwordChangedAt == if selectChangeTime then stored(id).value.passwordChangedAt else None
  {
    match stored(id)
    case None => None
    case Some(u) =>
      if !u.active then None
      else if selectChangeTime then Some(u)
      else Some(u.(passwordChangedAt := None))
  }

  /**
   The steps of `protect` over a user query `find`: extract the token, verify
   it, find the user it names, and refuse a token issued before that user's
   last password change.
   */
  function Authenticate(authorization: Option<string>, verify: string -> Option<Claims>,
                        find: UserId -> Option<User>): (r: Result<User, AppError>)
    ensures BearerToken(authorization).None? ==> r == Failure(AppError(NotLoggedIn, None))
    ensures BearerToken(authorization).Some? && verify(BearerToken(authorization).value).None? ==>
      r == Failure(AppError(InvalidToken, None))
    ensures r.Success? ==>
      && BearerToken(authorization).Some?
      && verify(BearerToken(authorization).value).Some?
      && var c := verify(BearerToken(authorization).value).value;
      && find(c.id) == Some(r.value)
      && !ChangedPasswordAfter(r.value, c.iat)
    ensures BearerToken(authorization).Some? && verify(BearerToken(authorization).value).Some? ==>
      var c := verify(BearerToken(authorization).value).value;
      && (find(c.id).None? ==> r == Failure(AppError(UserNoLongerExists, Some(401))))
      && (find(c.id).Some? && ChangedPasswordAfter(find(c.id).value, c.iat) ==>
            r == Failure(AppError(PasswordChangedAfterToken, Some(401))))
      && (find(c.id).Some? && !ChangedPasswordAfter(find(c.id).value, c.iat) ==> r == Success(find(c.id).value))
  {
    match BearerToken(authorization)
    case None => Failure(AppError(NotLoggedIn, None))
    case Some(token) =>
      match verify(token)
      case None => Failure(AppError(InvalidToken, None))
      case Some(c) =>
        match find(c.id)
        case None => Failure(AppError(UserNoLongerExists, Some(401)))
        case Some(u) =>
          if ChangedPasswordAfter(u, c.iat) then Failure(AppError(PasswordChangedAfterToken, Some(401)))
          else Success(u)
  }

  /**
   `protect` as written: `User.findById(decoded.id)` without selecting
   `passwordChangedAt`, so the user it checks never carries a change time and
   the password-change refusal cannot fire.
   */
  function Protect(authorization: Option<string>, verify: string -> Option<Claims>,
                   stored: UserId -> Option<User>): (r: Result<User, AppError>)
    ensures BearerToken(authorization).None? ==> r == Failure(AppError(NotLoggedIn, None))
    ensures r.Success? <==>
      && BearerToken(authorization).Some?
      && verify(BearerToken(authorization).value).Some?
      && var c := verify(BearerToken(authorization).value).value;
      && stored(c.id).Some? && stored(c.id).value.active
    ensures r.Success? ==>
      var c := verify(BearerToken(authorization).value).value;
      r.value == stored(c.id).value.(passwordChangedAt := None)
    ensures r != Failure(AppError(PasswordChangedAfterToken, Some(401)))
  {
    Authenticate(authorization, verify, id => FindById(stored, id, false))
  }

  /**
   `protect` with the query it evidently intends,
   `User.findById(decoded.id).select('+passwordChangedAt')`: a token issued
   before the last password change is refused.
   */
  function ProtectSelectingChangeTime(authorization: Option<string>, verify: string -> Option<Claims>,
                                      stored: UserId -> Option<User>): (r: Result<User, AppError>)
    ensures BearerToken(authorization).None? ==> r == Failure(AppError(NotLoggedIn, None))
    ensures r.Success? ==>
      && BearerToken(authorization).Some?
      && verify(BearerToken(authorization).value).Some?
      && var c := verify(BearerToken(authorization).value).value;
      && stored(c.id) == Some(r.value) && r.value.active
      && !ChangedPasswordAfter(r.value, c.iat)
    ensures BearerToken(authorization).Some? && verify(BearerToken(authorization).value).Some? ==>
      var c := verify(BearerToken(authorization).value).value;
      stored(c.id).Some? && stored(c.id).value.active && !ChangedPasswordAfter(stored(c.id).value, c.iat) ==> r.Success?
  {
    Authenticate(authorization, verify, id => FindById(stored, id, true))
  }

  /**
   With the change time selected, a token issued a whole second or more before
   the password change is refused with 401.
   */
  lemma StaleTokenRefused(authorization: Option<string>, verify: string -> Option<Claims>,
                          stored: UserId -> Option<User>, c: Claims, u: User)
    requires BearerToken(authorization).Some? && verify(BearerToken(authorization).value) == Some(c)
    requires stored(c.id) == Some(u) && u.active
    requires u.passwordChangedAt.Some? && u.passwordChangedAt.value >= 0
    requires (c.iat + 1) * 1000 <= u.passwordChangedAt.value
    ensures ProtectSelectingChangeTime(authorization, verify, stored) == Failure(AppError(PasswordChangedAfterToken, Some(401)))
  {
    ChangedPasswordAfterIff(u, c.iat);
  }

  /**
   As written, the same stale token is let through: the user is granted access
   although the password changed after the token was issued.
   */
  lemma ProtectAcceptsStaleToken(authorization: Option<string>, verify: string -> Option<Claims>,
                                 stored: UserId -> Option<User>, c: Claims, u: User)
    requires BearerToken(authorization).Some? && verify(BearerToken(authorization).value) == Some(c)
    requires stored(c.id) == Some(u) && u.active
    requires u.passwordChangedAt.Some? && u.passwordChangedAt.value >= 0
    requires (c.iat + 1) * 1000 <= u.passwordChangedAt.value
    ensures Protect(authorization, verify, stored) == Success(u.(passwordChangedAt := None))
    ensures ProtectSelectingChangeTime(authorization, verify, stored).Failure?
  {
    StaleTokenRefused(authorization, verify, stored, c, u);
  }
}
