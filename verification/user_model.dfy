/**
 The user document: its fields as the controllers use them, the schema's
 field constraints as a validator, and the two instance methods
 `changedPasswordAfter` and `createPasswordResetToken`.
 */
module UserModel {
  import opened Results
  import opened JsValues

  type UserId = string

  /** The schema's role enum; the moderator role is spelled "modrator" in the stored data. */
  datatype Role = Member | Moderator | Admin

  function RoleName(r: Role): string
  {
    match r
    case Member => "user"
    case Moderator => "modrator"
    case Admin => "admin"
  }

  /** Reads a stored role string; anything outside the enum is rejected. */
  function ParseRole(s: string): (r: Option<Role>)
    ensures r.Some? ==> RoleName(r.value) == s
  {
    if s == "user" then Some(Member)
    else if s == "modrator" then Some(Moderator)
    else if s == "admin" then Some(Admin)
    else None
  }

  lemma ParseRoleName(r: Role)
    ensures ParseRole(RoleName(r)) == Some(r)
  {
  }

  /**
   The three login-throttling fields the authentication controller reads and
   writes: consecutive wrong passwords, the block flag, and the block expiry in
   milliseconds since the epoch.
   */
  datatype LockState = LockState(wrongPassword: nat, block: bool, blockDate: Option<int>)

  /** A user that has never failed a login: counter 0, not blocked, no expiry. */
  const Unlocked := LockState(0, false, None)

  /**
   A stored user; instants are milliseconds since the epoch. `role` is the
   stored string: creation only stores one of the enum's names, but an update
   that skips the validators can store any string.
   */
  datatype User = User(
    id: UserId,
    name: string,
    email: string,
    role: string,
    age: Option<int>,
    passwordChangedAt: Option<int>,
    passwordResetToken: Option<string>,
    passwordResetExpires: Option<int>,
    active: bool,
    lock: LockState)

  // ---------------------------------------------------------------------------
  // Schema constraints

  /** ECMAScript WhiteSpace and LineTerminator code points, the set `String.prototype.trim` strips. */
  predicate IsWhitespace(c: char)
  {
    c == ' ' || c == '\t' || c == '\n' || c == '\r' || c == '\U{000B}' || c == '\U{000C}'
    || c == '\U{00A0}' || c == '\U{1680}' || ('\U{2000}' <= c <= '\U{200A}')
    || c == '\U{2028}' || c == '\U{2029}' || c == '\U{202F}' || c == '\U{205F}'
    || c == '\U{3000}' || c == '\U{FEFF}'
  }

  predicate AllWhitespace(s: string)
  {
    forall i :: 0 <= i < |s| ==> IsWhitespace(s[i])
  }

  /** No whitespace at either end. */
  predicate Trimmed(s: string)
  {
    s == [] || (!IsWhitespace(s[0]) && !IsWhitespace(s[|s| - 1]))
  }

  lemma AllWhitespaceConcat(a: string, b: string)
    requires AllWhitespace(a) && AllWhitespace(b)
    ensures AllWhitespace(a + b)
  {
    forall i | 0 <= i < |a + b| ensures IsWhitespace((a + b)[i]) {
      if i >= |a| {
        assert (a + b)[i] == b[i - |a|];
      }
    }
  }

  function LeadingWhitespace(s: string): (n: nat)
    ensures n <= |s|
    ensures AllWhitespace(s[..n])
    ensures n < |s| ==> !IsWhitespace(s[n])
  {
    if s == [] || !IsWhitespace(s[0]) then 0
    else
      var m := LeadingWhitespace(s[1..]);
      assert s[..m + 1] == [s[0]] + s[1..][..m];
      AllWhitespaceConcat([s[0]], s[1..][..m]);
      assert m + 1 < |s| ==> s[m + 1] == s[1..][m];
      m + 1
  }

  /** A whitespace run at the end of `s` minus its last character, extended by that whitespace character. */
  lemma TrailingStep(s: string, m: nat)
    requires s != [] && IsWhitespace(s[|s| - 1])
    requires m <= |s| - 1
    requires AllWhitespace(s[..|s| - 1][|s| - 1 - m..])
    requires m < |s| - 1 ==> !IsWhitespace(s[..|s| - 1][|s| - 1 - m - 1])
    ensures AllWhitespace(s[|s| - (m + 1)..])
    ensures m + 1 < |s| ==> !IsWhitespace(s[|s| - (m + 1) - 1])
  {
    var init := s[..|s| - 1];
    assert s[|s| - (m + 1)..] == init[|init| - m..] + [s[|s| - 1]];
    AllWhitespaceConcat(init[|init| - m..], [s[|s| - 1]]);
    if m + 1 < |s| {
      assert s[|s| - (m + 1) - 1] == init[|init| - m - 1];
    }
  }

  function TrailingWhitespace(s: string): (n: nat)
    ensures n <= |s|
    ensures AllWhitespace(s[|s| - n..])
    ensures n < |s| ==> !IsWhitespace(s[|s| - n - 1])
  {
    if s == [] || !IsWhitespace(s[|s| - 1]) then 0
    else
      var m := TrailingWhitespace(s[..|s| - 1]);
      TrailingStep(s, m);
      m + 1
  }

  /** `String.prototype.trimStart`. */
  function TrimStart(s: string): (r: string)
    ensures |r| <= |s| && r == s[|s| - |r|..]
    ensures AllWhitespace(s[..|s| - |r|])
    ensures r == [] || !IsWhitespace(r[0])
    ensures r == [] <==> AllWhitespace(s)
  {
    var lead := LeadingWhitespace(s);
    assert AllWhitespace(s) ==> lead == |s| by {
      if AllWhitespace(s) {
        assert s + [] == s;
        LeadingWhitespaceOfPadded(s, []);
      }
    }
    s[lead..]
  }

  /** `String.prototype.trimEnd`. */
  function TrimEnd(s: string): (r: string)
    ensures |r| <= |s| && r == s[..|r|]
    ensures AllWhitespace(s[|r|..])
    ensures r == [] || !IsWhitespace(r[|r| - 1])
    ensures r == [] <==> AllWhitespace(s)
  {
    var tail := TrailingWhitespace(s);
    assert s[|s| - tail..] == s ==> AllWhitespace(s);
    s[..|s| - tail]
  }

  /** `trim: true` on the name path: strip whitespace from both ends. */
  function Trim(s: string): (r: string)
    ensures Trimmed(r)
    ensures |r| <= |s|
    ensures r == [] <==> AllWhitespace(s)
  {
    var rest := TrimStart(s);
    var r := TrimEnd(rest);
    assert r != [] ==> r[0] == rest[0];
    r
  }

  lemma {:induction false} LeadingWhitespaceOfPadded(a: string, t: string)
    requires AllWhitespace(a)
    requires t == [] || !IsWhitespace(t[0])
    ensures LeadingWhitespace(a + t) == |a|
    decreases |a|
  {
    if a != [] {
      assert (a + t)[1..] == a[1..] + t;
      LeadingWhitespaceOfPadded(a[1..], t);
    }
  }

  lemma {:induction false} TrailingWhitespaceOfPadded(t: string, b: string)
    requires AllWhitespace(b)
    requires t == [] || !IsWhitespace(t[|t| - 1])
    ensures TrailingWhitespace(t + b) == |b|
    decreases |b|
  {
    if b != [] {
      assert (t + b)[..|t + b| - 1] == t + b[..|b| - 1];
      TrailingWhitespaceOfPadded(t, b[..|b| - 1]);
    }
  }

  /** Trimming removes exactly the surrounding whitespace and keeps the text between. */
  lemma TrimPadded(a: string, s: string, b: string)
    requires AllWhitespace(a) && AllWhitespace(b)
    requires s != [] && Trimmed(s)
    ensures Trim(a + s + b) == s
  {
    var whole := a + s + b;
    assert whole == a + (s + b);
    LeadingWhitespaceOfPadded(a, s + b);
    assert TrimStart(whole) == s + b;
    TrailingWhitespaceOfPadded(s, b);
  }

  predicate IsAlphanumeric(c: char)
  {
    ('0' <= c <= '9') || ('a' <= c <= 'z') || ('A' <= c <= 'Z')
  }

  /** `validator.isAlphanumeric` with its default en-US locale: one or more ASCII letters or digits. */
  predicate Alphanumeric(s: string)
    ensures Alphanumeric(s) ==> s != [] && Trimmed(s)
  {
    |s| > 0 && forall i :: 0 <= i < |s| ==> IsAlphanumeric(s[i])
  }

  /** `lowercase: true` on the email path, for ASCII letters. */
  function Lower(s: string): (r: string)
    ensures |r| == |s|
    ensures forall i :: 0 <= i < |s| ==> ('A' <= s[i] <= 'Z' ==> r[i] as int == s[i] as int + 32)
    ensures forall i :: 0 <= i < |s| ==> (!('A' <= s[i] <= 'Z') ==> r[i] == s[i])
  {
    if s == [] then []
    else
      var c := s[0];
      [if 'A' <= c <= 'Z' then (c as int + 32) as char else c] + Lower(s[1..])
  }

  /** The fields a request supplies when a user is created (undefined fields are None). */
  datatype UserForm = UserForm(
    name: Option<string>,
    age: Option<int>,
    email: Option<string>,
    role: Option<string>,
    password: Option<string>,
    passwordConfirm: Option<string>)

  datatype Field = NameField | AgeField | EmailField | RoleField | PasswordField | PasswordConfirmField

  /** name: required, trimmed, 5 to 20 characters, letters and digits only. */
  predicate NameOk(name: Option<string>)
  {
    name.Some? && var t := Trim(name.value); 5 <= |t| <= 20 && Alphanumeric(t)
  }

  /** age: optional; when present, between 12 and 150. */
  predicate AgeOk(age: Option<int>)
  {
    age.None? || 12 <= age.value <= 150
  }

  /** email: required, lower-cased, accepted by the email validator. */
  predicate EmailOk(email: Option<string>, isEmail: string -> bool)
  {
    email.Some? && Lower(email.value) != "" && isEmail(Lower(email.value))
  }

  /** role: optional (defaults to "user"); when present, one of the enum's strings. */
  predicate RoleOk(role: Option<string>)
  {
    role.None? || ParseRole(role.value).Some?
  }

  /** password: required, at least 9 characters. */
  predicate PasswordOk(password: Option<string>)
  {
    password.Some? && |password.value| >= 9
  }

  /** passwordConfirm: required and identical to password. */
  predicate PasswordConfirmOk(confirm: Option<string>, password: Option<string>)
  {
    confirm.Some? && confirm.value != "" && confirm == password
  }

  /** The paths that fail validation, as in the errors of a Mongoose ValidationError. */
  function SchemaErrors(f: UserForm, isEmail: string -> bool): (errs: set<Field>)
    ensures errs == {} <==>
      NameOk(f.name) && AgeOk(f.age) && EmailOk(f.email, isEmail) && RoleOk(f.role)
      && PasswordOk(f.password) && PasswordConfirmOk(f.passwordConfirm, f.password)
  {
    (if NameOk(f.name) then {} else {NameField})
    + (if AgeOk(f.age) then {} else {AgeField})
    + (if EmailOk(f.email, isEmail) then {} else {EmailField})
    + (if RoleOk(f.role) then {} else {RoleField})
    + (if PasswordOk(f.password) then {} else {PasswordField})
    + (if PasswordConfirmOk(f.passwordConfirm, f.password) then {} else {PasswordConfirmField})
  }

  /**
   `User.create(form)`: apply the setters and defaults, then validate. A new
   user starts with the login counter at 0, unblocked, and active.
   */
  function Create(f: UserForm, isEmail: string -> bool, id: UserId): (r: Result<User, set<Field>>)
    ensures r.Failure? <==> SchemaErrors(f, isEmail) != {}
    ensures r.Failure? ==> r.error == SchemaErrors(f, isEmail)
    ensures r.Success? ==> 5 <= |r.value.name| <= 20 && Alphanumeric(r.value.name)
    ensures r.Success? ==> f.name.Some? && r.value.name == Trim(f.name.value)
    ensures r.Success? ==> f.email.Some? && r.value.email == Lower(f.email.value)
    ensures r.Success? && f.role.None? ==> r.value.role == RoleName(Member)
    ensures r.Success? && f.role.Some? ==> r.value.role == f.role.value
    ensures r.Success? ==> ParseRole(r.value.role).Some?
    ensures r.Success? ==> r.value.age == f.age && (f.age.Some? ==> 12 <= f.age.value <= 150)
    ensures r.Success? ==> r.value.active && r.value.lock == Unlocked
  {
    var errs := SchemaErrors(f, isEmail);
    if errs != {} then Failure(errs)
    else
      var role := if f.role.None? then Member else ParseRole(f.role.value).value;
      ParseRoleName(role);
      Success(User(id, Trim(f.name.value), Lower(f.email.value), RoleName(role), f.age,
                   None, None, None, true, Unlocked))
  }

  /** For a name without surrounding whitespace, validity is exactly 5..20 letters and digits. */
  lemma NameBounds(s: string)
    requires Alphanumeric(s)
    ensures NameOk(Some(s)) <==> 5 <= |s| <= 20
  {
    assert s == [] + s + [];
    TrimPadded([], s, []);
  }

  /** Surrounding whitespace never changes whether a name is valid. */
  lemma NamePaddingIgnored(a: string, s: string, b: string)
    requires AllWhitespace(a) && AllWhitespace(b)
    requires s != [] && Trimmed(s)
    ensures NameOk(Some(a + s + b)) <==> NameOk(Some(s))
  {
    TrimPadded(a, s, b);
    assert s == [] + s + [];
    TrimPadded([], s, []);
    assert Trim(a + s + b) == Trim(s);
    NameOkByTrim(a + s + b, s);
  }

  /** Whether a name is valid depends only on its trimmed form. */
  lemma NameOkByTrim(x: string, y: string)
    requires Trim(x) == Trim(y)
    ensures NameOk(Some(x)) <==> NameOk(Some(y))
  {
  }

  /** The numeric boundaries of the schema: ages 12 and 150 pass, 11 and 151 fail; 9 password characters pass, 8 fail. */
  lemma SchemaBoundaries(f: UserForm, isEmail: string -> bool)
    ensures AgeField !in SchemaErrors(f.(age := Some(12)), isEmail)
    ensures AgeField !in SchemaErrors(f.(age := Some(150)), isEmail)
    ensures AgeField in SchemaErrors(f.(age := Some(11)), isEmail)
    ensures AgeField in SchemaErrors(f.(age := Some(151)), isEmail)
    ensures AgeField !in SchemaErrors(f.(age := None), isEmail)
    ensures forall p :: |p| == 9 ==> PasswordField !in SchemaErrors(f.(password := Some(p)), isEmail)
    ensures forall p :: |p| == 8 ==> PasswordField in SchemaErrors(f.(password := Some(p)), isEmail)
    ensures forall p, q :: p != q ==>
      PasswordConfirmField in SchemaErrors(f.(password := Some(p), passwordConfirm := Some(q)), isEmail)
  {
  }

  // ---------------------------------------------------------------------------
  // Instance methods

  /**
   `changedPasswordAfter(JWTTimestamp)`: whether the password was changed after
   a token issued at `jwtTimestamp` (seconds) — compared against the change
   time truncated to whole seconds.
   */
  function ChangedPasswordAfter(u: User, jwtTimestamp: int): (r: bool)
    ensures u.passwordChangedAt.None? ==> !r
  {
    match u.passwordChangedAt
    case None => false
    case Some(ms) => jwtTimestamp < TruncDiv(ms, 1000)
  }

  /** For a change time after the epoch: a token is stale iff a whole second lies between its issue time and the change. */
  lemma ChangedPasswordAfterIff(u: User, jwtTimestamp: int)
    requires u.passwordChangedAt.Some? && u.passwordChangedAt.value >= 0
    ensures ChangedPasswordAfter(u, jwtTimestamp) <==> (jwtTimestamp + 1) * 1000 <= u.passwordChangedAt.value
  {
    var ms := u.passwordChangedAt.value;
    var q := TruncDiv(ms, 1000);
    if jwtTimestamp < q {
      assert (jwtTimestamp + 1) * 1000 <= q * 1000;
    } else {
      assert q * 1000 + 1000 <= jwtTimestamp * 1000 + 1000;
    }
  }

  /** How long a password-reset token stays valid: ten minutes. */
  const ResetTokenLifetime: int := 10 * 60 * 1000

  /**
   `createPasswordResetToken`: store the hash of a fresh plain token and an
   expiry ten minutes after `now`, and hand the plain token back. The random
   token and the sha256 hash are parameters.
   */
  function CreatePasswordResetToken(u: User, plain: string, hash: string -> string, now: int): (r: (User, string))
    ensures r.1 == plain
    ensures r.0.passwordResetToken == Some(hash(r.1))
    ensures r.0.passwordResetExpires == Some(now + 600_000)
    ensures r.0.(passwordResetToken := u.passwordResetToken, passwordResetExpires := u.passwordResetExpires) == u
  {
    (u.(passwordResetToken := Some(hash(plain)), passwordResetExpires := Some(now + ResetTokenLifetime)), plain)
  }

  /**
   The lookup of `resetPassword`: a candidate token selects the user whose
   stored hash equals the candidate's hash and whose expiry lies after `now`.
   The query passes through the schema's find hook, so a deactivated account
   is never found.
   */
  predicate ResetTokenAccepted(u: User, candidate: string, hash: string -> string, now: int)
    ensures u.passwordResetToken.None? || u.passwordResetExpires.None? ==> !ResetTokenAccepted(u, candidate, hash, now)
    ensures !u.active ==> !ResetTokenAccepted(u, candidate, hash, now)
  {
    u.active
    && u.passwordResetToken == Some(hash(candidate))
    && u.passwordResetExpires.Some? && u.passwordResetExpires.value > now
  }

  /** The token handed out at `issued` opens the reset of an active account exactly until ten minutes later. */
  lemma ResetTokenWindow(u: User, plain: string, hash: string -> string, issued: int, now: int)
    ensures var (u', token) := CreatePasswordResetToken(u, plain, hash, issued);
      ResetTokenAccepted(u', token, hash, now) <==> u.active && now < issued + 600_000
  {
  }

  /** A candidate whose hash differs from the issued token's hash is never accepted. */
  lemma ResetTokenOnlyByHash(u: User, plain: string, candidate: string, hash: string -> string, issued: int, now: int)
    requires hash(candidate) != hash(plain)
    ensures !ResetTokenAccepted(CreatePasswordResetToken(u, plain, hash, issued).0, candidate, hash, now)
  {
  }
}
