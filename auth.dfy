/** Sign-up, login, email verification by one-time code, and onboarding
    (backend/src/controllers/auth.controller.js). Randomness (`Math.random`
    draws), bcrypt (the stored hash and the comparison), the clock and the
    new user's id are parameters; JWT signing becomes a Session value. */
module Auth {
  import opened Common
  import opened Users

  datatype Failure =
    | FieldsRequired | PasswordTooShort | InvalidEmail | AccountExists
    | InvalidCredentials | VerifyFirst | UserNotFound
    | NoOtpPending | OtpExpired | InvalidOtp
    | OnboardingFieldsMissing(missing: seq<Field>)

  /** An error reply: HTTP status and what went wrong. */
  datatype AuthError = AuthError(status: nat, failure: Failure)

  /** A signed-in session: the token's user and the cookie's lifetime. */
  datatype Session = Session(userId: UserId, maxAge: int)

  const MinPasswordLength := 6
  /** A code is valid for 10 minutes. */
  const OtpLifetime := 10 * 60 * 1000
  /** Token and cookie last 7 days. */
  const SessionLifetime := 7 * 24 * 60 * 60 * 1000

  // ------------------------------------------------------------- email

  /** Text allowed in each part of an address: no whitespace, no `@`. */
  predicate Plain(s: string) {
    forall k :: 0 <= k < |s| ==> !IsJsSpace(s[k]) && s[k] != '@'
  }

  /** `/^[^\s@]+@[^\s@]+\.[^\s@]+$/`: three non-empty plain parts joined
      by `@` and by a dot. */
  ghost predicate MatchesEmailPattern(s: string) {
    exists i, j :: 0 < i && i + 1 < j && j + 1 < |s| && s[i] == '@' && s[j] == '.'
                   && Plain(s[..i]) && Plain(s[i + 1..j]) && Plain(s[j + 1..])
  }

  /** The test signup runs: no whitespace at all, exactly one `@`, not
      first, and a dot after the `@` with at least one character on each
      side of it. */
  predicate EmailValid(s: string) {
    && (forall k :: 0 <= k < |s| ==> !IsJsSpace(s[k]))
    && match FirstIndex(s, (c: char) => c == '@')
       case None => false
       case Some(p) =>
         && p >= 1
         && (forall k :: p < k < |s| ==> s[k] != '@')
         && exists d :: p + 1 < d < |s| - 1 && s[d] == '.'
  }

  /** The test accepts exactly the strings the regular expression
      matches. */
  lemma EmailValidIff(s: string)
    ensures EmailValid(s) <==> MatchesEmailPattern(s)
  {
    if EmailValid(s) {
      EmailValidMatches(s);
    }
    if MatchesEmailPattern(s) {
      var i, j :| 0 < i && i + 1 < j && j + 1 < |s| && s[i] == '@' && s[j] == '.'
                  && Plain(s[..i]) && Plain(s[i + 1..j]) && Plain(s[j + 1..]);
      MatchIsValid(s, i, j);
    }
  }

  /** Every string the test accepts splits at its `@` and at a later dot
      into three plain parts. */
  lemma EmailValidMatches(s: string)
    requires EmailValid(s)
    ensures MatchesEmailPattern(s)
  {
    var p := FirstIndex(s, (c: char) => c == '@').value;
    var d :| p + 1 < d < |s| - 1 && s[d] == '.';
    assert Plain(s[..p]);
    assert Plain(s[p + 1..d]);
    assert Plain(s[d + 1..]);
  }

  /** A string made of three plain parts joined by `@` at i and a dot at j
      passes the test. */
  lemma MatchIsValid(s: string, i: nat, j: nat)
    requires 0 < i && i + 1 < j && j + 1 < |s| && s[i] == '@' && s[j] == '.'
    requires Plain(s[..i]) && Plain(s[i + 1..j]) && Plain(s[j + 1..])
    ensures EmailValid(s)
  {
    forall k | 0 <= k < |s| ensures !IsJsSpace(s[k]) && (s[k] == '@' ==> k == i) {
      if k < i {
        assert s[k] == s[..i][k];
      } else if i < k < j {
        assert s[k] == s[i + 1..j][k - i - 1];
      } else if k > j {
        assert s[k] == s[j + 1..][k - j - 1];
      }
    }
    assert FirstIndex(s, (c: char) => c == '@') == Some(i);
  }

  // ------------------------------------------------------------ signup

  /** The first user with this email (`User.findOne({ email })`). */
  function UserByEmail(users: seq<User>, email: string): (r: Option<User>)
    ensures r.None? <==> forall k :: 0 <= k < |users| ==> users[k].email != email
    ensures r.Some? ==> r.value in users && r.value.email == email
  {
    match EmailIndex(users, email)
    case None => None
    case Some(k) => Some(users[k])
  }

  /** The guards of signup, in order: a missing field (400), a password
      under 6 UTF-16 units (400), an address the pattern refuses (400), an
      address already registered (409). None when all pass. */
  function SignupRefusal(users: seq<User>, email: Option<string>, password: Option<string>, fullName: Option<string>)
    : (r: Option<AuthError>)
    ensures !Truthy(email) || !Truthy(password) || !Truthy(fullName) ==> r == Some(AuthError(400, FieldsRequired))
    ensures Truthy(email) && Truthy(password) && Truthy(fullName) ==>
      && (Utf16Length(password.value) < MinPasswordLength ==> r == Some(AuthError(400, PasswordTooShort)))
      && (Utf16Length(password.value) >= MinPasswordLength && !MatchesEmailPattern(email.value) ==>
            r == Some(AuthError(400, InvalidEmail)))
      && (Utf16Length(password.value) >= MinPasswordLength && MatchesEmailPattern(email.value) ==>
            && (UserByEmail(users, email.value).Some? ==> r == Some(AuthError(409, AccountExists)))
            && (UserByEmail(users, email.value).None? ==> r.None?))
    ensures r.Some? && r.value.status == 409 ==> r.value.failure == AccountExists
  {
    if !Truthy(email) || !Truthy(password) || !Truthy(fullName) then Some(AuthError(400, FieldsRequired))
    else if Utf16Length(password.value) < MinPasswordLength then Some(AuthError(400, PasswordTooShort))
    else if !EmailValid(email.value) then
      EmailValidIff(email.value);
      Some(AuthError(400, InvalidEmail))
    else if UserByEmail(users, email.value).Some? then
      Some(AuthError(409, AccountExists))
    else
      EmailValidIff(email.value);
      None
  }

  const AvatarBase: string := "https://avatar.iran.liara.run/public/"

  /** The generated avatar: one of the 100 public avatars, the index printed
      in decimal between the service's base and `.png`. */
  function AvatarUrl(idx: nat): (r: string)
    ensures |r| > |AvatarBase| + 4 && r[..|AvatarBase|] == AvatarBase && r[|r| - 4..] == ".png"
    ensures IsDigits(r[|AvatarBase|..|r| - 4]) && DigitsValue(r[|AvatarBase|..|r| - 4]) == idx
  {
    var digits := NatToString(idx);
    NatToStringRoundTrip(idx);
    var r := AvatarBase + digits + ".png";
    assert r[|AvatarBase|..|r| - 4] == digits;
    r
  }

  /** Different draws give different avatars. */
  lemma AvatarUrlInjective(m: nat, n: nat)
    ensures AvatarUrl(m) == AvatarUrl(n) ==> m == n
  {
  }

  /** The one-time code for a draw below 900000: `100000 + draw` printed in
      decimal. */
  function OtpCode(draw: nat): (code: string)
    requires draw < 900000
    ensures |code| == 6 && IsDigits(code) && code[0] != '0'
    ensures DigitsValue(code) == 100000 + draw
  {
    assert Pow10(1) == 10 && Pow10(2) == 100 && Pow10(3) == 1000;
    assert Pow10(4) == 10000 && Pow10(5) == 100000 && Pow10(6) == 1000000;
    NatToStringLength(100000 + draw, 6);
    NatToStringRoundTrip(100000 + draw);
    NatToString(100000 + draw)
  }

  /** The user signup creates: unverified, not onboarded, no friends, the
      avatar `avatarDraw + 1`, and a pending code expiring in 10 minutes.
      `passwordHash` is what the pre-save hook stores. */
  function NewAccount(id: UserId, email: string, fullName: string, passwordHash: string,
                      avatarDraw: nat, otpDraw: nat, now: Millis): (u: User)
    requires avatarDraw < 100 && otpDraw < 900000
    ensures u.id == id && u.email == email && u.fullName == fullName && u.password == Some(passwordHash)
    ensures !u.isEmailVerified && !u.isOnboarded && u.friends == [] && u.googleId.None?
    ensures u.otp.Some? && |u.otp.value| == 6 && IsDigits(u.otp.value)
    ensures u.otpExpires == Some(now + OtpLifetime)
    ensures exists idx :: 1 <= idx <= 100 && u.profilePic == AvatarUrl(idx)
  {
    User(id, email, fullName, Some(passwordHash), None, "", AvatarUrl(avatarDraw + 1), "", false,
         Some(OtpCode(otpDraw)), Some(now + OtpLifetime), false, [])
  }

  /** signup: stores the new account when every guard passes and answers
      with its id only; no session is issued. */
  method Signup(users: UserCollection, email: Option<string>, password: Option<string>, fullName: Option<string>,
                passwordHash: string, avatarDraw: nat, otpDraw: nat, now: Millis, id: UserId)
    returns (r: Result<UserId, AuthError>)
    requires users.Valid()
    requires avatarDraw < 100 && otpDraw < 900000
    requires forall k :: 0 <= k < |users.users| ==> users.users[k].id != id
    modifies users
    ensures SignupRefusal(old(users.users), email, password, fullName).Some? ==>
      r == Err(SignupRefusal(old(users.users), email, password, fullName).value) && users.users == old(users.users)
    ensures SignupRefusal(old(users.users), email, password, fullName).None? ==>
      r == Ok(id) &&
      users.users == old(users.users) + [NewAccount(id, email.value, fullName.value, passwordHash, avatarDraw, otpDraw, now)]
    ensures users.Valid()
  {
    var refusal := SignupRefusal(users.users, email, password, fullName);
    if refusal.Some? {
      return Err(refusal.value);
    }
    var u := NewAccount(id, email.value, fullName.value, passwordHash, avatarDraw, otpDraw, now);
    users.users := users.users + [u];
    r := Ok(id);
  }

  // ------------------------------------------------------------- login

  /** The login gate: an unverified account with a code or an expiry still
      recorded must verify first. */
  predicate MustVerify(u: User)
    ensures u.isEmailVerified ==> !MustVerify(u)
    ensures !u.isEmailVerified && !Truthy(u.otp) && u.otpExpires.None? ==> !MustVerify(u)
    ensures !u.isEmailVerified && (Truthy(u.otp) || u.otpExpires.Some?) ==> MustVerify(u)
  {
    !u.isEmailVerified && (Truthy(u.otp) || u.otpExpires.Some?)
  }

  /** login: 400 without both fields; the same 401 for an unknown address
      and a wrong password; 403 while verification is pending; otherwise a
      session for 7 days. */
  function Login(users: seq<User>, email: Option<string>, password: Option<string>,
                 bcryptCompare: (string, string) -> bool): (r: Result<Session, AuthError>)
    ensures !Truthy(email) || !Truthy(password) ==> r == Err(AuthError(400, FieldsRequired))
    ensures r.Ok? <==>
      && Truthy(email) && Truthy(password)
      && UserByEmail(users, email.value).Some?
      && MatchPassword(UserByEmail(users, email.value).value, password.value, bcryptCompare)
      && !MustVerify(UserByEmail(users, email.value).value)
    ensures r.Ok? ==> r.value == Session(UserByEmail(users, email.value).value.id, SessionLifetime)
    ensures r.Err? && r.error.status == 403 <==>
      && Truthy(email) && Truthy(password)
      && UserByEmail(users, email.value).Some?
      && MatchPassword(UserByEmail(users, email.value).value, password.value, bcryptCompare)
      && MustVerify(UserByEmail(users, email.value).value)
  {
    if !Truthy(email) || !Truthy(password) then Err(AuthError(400, FieldsRequired))
    else match UserByEmail(users, email.value)
      case None => Err(AuthError(401, InvalidCredentials))
      case Some(u) =>
        if !MatchPassword(u, password.value, bcryptCompare) then Err(AuthError(401, InvalidCredentials))
        else if MustVerify(u) then Err(AuthError(403, VerifyFirst))
        else Ok(Session(u.id, SessionLifetime))
  }

  /** An unknown address and a wrong password get the very same reply, so
      the reply does not tell which one it was. */
  lemma LoginHidesUnknownAccount(users: seq<User>, email: string, password: string,
                                 bcryptCompare: (string, string) -> bool)
    requires email != "" && password != ""
    requires UserByEmail(users, email).None? ||
             !MatchPassword(UserByEmail(users, email).value, password, bcryptCompare)
    ensures Login(users, Some(email), Some(password), bcryptCompare) == Err(AuthError(401, InvalidCredentials))
  {
  }

  /** A fresh account cannot log in, whatever the password, until its
      address is verified. */
  lemma NoLoginBeforeVerification(users: seq<User>, id: UserId, email: string, fullName: string, passwordHash: string,
                                  avatarDraw: nat, otpDraw: nat, now: Millis, password: Option<string>,
                                  bcryptCompare: (string, string) -> bool)
    requires avatarDraw < 100 && otpDraw < 900000
    requires UserByEmail(users, email).None?
    ensures Login(users + [NewAccount(id, email, fullName, passwordHash, avatarDraw, otpDraw, now)],
                  Some(email), password, bcryptCompare).Err?
  {
    var u := NewAccount(id, email, fullName, passwordHash, avatarDraw, otpDraw, now);
    var all := users + [u];
    assert all[|users|] == u;
    assert UserByEmail(all, email) == Some(u) by {
      assert forall k :: 0 <= k < |users| ==> all[k] == users[k];
    }
  }

  // ------------------------------------------------------ verification

  /** What verification answers when it succeeds. */
  datatype Verified = AlreadyVerified | NowVerified(session: Session)

  /** One step of verifyEmailOtp on the account found: the reply and the
      account as saved. */
  datatype VerifyStep = VerifyStep(reply: Result<Verified, AuthError>, user: User)

  /** The checks after the account is found, in order: already verified
      (200, nothing changes), no code or no expiry recorded (400), expiry
      strictly before now (400), a different code (400); on success the
      account is verified and both code fields are cleared. */
  function Verify(u: User, code: string, now: Millis): (r: VerifyStep)
    ensures r.reply.Err? ==> r.user == u && r.reply.error.status == 400
    ensures u.isEmailVerified ==> r == VerifyStep(Ok(AlreadyVerified), u)
    ensures !u.isEmailVerified && (!Truthy(u.otp) || u.otpExpires.None?) ==>
      r.reply == Err(AuthError(400, NoOtpPending))
    ensures !u.isEmailVerified && Truthy(u.otp) && u.otpExpires.Some? && u.otpExpires.value < now ==>
      r.reply == Err(AuthError(400, OtpExpired))
    ensures !u.isEmailVerified && Truthy(u.otp) && u.otpExpires.Some? && !(u.otpExpires.value < now)
            && u.otp.value != code ==>
      r.reply == Err(AuthError(400, InvalidOtp))
    ensures r.reply == Ok(NowVerified(Session(u.id, SessionLifetime))) <==>
      && !u.isEmailVerified && Truthy(u.otp) && u.otpExpires.Some?
      && !(u.otpExpires.value < now) && u.otp.value == code
    ensures r.reply.Ok? && !u.isEmailVerified ==>
      r.user == u.(isEmailVerified := true, otp := None, otpExpires := None)
  {
    if u.isEmailVerified then VerifyStep(Ok(AlreadyVerified), u)
    else if !Truthy(u.otp) || u.otpExpires.None? then VerifyStep(Err(AuthError(400, NoOtpPending)), u)
    else if u.otpExpires.value < now then VerifyStep(Err(AuthError(400, OtpExpired)), u)
    else if u.otp.value != code then VerifyStep(Err(AuthError(400, InvalidOtp)), u)
    else VerifyStep(Ok(NowVerified(Session(u.id, SessionLifetime))),
                    u.(isEmailVerified := true, otp := None, otpExpires := None))
  }

  /** Verifying again after a success takes the already-verified branch
      and changes nothing. */
  lemma VerifyIdempotent(u: User, code: string, now: Millis, code': string, later: Millis)
    requires Verify(u, code, now).reply.Ok?
    ensures Verify(Verify(u, code, now).user, code', later) ==
            VerifyStep(Ok(AlreadyVerified), Verify(u, code, now).user)
  {
  }

  /** Once verified, the account passes the login gate. */
  lemma VerifiedPassesGate(u: User, code: string, now: Millis)
    requires Verify(u, code, now).reply.Ok?
    ensures !MustVerify(Verify(u, code, now).user)
  {
  }

  /** verifyEmailOtp: 400 without both fields, 404 for an unknown
      address, then the checks of Verify on that account. */
  method VerifyEmailOtp(users: UserCollection, email: Option<string>, code: Option<string>, now: Millis)
    returns (r: Result<Verified, AuthError>)
    requires users.Valid()
    modifies users
    ensures !Truthy(email) || !Truthy(code) ==> r == Err(AuthError(400, FieldsRequired))
    ensures Truthy(email) && Truthy(code) && old(EmailIndex(users.users, email.value)).None? ==>
      r == Err(AuthError(404, UserNotFound))
    ensures Truthy(email) && Truthy(code) && old(EmailIndex(users.users, email.value)).Some? ==>
      var k := old(EmailIndex(users.users, email.value)).value;
      var step := Verify(old(users.users)[k], code.value, now);
      r == step.reply && users.users == old(users.users)[k := step.user]
    ensures r.Err? ==> users.users == old(users.users)
    ensures users.Valid()
  {
    if !Truthy(email) || !Truthy(code) {
      return Err(AuthError(400, FieldsRequired));
    }
    var k := EmailIndex(users.users, email.value);
    if k.None? {
      return Err(AuthError(404, UserNotFound));
    }
    var step := Verify(users.users[k.value], code.value, now);
    if step.user != users.users[k.value] {
      users.users := users.users[k.value := step.user];
    } else {
      assert users.users[k.value := step.user] == users.users;
    }
    r := step.reply;
  }

  // ------------------------------------------------------------ resend

  /** The account after a resend: a new code and a new expiry. */
  function Reissue(u: User, otpDraw: nat, now: Millis): (u': User)
    requires otpDraw < 900000
    ensures u' == u.(otp := u'.otp, otpExpires := u'.otpExpires)
    ensures u'.otp.Some? && |u'.otp.value| == 6 && IsDigits(u'.otp.value)
    ensures u'.otpExpires == Some(now + OtpLifetime)
  {
    u.(otp := Some(OtpCode(otpDraw)), otpExpires := Some(now + OtpLifetime))
  }

  /** The reissued code verifies an unverified account until it expires. */
  lemma ResendThenVerify(u: User, otpDraw: nat, now: Millis, t: Millis)
    requires otpDraw < 900000 && !u.isEmailVerified
    requires t <= now + OtpLifetime
    ensures Verify(Reissue(u, otpDraw, now), OtpCode(otpDraw), t).reply == Ok(NowVerified(Session(u.id, SessionLifetime)))
  {
  }

  /** resendEmailOtp: 400 without an address, 404 for an unknown one, no
      change for a verified account, otherwise a new code and expiry. */
  method ResendEmailOtp(users: UserCollection, email: Option<string>, otpDraw: nat, now: Millis)
    returns (r: Result<bool, AuthError>)
    requires users.Valid() && otpDraw < 900000
    modifies users
    ensures !Truthy(email) ==> r == Err(AuthError(400, FieldsRequired)) && users.users == old(users.users)
    ensures Truthy(email) && old(EmailIndex(users.users, email.value)).None? ==>
      r == Err(AuthError(404, UserNotFound)) && users.users == old(users.users)
    ensures Truthy(email) && old(EmailIndex(users.users, email.value)).Some? ==>
      var k := old(EmailIndex(users.users, email.value)).value;
      && r.Ok?
      && (old(users.users)[k].isEmailVerified ==> users.users == old(users.users))
      && (!old(users.users)[k].isEmailVerified ==> users.users == old(users.users)[k := Reissue(old(users.users)[k], otpDraw, now)])
    ensures users.Valid()
  {
    if !Truthy(email) {
      return Err(AuthError(400, FieldsRequired));
    }
    var k := EmailIndex(users.users, email.value);
    if k.None? {
      return Err(AuthError(404, UserNotFound));
    }
    var u := users.users[k.value];
    if u.isEmailVerified {
      return Ok(false);
    }
    users.users := users.users[k.value := Reissue(u, otpDraw, now)];
    r := Ok(true);
  }

  // ------------------------------------------------------------ onboard

  /** The onboarding body; an absent key is None. */
  datatype OnboardBody = OnboardBody(fullName: Option<string>, bio: Option<string>, nativeLanguage: Option<string>,
                                     learningLanguage: Option<string>, location: Option<string>)

  /** The five fields of the onboarding form, in the form's order. */
  datatype Field = FullName | Bio | NativeLanguage | LearningLanguage | Location

  /** The name a field is reported under. */
  function FieldName(f: Field): string {
    match f
    case FullName => "fullName"
    case Bio => "bio"
    case NativeLanguage => "nativeLanguage"
    case LearningLanguage => "learningLanguage"
    case Location => "location"
  }

  /** A field's position in the form. */
  function Rank(f: Field): nat {
    match f
    case FullName => 0
    case Bio => 1
    case NativeLanguage => 2
    case LearningLanguage => 3
    case Location => 4
  }

  function FieldValue(b: OnboardBody, f: Field): Option<string> {
    match f
    case FullName => b.fullName
    case Bio => b.bio
    case NativeLanguage => b.nativeLanguage
    case LearningLanguage => b.learningLanguage
    case Location => b.location
  }

  /** The `missingFields` list: exactly the falsy fields, each once, in the
      order of the form. */
  function MissingFields(b: OnboardBody): (r: seq<Field>)
    ensures forall f :: f in r <==> !Truthy(FieldValue(b, f))
    ensures forall i, j :: 0 <= i < j < |r| ==> Rank(r[i]) < Rank(r[j])
  {
    (if !Truthy(b.fullName) then [FullName] else []) +
    (if !Truthy(b.bio) then [Bio] else []) +
    (if !Truthy(b.nativeLanguage) then [NativeLanguage] else []) +
    (if !Truthy(b.learningLanguage) then [LearningLanguage] else []) +
    (if !Truthy(b.location) then [Location] else [])
  }

  /** Onboarding goes ahead exactly when every field is truthy. */
  lemma OnboardGuardIff(b: OnboardBody)
    ensures MissingFields(b) == [] <==>
      (Truthy(b.fullName) && Truthy(b.bio) && Truthy(b.nativeLanguage) && Truthy(b.learningLanguage) && Truthy(b.location))
  {
    if MissingFields(b) == [] {
      assert FullName !in MissingFields(b) && Bio !in MissingFields(b) && NativeLanguage !in MissingFields(b)
          && LearningLanguage !in MissingFields(b) && Location !in MissingFields(b);
    }
  }

  /** onboard: 400 with the missing names while any field is falsy; 404
      when the caller's account is gone; otherwise the name, bio and
      location are stored and the account is marked onboarded. The two
      language fields have no path in the user schema and are dropped. */
  method Onboard(users: UserCollection, me: UserId, b: OnboardBody) returns (r: Result<User, AuthError>)
    requires users.Valid()
    modifies users
    ensures MissingFields(b) != [] ==>
      r == Err(AuthError(400, OnboardingFieldsMissing(MissingFields(b)))) && users.users == old(users.users)
    ensures MissingFields(b) == [] && old(users.IndexOfId(me)).None? ==>
      r == Err(AuthError(404, UserNotFound)) && users.users == old(users.users)
    ensures MissingFields(b) == [] && old(users.IndexOfId(me)).Some? ==>
      var k := old(users.IndexOfId(me)).value;
      var u := old(users.users)[k].(fullName := b.fullName.value, bio := b.bio.value,
                                    location := b.location.value, isOnboarded := true);
      r == Ok(u) && users.users == old(users.users)[k := u]
    ensures users.Valid()
  {
    var missing := MissingFields(b);
    if missing != [] {
      return Err(AuthError(400, OnboardingFieldsMissing(missing)));
    }
    var k := users.IndexOfId(me);
    if k.None? {
      return Err(AuthError(404, UserNotFound));
    }
    var u := users.users[k.value].(fullName := b.fullName.value, bio := b.bio.value,
                                   location := b.location.value, isOnboarded := true);
    users.users := users.users[k.value := u];
    r := Ok(u);
  }
}
