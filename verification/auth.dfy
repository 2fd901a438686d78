/** The authentication routes: the in-memory signup OTP map, signup, login,
    and the durable password-reset OTP kept on the user document (forgot,
    verify, reset). The clock, the random draw and bcrypt are parameters. */
module Auth {
  import opened Common
  import opened Store
  import opened Models

  const ServerError := "Server error"

  /** Ten minutes in milliseconds, the lifetime of both kinds of OTP. */
  const OtpWindow := 10 * 60 * 1000

  // ------------------------------------------------------------ OTP strings

  function DigitChar(d: int): (c: char)
    requires 0 <= d < 10
    ensures '0' <= c <= '9'
  {
    ('0' as int + d) as char
  }

  /** `Number.prototype.toString()` on a natural number. */
  function Decimal(n: nat): (s: string)
    ensures 1 <= |s|
    ensures forall i :: 0 <= i < |s| ==> '0' <= s[i] <= '9'
    ensures n >= 10 ==> s[0] != '0'
  {
    if n < 10 then [DigitChar(n)] else Decimal(n / 10) + [DigitChar(n % 10)]
  }

  /** The value of a string of decimal digits. */
  function ParseDecimal(s: string): nat
    requires forall i :: 0 <= i < |s| ==> '0' <= s[i] <= '9'
  {
    if |s| == 0 then 0
    else ParseDecimal(s[..|s| - 1]) * 10 + (s[|s| - 1] as int - '0' as int)
  }

  /** Reading back the decimal digits gives the number that was printed. */
  lemma {:induction false} ParseDecimalOfDecimal(n: nat)
    ensures ParseDecimal(Decimal(n)) == n
  {
    if n >= 10 {
      ParseDecimalOfDecimal(n / 10);
      var s := Decimal(n);
      assert s[..|s| - 1] == Decimal(n / 10);
    }
  }

  function Pow10(k: nat): nat {
    if k == 0 then 1 else 10 * Pow10(k - 1)
  }

  /** A number in [10^(k-1), 10^k) prints with exactly k digits. */
  lemma {:induction false} DecimalLength(n: nat, k: nat)
    requires 1 <= k
    requires Pow10(k - 1) <= n < Pow10(k)
    ensures |Decimal(n)| == k
  {
    if k > 1 {
      DecimalLength(n / 10, k - 1);
    }
  }

  /** `Math.floor(100000 + Math.random() * 900000).toString()`, with the random
      part given as `draw`, the whole number `floor(Math.random() * 900000)`. */
  function GenerateOtp(draw: nat): (otp: string)
    requires draw < 900000
    ensures |otp| == 6
    ensures forall i :: 0 <= i < |otp| ==> '0' <= otp[i] <= '9'
    ensures 100000 <= ParseDecimal(otp) <= 999999
    ensures ParseDecimal(otp) == 100000 + draw
  {
    var otp := Decimal(100000 + draw);
    assert Pow10(5) == 100000 && Pow10(6) == 1000000;
    DecimalLength(100000 + draw, 6);
    ParseDecimalOfDecimal(100000 + draw);
    otp
  }

  // ---------------------------------------------------------- signup OTPs

  datatype OtpEntry = OtpEntry(otp: string, timestamp: Time)

  /** The process-wide `otpStore` object, keyed by e-mail. */
  type OtpStore = map<string, OtpEntry>

  datatype OtpStep = OtpStep(resp: Response<string>, otps: OtpStore)

  /** `POST /api/auth/send-otp`. */
  function SendOtp(users: Table<User>, otps: OtpStore, email: string, draw: nat, now: Time): (r: OtpStep)
    requires draw < 900000
    ensures FindByEmail(users, email).Some? <==> r.resp == Fail(400, "User already exists")
    ensures r.resp.Fail? ==> r.otps == otps
    ensures r.resp.Ok? ==>
      && r.resp.body == "OTP sent successfully"
      && email in r.otps
      && r.otps[email].otp == GenerateOtp(draw)
      && r.otps[email].timestamp == now
      && r.otps.Keys == otps.Keys + {email}
      && forall e :: e in otps && e != email ==> r.otps[e] == otps[e]
  {
    if FindByEmail(users, email).Some? then OtpStep(Fail(400, "User already exists"), otps)
    else OtpStep(Ok("OTP sent successfully"), otps[email := OtpEntry(GenerateOtp(draw), now)])
  }

  /** A `POST /api/auth/signup` body; `otp` is `None` when the key is absent. */
  datatype SignupRequest = SignupRequest(
    name: string, email: string, password: string, phone: Option<string>, role: string, otp: Option<string>)

  datatype SignupStep = SignupStep(resp: Response<string>, users: Table<User>, otps: OtpStore)

  /** The signup OTP check as written: a missing entry or a different code is
      "Invalid OTP"; otherwise more than ten minutes since issue is "expired". */
  function CheckSignupOtp(otps: OtpStore, email: string, otp: Option<string>, now: Time): (r: Option<string>)
    ensures r == None <==> email in otps && otp == Some(otps[email].otp) && now - otps[email].timestamp <= OtpWindow
    ensures r == Some("Invalid OTP") <==> email !in otps || otp != Some(otps[email].otp)
    ensures r.Some? ==> r == Some("Invalid OTP") || r == Some("OTP has expired")
  {
    if email !in otps || otp != Some(otps[email].otp) then Some("Invalid OTP")
    else if now - otps[email].timestamp > OtpWindow then Some("OTP has expired")
    else None
  }

  /** `POST /api/auth/signup`. `hash` stands for bcrypt's hash; a successful
      signup consumes the OTP entry. The route never checks for an existing
      user: the unique e-mail index rejects a duplicate at save time (a 500). */
  function Signup(users: Table<User>, otps: OtpStore, req: SignupRequest, now: Time, newId: Id,
                  hash: string -> string): (r: SignupStep)
    ensures r.resp.Fail? ==> r.users == users && r.otps == otps
    ensures CheckSignupOtp(otps, req.email, req.otp, now).Some? ==>
      r.resp == Fail(400, CheckSignupOtp(otps, req.email, req.otp, now).value)
    ensures r.resp.Ok? ==>
      && r.resp.body == "Signed up successfully"
      && CheckSignupOtp(otps, req.email, req.otp, now).None?
      && |r.users| == |users| + 1
      && r.users[..|users|] == users
      && r.users[|users|] == Doc(newId, r.users[|users|].val)
      && r.users[|users|].val.email == req.email
      && r.users[|users|].val.password == hash(req.password)
      && r.users[|users|].val.role == (if Truthy(req.role) then req.role else "user")
      && r.users[|users|].val.name == req.name
      && r.users[|users|].val.phone == req.phone
      && r.users[|users|].val.date == now
      && r.users[|users|].val.resetPasswordOtp.None?
      && r.users[|users|].val.resetPasswordOtpExpires.None?
      && r.otps == otps - {req.email}
    ensures r.resp.Ok? && UniqueEmails(users) ==> UniqueEmails(r.users)
    ensures r.resp.Ok? && UniqueIds(users) ==> UniqueIds(r.users)
  {
    var check := CheckSignupOtp(otps, req.email, req.otp, now);
    if check.Some? then SignupStep(Fail(400, check.value), users, otps)
    else
      var role := if Truthy(req.role) then req.role else "user";
      var u := NewUser(req.name, req.email, hash(req.password), req.phone, Some(role), now);
      if u.None? then SignupStep(Fail(500, ServerError), users, otps)
      else
        var users' := InsertUser(users, newId, u.value);
        if users'.None? then SignupStep(Fail(500, ServerError), users, otps)
        else
          assert users'.value[..|users|] == users;
          SignupStep(Ok("Signed up successfully"), users'.value, otps - {req.email})
  }

  /** Round trip: the code issued by send-otp signs the user up for ten minutes
      after issue, boundary included, and only once. */
  lemma SendOtpThenSignup(users: Table<User>, otps: OtpStore, draw: nat, t0: Time, now: Time,
                          req: SignupRequest, newId: Id, hash: string -> string)
    requires draw < 900000
    requires t0 <= now <= t0 + OtpWindow
    requires FindByEmail(users, req.email).None? && !Has(users, newId)
    requires Required(req.name) && Required(req.email) && Required(hash(req.password))
    requires req.otp == Some(GenerateOtp(draw))
    ensures var sent := SendOtp(users, otps, req.email, draw, t0);
      var first := Signup(users, sent.otps, req, now, newId, hash);
      && sent.resp.Ok?
      && first.resp.Ok?
      && Signup(first.users, first.otps, req, now, newId, hash).resp == Fail(400, "Invalid OTP")
  {
  }

  /** One millisecond past the window, the same code is refused as expired. */
  lemma SignupExpiresAfterWindow(otps: OtpStore, req: SignupRequest, users: Table<User>, newId: Id,
                                 hash: string -> string)
    requires req.email in otps && req.otp == Some(otps[req.email].otp)
    ensures Signup(users, otps, req, otps[req.email].timestamp + OtpWindow + 1, newId, hash).resp
            == Fail(400, "OTP has expired")
  {
  }

  // ------------------------------------------------------------------ login

  datatype LoginInfo = LoginInfo(name: string, role: string)

  /** `POST /api/auth/login`; `compare` stands for bcrypt's compare and is only
      consulted once the user has been found. */
  function Login(users: Table<User>, email: string, password: string,
                 compare: (string, string) -> bool): (r: Response<LoginInfo>)
    ensures FindByEmail(users, email).None? ==> r == Fail(400, "User not registered")
    ensures FindByEmail(users, email).Some? ==>
      var u := users[FindByEmail(users, email).value].val;
      && (!compare(password, u.password) ==> r == Fail(400, "Password not matching"))
      && (compare(password, u.password) ==> r == Ok(LoginInfo(u.name, u.role)))
  {
    var k := FindByEmail(users, email);
    if k.None? then Fail(400, "User not registered")
    else
      var u := users[k.value].val;
      if !compare(password, u.password) then Fail(400, "Password not matching")
      else Ok(LoginInfo(u.name, u.role))
  }

  /** An unknown e-mail gets the same answer whatever the password checker says. */
  lemma LoginUnknownIgnoresPassword(users: Table<User>, email: string, p1: string, p2: string,
                                    c1: (string, string) -> bool, c2: (string, string) -> bool)
    requires FindByEmail(users, email).None?
    ensures Login(users, email, p1, c1) == Login(users, email, p2, c2)
  {
  }

  // ------------------------------------------------------------ reset OTPs

  datatype UsersStep = UsersStep(resp: Response<string>, users: Table<User>)

  /** `POST /api/auth/forgot-password`: stores a fresh code and its expiry on that
      user only. */
  function ForgotPassword(users: Table<User>, email: string, draw: nat, now: Time): (r: UsersStep)
    requires draw < 900000
    ensures FindByEmail(users, email).None? <==> r == UsersStep(Fail(400, "User not found"), users)
    ensures r.resp.Fail? ==> r.users == users
    ensures |r.users| == |users|
    ensures r.resp.Ok? ==>
      var k := FindByEmail(users, email).value;
      && r.resp.body == "OTP sent to your email"
      && r.users[k].id == users[k].id
      && r.users[k].val.resetPasswordOtp == Some(GenerateOtp(draw))
      && r.users[k].val.resetPasswordOtpExpires == Some(now + OtpWindow)
      && r.users[k].val.(resetPasswordOtp := users[k].val.resetPasswordOtp,
                         resetPasswordOtpExpires := users[k].val.resetPasswordOtpExpires) == users[k].val
      && forall j :: 0 <= j < |users| && j != k ==> r.users[j] == users[j]
  {
    var k := FindByEmail(users, email);
    if k.None? then UsersStep(Fail(400, "User not found"), users)
    else
      var u := users[k.value].val;
      var u' := u.(resetPasswordOtp := Some(GenerateOtp(draw)), resetPasswordOtpExpires := Some(now + OtpWindow));
      if !UserValid(u') then UsersStep(Fail(500, ServerError), users)
      else UsersStep(Ok("OTP sent to your email"), users[k.value := Doc(users[k.value].id, u')])
  }

  /** JavaScript `a < b` where `a` may be `undefined`: `undefined < n` is false. */
  predicate JsLess(a: Option<Time>, b: Time) {
    a.Some? && a.value < b
  }

  /** The guard of verify-otp and reset-password, taken literally:
      `user.resetPasswordOtp !== otp || user.resetPasswordOtpExpires < Date.now()`.
      Two absent values compare equal under `!==`. */
  predicate OtpRejected(u: User, otp: Option<string>, now: Time) {
    u.resetPasswordOtp != otp || JsLess(u.resetPasswordOtpExpires, now)
  }

  /** `POST /api/auth/verify-otp`; never writes. */
  function VerifyOtp(users: Table<User>, email: string, otp: Option<string>, now: Time): (r: Response<string>)
    ensures FindByEmail(users, email).None? ==> r == Fail(400, "User not found")
    ensures r.Ok? <==>
      && FindByEmail(users, email).Some?
      && users[FindByEmail(users, email).value].val.resetPasswordOtp == otp
      && !JsLess(users[FindByEmail(users, email).value].val.resetPasswordOtpExpires, now)
    ensures r.Ok? ==> r.body == "OTP verified successfully"
    ensures r.Fail? && FindByEmail(users, email).Some? ==> r == Fail(400, "Invalid or expired OTP")
  {
    var k := FindByEmail(users, email);
    if k.None? then Fail(400, "User not found")
    else if OtpRejected(users[k.value].val, otp, now) then Fail(400, "Invalid or expired OTP")
    else Ok("OTP verified successfully")
  }

  /** `POST /api/auth/reset-password` as written: the same guard as verify, then
      the new hash is stored and both OTP fields are unset. */
  function ResetPassword(users: Table<User>, email: string, otp: Option<string>, newPassword: string,
                         now: Time, hash: string -> string): (r: UsersStep)
    ensures FindByEmail(users, email).None? ==> r == UsersStep(Fail(400, "User not found"), users)
    ensures r.resp.Fail? ==> r.users == users
    ensures |r.users| == |users|
    ensures FindByEmail(users, email).Some? && OtpRejected(users[FindByEmail(users, email).value].val, otp, now)
            ==> r.resp == Fail(400, "Invalid or expired OTP")
    ensures r.resp.Ok? ==>
      var k := FindByEmail(users, email).value;
      && VerifyOtp(users, email, otp, now).Ok?
      && r.resp.body == "Password reset successfully"
      && r.users[k].id == users[k].id
      && r.users[k].val.password == hash(newPassword)
      && r.users[k].val.resetPasswordOtp == None
      && r.users[k].val.resetPasswordOtpExpires == None
      && r.users[k].val.(password := users[k].val.password,
                         resetPasswordOtp := users[k].val.resetPasswordOtp,
                         resetPasswordOtpExpires := users[k].val.resetPasswordOtpExpires) == users[k].val
      && forall j :: 0 <= j < |users| && j != k ==> r.users[j] == users[j]
  {
    var k := FindByEmail(users, email);
    if k.None? then UsersStep(Fail(400, "User not found"), users)
    else
      var u := users[k.value].val;
      if OtpRejected(u, otp, now) then UsersStep(Fail(400, "Invalid or expired OTP"), users)
      else
        var u' := u.(password := hash(newPassword), resetPasswordOtp := None, resetPasswordOtpExpires := None);
        if !UserValid(u') then UsersStep(Fail(500, ServerError), users)
        else UsersStep(Ok("Password reset successfully"), users[k.value := Doc(users[k.value].id, u')])
  }

  /** verify-otp and reset-password accept exactly the same requests (for a
      valid user and a non-empty hash). */
  lemma VerifyAgreesWithReset(users: Table<User>, email: string, otp: Option<string>, newPassword: string,
                              now: Time, hash: string -> string)
    requires forall i :: 0 <= i < |users| ==> UserValid(users[i].val)
    requires Required(hash(newPassword))
    ensures VerifyOtp(users, email, otp, now).Ok? <==> ResetPassword(users, email, otp, newPassword, now, hash).resp.Ok?
  {
  }

  /** Round trip: the code forgot-password stores is accepted by verify-otp up to
      and including its expiry instant, and refused after it. */
  lemma ForgotThenVerify(users: Table<User>, email: string, draw: nat, t0: Time, now: Time)
    requires draw < 900000
    requires forall i :: 0 <= i < |users| ==> UserValid(users[i].val)
    requires FindByEmail(users, email).Some?
    ensures var f := ForgotPassword(users, email, draw, t0);
      && f.resp.Ok?
      && (VerifyOtp(f.users, email, Some(GenerateOtp(draw)), now).Ok? <==> now <= t0 + OtpWindow)
  {
    var k := FindByEmail(users, email).value;
    var f := ForgotPassword(users, email, draw, t0);
    assert UserValid(users[k].val);
    assert FindByEmail(f.users, email) == Some(k) by {
      FindByEmailFrame(users, f.users, email, k);
    }
  }

  /** After a successful reset no code string is accepted any more: both OTP fields
      are gone, and a present code never equals an absent one. */
  lemma ResetConsumesCode(users: Table<User>, email: string, otp: Option<string>, newPassword: string,
                          now: Time, hash: string -> string, code: string, later: Time)
    requires ResetPassword(users, email, otp, newPassword, now, hash).resp.Ok?
    ensures VerifyOtp(ResetPassword(users, email, otp, newPassword, now, hash).users, email, Some(code), later).Fail?
  {
    var k := FindByEmail(users, email).value;
    var r := ResetPassword(users, email, otp, newPassword, now, hash);
    FindByEmailFrame(users, r.users, email, k);
  }

  /** Rewriting a user's document without changing e-mails does not move `findOne`. */
  lemma {:induction false} FindByEmailFrame(a: Table<User>, b: Table<User>, email: string, k: nat)
    requires |a| == |b|
    requires forall i :: 0 <= i < |a| ==> a[i].val.email == b[i].val.email
    requires FindByEmail(a, email) == Some(k)
    ensures FindByEmail(b, email) == Some(k)
  {
    if a[0].val.email != email {
      FindByEmailFrame(a[1..], b[1..], email, k - 1);
    }
  }

  // ---------------------------------------------------------------- finding

  /** As written, a reset request that omits `otp` is accepted for any user who
      has no reset pending: both sides of `!==` are `undefined`, and
      `undefined < now` is false. Anyone who knows the e-mail can set the password. */
  lemma ResetWithoutCodeAccepted(now: Time, hash: string -> string)
    requires Required(hash("attacker"))
    ensures var users := [Doc("u1", User("Ann", "ann@example.com", "h", None, "user", 0, None, None))];
      ResetPassword(users, "ann@example.com", None, "attacker", now, hash).resp.Ok?
  {
  }

  /** The guard evidently intended: a code must have been issued, must match, and
      must not have expired. */
  predicate OtpAccepted(u: User, otp: Option<string>, now: Time) {
    && u.resetPasswordOtp.Some? && u.resetPasswordOtpExpires.Some?
    && otp == u.resetPasswordOtp
    && now <= u.resetPasswordOtpExpires.value
  }

  /** reset-password with the intended guard. */
  function ResetPasswordChecked(users: Table<User>, email: string, otp: Option<string>, newPassword: string,
                                now: Time, hash: string -> string): (r: UsersStep)
    ensures r.resp.Fail? ==> r.users == users
    ensures |r.users| == |users|
    ensures r.resp.Ok? ==> FindByEmail(users, email).Some?
    ensures r.resp.Ok? ==>
      var k := FindByEmail(users, email).value;
      && OtpAccepted(users[k].val, otp, now)
      && otp.Some?
      && r.users[k].val.password == hash(newPassword)
      && r.users[k].val.resetPasswordOtp == None
      && forall j :: 0 <= j < |users| && j != k ==> r.users[j] == users[j]
    ensures FindByEmail(users, email).Some? && OtpAccepted(users[FindByEmail(users, email).value].val, otp, now) ==>
      r == ResetPassword(users, email, otp, newPassword, now, hash)
  {
    var k := FindByEmail(users, email);
    if k.None? then UsersStep(Fail(400, "User not found"), users)
    else if !OtpAccepted(users[k.value].val, otp, now) then UsersStep(Fail(400, "Invalid or expired OTP"), users)
    else ResetPassword(users, email, otp, newPassword, now, hash)
  }

  /** The corrected route refuses every request for a user with no reset pending,
      with or without a code. */
  lemma CheckedResetNeedsIssuedCode(users: Table<User>, email: string, otp: Option<string>, newPassword: string,
                                    now: Time, hash: string -> string)
    requires FindByEmail(users, email).Some?
    requires users[FindByEmail(users, email).value].val.resetPasswordOtp.None?
    ensures ResetPasswordChecked(users, email, otp, newPassword, now, hash).resp.Fail?
  {
  }
}
