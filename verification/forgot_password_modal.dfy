/** The three-step password-recovery wizard on the client: the step indicator,
    the send / verify / reset transitions with the requests they make, the
    resend timer, and closing. Server answers are parameters. */
module ForgotPasswordModal {
  import opened Common
  import opened Store
  import opened Models
  import Auth

  // ---------------------------------------------------------- step indicator

  datatype StepStatus = Completed | Active | Upcoming

  /** The indicator of step `n` while the wizard is on step `current`. */
  function StatusOf(current: int, n: int): (s: StepStatus)
    ensures s == Completed <==> current > n
    ensures s == Active <==> current == n
  {
    if current > n then Completed else if current == n then Active else Upcoming
  }

  /** On steps 1 to 3 exactly one of the three indicators is active, those
      before it are completed and those after it are upcoming. */
  lemma ExactlyOneActive(current: int)
    requires 1 <= current <= 3
    ensures forall n :: 1 <= n <= 3 ==> (StatusOf(current, n) == Active <==> n == current)
    ensures forall n :: 1 <= n < current ==> StatusOf(current, n) == Completed
    ensures forall n :: current < n <= 3 ==> StatusOf(current, n) == Upcoming
  {
  }

  // ------------------------------------------------------------------ state

  datatype Kind = Success | Error

  /** `message` is either cleared ('') or a text with its kind. */
  datatype Message = NoMessage | Msg(text: string, kind: Kind)

  datatype Wizard = Wizard(
    email: string,
    otp: string,
    newPassword: string,
    confirmPassword: string,
    step: int,
    message: Message,
    timer: int,
    resendDisabled: bool)

  const Initial := Wizard("", "", "", "", 1, NoMessage, 0, false)

  /** A request body the wizard posts. */
  datatype Request =
    | ForgotRequest(email: string)
    | VerifyRequest(email: string, otp: string)
    | ResetRequest(email: string, otp: string, newPassword: string)

  /** The server's answer: a success message, or a failure whose body may carry
      a message (`None` when there is no response or no `msg`). */
  datatype Answer = Accepted(text: string) | Refused(reason: Option<string>)

  /** `err.response?.data?.msg || fallback`. */
  function ErrorText(msg: Option<string>, fallback: string): (t: string)
    ensures TruthyOpt(msg) ==> t == msg.value
    ensures !TruthyOpt(msg) ==> t == fallback
  {
    var r := OrElse(msg, Some(fallback));
    r.value
  }

  datatype Transition = Transition(st: Wizard, sent: Option<Request>, closing: bool)

  // ------------------------------------------------------------------- send

  const SendFallback := "Server error. Please try again later."

  /** `handleSendOtp(isResend)`: ignored while the timer runs unless it is a
      resend; otherwise posts the e-mail. Success moves step 1 to 2 (not on a
      resend) and restarts the 60-second timer; failure only sets the message. */
  function SendOtp(st: Wizard, isResend: bool, answer: Answer): (r: Transition)
    ensures st.timer > 0 && !isResend ==> r == Transition(st, None, false)
    ensures !(st.timer > 0 && !isResend) ==> r.sent == Some(ForgotRequest(st.email))
    ensures r.sent.Some? && answer.Accepted? ==>
      && r.st.step == (if isResend then st.step else 2)
      && r.st.timer == 60 && r.st.resendDisabled
      && r.st.message == Msg(answer.text, Success)
    ensures r.sent.Some? && answer.Refused? ==>
      r.st == st.(message := Msg(ErrorText(answer.reason, SendFallback), Error))
    ensures r.st.email == st.email && r.st.otp == st.otp && !r.closing
  {
    if st.timer > 0 && !isResend then Transition(st, None, false)
    else
      var sent := Some(ForgotRequest(st.email));
      match answer
      case Accepted(msg) =>
        Transition(st.(step := if isResend then st.step else 2, message := Msg(msg, Success),
                       timer := 60, resendDisabled := true), sent, false)
      case Refused(msg) =>
        Transition(st.(message := Msg(ErrorText(msg, SendFallback), Error)), sent, false)
  }

  // ----------------------------------------------------------------- verify

  /** ECMAScript white space and line terminators, the characters `trim` strips. */
  predicate IsSpace(c: char) {
    || c == ' ' || c == '\t' || c == '\n' || c == '\r' || c == '\U{B}' || c == '\U{C}'
    || c == '\U{A0}' || c == '\U{1680}' || ('\U{2000}' <= c <= '\U{200A}')
    || c == '\U{2028}' || c == '\U{2029}' || c == '\U{202F}' || c == '\U{205F}'
    || c == '\U{3000}' || c == '\U{FEFF}'
  }

  predicate AllSpace(s: string) {
    forall i :: 0 <= i < |s| ==> IsSpace(s[i])
  }

  function TrimStart(s: string): (r: string)
    ensures |r| <= |s| && r == s[|s| - |r|..]
    ensures AllSpace(s[..|s| - |r|])
    ensures |r| > 0 ==> !IsSpace(r[0])
  {
    if |s| > 0 && IsSpace(s[0]) then
      var r := TrimStart(s[1..]);
      assert s[1..][|s| - 1 - |r|..] == s[|s| - |r|..];
      r
    else s
  }

  function TrimEnd(s: string): (r: string)
    ensures |r| <= |s| && r == s[..|r|]
    ensures AllSpace(s[|r|..])
    ensures |r| > 0 ==> !IsSpace(r[|r| - 1])
  {
    if |s| > 0 && IsSpace(s[|s| - 1]) then
      var r := TrimEnd(s[..|s| - 1]);
      assert s[..|s| - 1][..|r|] == s[..|r|];
      r
    else s
  }

  /** `String.prototype.trim`: the input minus its leading and trailing white space. */
  function Trim(s: string): (r: string)
    ensures |r| == 0 || (!IsSpace(r[0]) && !IsSpace(r[|r| - 1]))
    ensures exists a, b :: 0 <= a <= b <= |s| && r == s[a..b] && AllSpace(s[..a]) && AllSpace(s[b..])
  {
    var t := TrimStart(s);
    var r := TrimEnd(t);
    var a := |s| - |t|;
    var b := a + |r|;
    assert r == s[a..b];
    assert s[b..] == t[|r|..];
    r
  }

  /** A code without surrounding white space is sent as typed. */
  lemma {:induction false} TrimOfTrimmed(s: string)
    requires |s| == 0 || (!IsSpace(s[0]) && !IsSpace(s[|s| - 1]))
    ensures Trim(s) == s
  {
  }

  const VerifyFallback := "Server error."

  /** `handleVerifyOtp`: posts the e-mail and the trimmed code; success moves to
      step 3, failure only sets the message. */
  function VerifyOtp(st: Wizard, answer: Answer): (r: Transition)
    ensures r.sent == Some(VerifyRequest(st.email, Trim(st.otp)))
    ensures answer.Accepted? ==> r.st == st.(step := 3, message := Msg(answer.text, Success))
    ensures answer.Refused? ==> r.st == st.(message := Msg(ErrorText(answer.reason, VerifyFallback), Error))
    ensures !r.closing
  {
    var sent := Some(VerifyRequest(st.email, Trim(st.otp)));
    match answer
    case Accepted(msg) => Transition(st.(step := 3, message := Msg(msg, Success)), sent, false)
    case Refused(msg) => Transition(st.(message := Msg(ErrorText(msg, VerifyFallback), Error)), sent, false)
  }

  // ------------------------------------------------------------------ reset

  const Mismatch := "Passwords do not match"

  /** `handleResetPassword` as written: refuses mismatched passwords without a
      request, otherwise posts the e-mail, the code AS TYPED and the new
      password; success schedules closing. The step never changes. */
  function ResetPassword(st: Wizard, answer: Answer): (r: Transition)
    ensures st.newPassword != st.confirmPassword ==>
      r == Transition(st.(message := Msg(Mismatch, Error)), None, false)
    ensures st.newPassword == st.confirmPassword ==>
      r.sent == Some(ResetRequest(st.email, st.otp, st.newPassword))
    ensures r.sent.Some? && answer.Accepted? ==> r.st == st.(message := Msg(answer.text, Success)) && r.closing
    ensures r.sent.Some? && answer.Refused? ==>
      r.st == st.(message := Msg(ErrorText(answer.reason, VerifyFallback), Error)) && !r.closing
    ensures r.st.step == st.step
  {
    if st.newPassword != st.confirmPassword then Transition(st.(message := Msg(Mismatch, Error)), None, false)
    else
      var sent := Some(ResetRequest(st.email, st.otp, st.newPassword));
      match answer
      case Accepted(msg) => Transition(st.(message := Msg(msg, Success)), sent, true)
      case Refused(msg) => Transition(st.(message := Msg(ErrorText(msg, VerifyFallback), Error)), sent, false)
  }

  /** The reset handler with the code trimmed as the verify handler trims it. */
  function ResetPasswordTrimmed(st: Wizard, answer: Answer): (r: Transition)
    ensures st.newPassword == st.confirmPassword ==>
      r.sent == Some(ResetRequest(st.email, Trim(st.otp), st.newPassword))
    ensures st.newPassword != st.confirmPassword ==> r == ResetPassword(st, answer)
    ensures r.st == ResetPassword(st, answer).st && r.closing == ResetPassword(st, answer).closing
  {
    var r := ResetPassword(st, answer);
    if r.sent.None? then r
    else r.(sent := Some(ResetRequest(st.email, Trim(st.otp), st.newPassword)))
  }

  /** A failed request of any kind leaves the wizard on its step. */
  lemma RefusalKeepsStep(st: Wizard, isResend: bool, msg: Option<string>)
    ensures SendOtp(st, isResend, Refused(msg)).st.step == st.step
    ensures VerifyOtp(st, Refused(msg)).st.step == st.step
    ensures ResetPassword(st, Refused(msg)).st.step == st.step
    ensures SendOtp(st, isResend, Refused(msg)).sent.Some? ==> SendOtp(st, isResend, Refused(msg)).st.message.kind == Error
    ensures VerifyOtp(st, Refused(msg)).st.message.kind == Error
  {
  }

  // --------------------------------------------------- against the server

  /** As written, a code typed with a trailing space passes verification (the
      verify request trims it) and is then refused by the reset request (which
      sends it untrimmed), although nothing changed on the server in between. */
  lemma TrimTrailingSpace()
    ensures Trim("123456 ") == "123456"
  {
    var s := "123456 ";
    assert !IsSpace(s[0]);
    assert TrimStart(s) == s;
    assert IsSpace(s[6]) && s[..6] == "123456";
    assert TrimEnd(s[..6]) == "123456";
  }

  lemma TrailingSpaceBreaksReset(now: Time, hash: string -> string)
    requires Required(hash("pw"))
    ensures var users := [Doc("u1", User("Ann", "ann@example.com", "h", None, "user", 0,
                                         Some("123456"), Some(now + 1)))];
      var st := Initial.(email := "ann@example.com", otp := "123456 ", newPassword := "pw", confirmPassword := "pw");
      var v := VerifyOtp(st, Accepted("OTP verified successfully"));
      var rs := ResetPassword(v.st, Refused(Some("Invalid or expired OTP")));
      && v.st.step == 3
      && Auth.VerifyOtp(users, v.sent.value.email, Some(v.sent.value.otp), now).Ok?
      && Auth.ResetPassword(users, rs.sent.value.email, Some(rs.sent.value.otp), rs.sent.value.newPassword, now, hash).resp.Fail?
  {
    var u := User("Ann", "ann@example.com", "h", None, "user", 0, Some("123456"), Some(now + 1));
    var users := [Doc("u1", u)];
    var st := Initial.(email := "ann@example.com", otp := "123456 ", newPassword := "pw", confirmPassword := "pw");
    TrimTrailingSpace();
    var v := VerifyOtp(st, Accepted("OTP verified successfully"));
    assert v.sent == Some(VerifyRequest("ann@example.com", "123456"));
    var rs := ResetPassword(v.st, Refused(Some("Invalid or expired OTP")));
    assert rs.sent == Some(ResetRequest("ann@example.com", "123456 ", "pw"));
    assert FindByEmail(users, "ann@example.com") == Some(0);
    assert !Auth.OtpRejected(u, Some("123456"), now);
    assert Auth.OtpRejected(u, Some("123456 "), now);
  }

  /** With the trimmed reset, whatever code the server accepted at the verify
      step it also accepts at the reset step, as long as the server's user
      collection and the clock have not moved. */
  lemma TrimmedResetFollowsVerify(users: Table<User>, st: Wizard, a1: Answer, a2: Answer, now: Time,
                                  hash: string -> string)
    requires forall i :: 0 <= i < |users| ==> UserValid(users[i].val)
    requires Required(hash(st.newPassword))
    requires st.newPassword == st.confirmPassword
    ensures var v := VerifyOtp(st, a1);
      var rs := ResetPasswordTrimmed(v.st, a2);
      Auth.VerifyOtp(users, v.sent.value.email, Some(v.sent.value.otp), now).Ok? ==>
        Auth.ResetPassword(users, rs.sent.value.email, Some(rs.sent.value.otp), rs.sent.value.newPassword, now, hash).resp.Ok?
  {
    var v := VerifyOtp(st, a1);
    Auth.VerifyAgreesWithReset(users, st.email, Some(Trim(st.otp)), st.newPassword, now, hash);
  }

  // ------------------------------------------------------------ timer, close

  /** One second of the interval together with the effect it re-runs: a running
      timer counts down and re-enables resend when it reaches zero; a stopped
      one only keeps resend enabled. */
  function Tick(st: Wizard): (r: Wizard)
    ensures st.timer > 0 ==> r.timer == st.timer - 1
    ensures st.timer <= 0 ==> r.timer == st.timer && !r.resendDisabled
    ensures r.timer == 0 ==> !r.resendDisabled
    ensures r.timer > 0 ==> r.resendDisabled == st.resendDisabled
    ensures r.(timer := st.timer, resendDisabled := st.resendDisabled) == st
  {
    if st.timer > 0 then
      st.(timer := st.timer - 1, resendDisabled := if st.timer - 1 == 0 then false else st.resendDisabled)
    else st.(resendDisabled := false)
  }

  function TickN(st: Wizard, n: nat): Wizard
    decreases n
  {
    if n == 0 then st else TickN(Tick(st), n - 1)
  }

  /** Sixty ticks after a successful send the timer is done and resend is enabled again. */
  lemma {:induction false} TimerRunsOut(st: Wizard, n: nat)
    requires 0 <= st.timer <= n && n > 0
    ensures TickN(st, n).timer == 0 && !TickN(st, n).resendDisabled
    ensures TickN(st, n).(timer := st.timer, resendDisabled := st.resendDisabled) == st
    decreases n
  {
    if n > 1 {
      TimerRunsOut(Tick(st), n - 1);
    }
  }

  /** After a successful send, a plain send is ignored until sixty ticks have passed. */
  lemma SendBlockedWhileTimerRuns(st: Wizard, isResend: bool, msg: string, k: nat, a: Answer)
    requires !(st.timer > 0 && !isResend)
    requires k < 60
    ensures var s := SendOtp(st, isResend, Accepted(msg)).st;
      && SendOtp(TickN(s, k), false, a).sent.None?
      && SendOtp(TickN(s, 60), false, a).sent.Some?
  {
    var s := SendOtp(st, isResend, Accepted(msg)).st;
    TickCounts(s, k);
    TimerRunsOut(s, 60);
  }

  lemma {:induction false} TickCounts(st: Wizard, k: nat)
    requires k <= st.timer
    ensures TickN(st, k).timer == st.timer - k
    decreases k
  {
    if k > 0 {
      TickCounts(Tick(st), k - 1);
    }
  }

  /** `resetStateAndClose` once its delay has passed: back to step 1 with the
      message, e-mail and code cleared; the password fields and the timer stay. */
  function Close(st: Wizard): (r: Wizard)
    ensures r.step == 1 && r.message == NoMessage && r.email == "" && r.otp == ""
    ensures r.newPassword == st.newPassword && r.confirmPassword == st.confirmPassword
    ensures r.timer == st.timer && r.resendDisabled == st.resendDisabled
  {
    st.(step := 1, message := NoMessage, email := "", otp := "")
  }

  /** Closing twice is closing once, and a closed wizard shows step 1 as the only active one. */
  lemma CloseIdempotent(st: Wizard)
    ensures Close(Close(st)) == Close(st)
    ensures StatusOf(Close(st).step, 1) == Active
  {
  }
}
