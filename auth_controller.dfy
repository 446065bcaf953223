/** The one-time code table of controllers/authController.js: six-digit
    codes kept in memory under the lower-cased e-mail address, issued by
    forgotPassword and consumed by verifyEmail and resetPassword.  Hashing,
    token signing and mail delivery are not modelled; their outcomes are
    parameters. */
module AuthController {
  import opened Common

  // ---------------------------------------------------------------------
  // generateVerificationCode

  /** Math.floor(100000 + r * 900000) for r = Math.random() in [0, 1). */
  function CodeNumber(r: real): (n: int)
    requires 0.0 <= r < 1.0
    ensures 100000 <= n <= 999999
  {
    (100000.0 + r * 900000.0).Floor
  }

  /** Every number in the range is produced by some draw. */
  lemma CodeNumberCovers(n: int)
    requires 100000 <= n <= 999999
    ensures exists r: real :: 0.0 <= r < 1.0 && CodeNumber(r) == n
  {
    var r := (n - 100000) as real / 900000.0;
    assert 100000.0 + r * 900000.0 == n as real;
    assert CodeNumber(r) == n;
  }

  /** The code as text: always exactly six decimal digits, reading back as
      the drawn number. */
  function GenerateVerificationCode(r: real): (code: string)
    requires 0.0 <= r < 1.0
    ensures |code| == 6
    ensures forall i :: 0 <= i < |code| ==> IsDigit(code[i])
    ensures DecimalValue(code) == CodeNumber(r)
  {
    var n := CodeNumber(r);
    assert Pow10(5) == 100000 && Pow10(6) == 1000000;
    DecimalLength(n, 6);
    DecimalRoundTrip(n);
    DecimalString(n)
  }

  // ---------------------------------------------------------------------
  // Checking a code

  /** A stored code: the digits, the expiry time in milliseconds, the user
      it was issued for and its purpose. */
  datatype CodeEntry = CodeEntry(code: string, expires: int, userId: string, purpose: string)

  /** The code lifetime: ten minutes. */
  const CodeLifetime: int := 10 * 60 * 1000

  /** What a consume call finds: no usable entry, an expired one, a wrong
      code, or a match. */
  datatype Check = NoCode | Expired | WrongCode | Matched(entry: CodeEntry)

  /** The three checks of verifyEmail (resetOnly false) and resetPassword
      (resetOnly true), in the order the handlers make them. */
  function CheckCode(entry: Option<CodeEntry>, code: string, now: int, resetOnly: bool): Check {
    if entry.None? || (resetOnly && entry.value.purpose != "reset") then NoCode
    else if now > entry.value.expires then Expired
    else if entry.value.code != code then WrongCode
    else Matched(entry.value)
  }

  /** A code matches exactly when an entry of the right purpose is stored,
      the current time is not past its expiry (the expiry instant itself
      still counts) and the digits are equal; an entry past its expiry is
      reported as expired whatever code is given. */
  lemma CheckCodeSpec(entry: Option<CodeEntry>, code: string, now: int, resetOnly: bool)
    ensures CheckCode(entry, code, now, resetOnly).Matched? <==>
      && entry.Some? && (!resetOnly || entry.value.purpose == "reset")
      && now <= entry.value.expires && entry.value.code == code
    ensures CheckCode(entry, code, now, resetOnly).Matched? ==> CheckCode(entry, code, now, resetOnly).entry == entry.value
    ensures entry.Some? && (!resetOnly || entry.value.purpose == "reset") && now > entry.value.expires ==>
      CheckCode(entry, code, now, resetOnly) == Expired
    ensures entry.None? ==> CheckCode(entry, code, now, resetOnly) == NoCode
  {
  }

  /** resetPassword accepts only what verifyEmail accepts, and verifyEmail
      takes any purpose, reset codes included. */
  lemma ResetStricterThanVerify(entry: Option<CodeEntry>, code: string, now: int)
    ensures CheckCode(entry, code, now, true).Matched? ==> CheckCode(entry, code, now, false).Matched?
    ensures entry.Some? && entry.value.purpose == "reset" ==> CheckCode(entry, code, now, true) == CheckCode(entry, code, now, false)
  {
  }

  // ---------------------------------------------------------------------
  // The table

  /** The user model the handlers call.  It is never imported into the
      controller, so as written every call to it throws; `Unbound` stands
      for that.  `Bound` gives the users by lower-cased e-mail and their
      ids. */
  datatype UserStore = Bound(byEmail: map<string, string>, ids: set<string>) | Unbound

  function Find(codes: map<string, CodeEntry>, key: string): Option<CodeEntry> {
    if key in codes then Some(codes[key]) else None
  }

  function KeyOf(email: Option<string>): string {
    if email.Some? then Lower(email.value) else ""
  }

  /** The entry after a check: an expired one and a matched one are
      deleted; a wrong code keeps it. */
  function AfterCheck(codes: map<string, CodeEntry>, key: string, c: Check): (r: map<string, CodeEntry>)
    ensures forall k :: k != key ==> Find(r, k) == Find(codes, k)
    ensures c.Expired? || c.Matched? ==> key !in r
    ensures c.NoCode? || c.WrongCode? ==> r == codes
  {
    if c.Expired? || c.Matched? then codes - {key} else codes
  }

  class CodeStore {
    var codes: map<string, CodeEntry>

    constructor ()
      ensures codes == map[]
    {
      codes := map[];
    }

    /** forgotPassword: 400 without an e-mail; 500 when the user model
        throws; 404 for an unknown user; otherwise a fresh reset code
        replaces whatever was stored for the address, and stays stored even
        when the mail cannot be sent (500). */
    method ForgotPassword(email: Option<string>, users: UserStore, now: int, random: real, mailSent: bool)
      returns (status: int)
      requires 0.0 <= random < 1.0
      modifies this
      ensures forall k :: k != KeyOf(email) ==> Find(codes, k) == Find(old(codes), k)
      ensures !Present(email) ==> status == 400 && codes == old(codes)
      ensures Present(email) && users.Unbound? ==> status == 500 && codes == old(codes)
      ensures Present(email) && users.Bound? && KeyOf(email) !in users.byEmail ==>
        status == 404 && codes == old(codes)
      ensures Present(email) && users.Bound? && KeyOf(email) in users.byEmail ==>
        && codes == old(codes)[KeyOf(email) := CodeEntry(GenerateVerificationCode(random), now + CodeLifetime,
                                                         users.byEmail[KeyOf(email)], "reset")]
        && status == (if mailSent then 200 else 500)
    {
      if !Present(email) {
        return 400;
      }
      var key := Lower(email.value);
      if users.Unbound? {
        return 500;
      }
      if key !in users.byEmail {
        return 404;
      }
      codes := codes[key := CodeEntry(GenerateVerificationCode(random), now + CodeLifetime, users.byEmail[key], "reset")];
      status := if mailSent then 200 else 500;
    }

    /** verifyEmail: 400 without an e-mail or code, for no entry, for an
        expired entry (deleted) and for a wrong code (kept).  On a match the
        user model is called: when it throws (500) the entry stays; otherwise
        the entry is deleted, and the reply is 200 for a known user and 500
        for an unknown one, whose missing record the token step then
        dereferences. */
    method VerifyEmail(email: Option<string>, code: Option<string>, users: UserStore, now: int)
      returns (status: int)
      modifies this
      ensures forall k :: k != KeyOf(email) ==> Find(codes, k) == Find(old(codes), k)
      ensures !Present(email) || !Present(code) ==> status == 400 && codes == old(codes)
      ensures Present(email) && Present(code) ==>
        var c := CheckCode(Find(old(codes), KeyOf(email)), code.value, now, false);
        && (!c.Matched? ==> status == 400 && codes == AfterCheck(old(codes), KeyOf(email), c))
        && (c.Matched? && users.Unbound? ==> status == 500 && codes == old(codes))
        && (c.Matched? && users.Bound? ==>
              codes == AfterCheck(old(codes), KeyOf(email), c)
              && status == (if c.entry.userId in users.ids then 200 else 500))
    {
      if !Present(email) || !Present(code) {
        return 400;
      }
      var key := Lower(email.value);
      var c := CheckCode(Find(codes, key), code.value, now, false);
      if !c.Matched? {
        codes := AfterCheck(codes, key, c);
        return 400;
      }
      if users.Unbound? {
        return 500;
      }
      codes := AfterCheck(codes, key, c);
      status := if c.entry.userId in users.ids then 200 else 500;
    }

    /** resetPassword: as verifyEmail, except that an entry whose purpose
        is not "reset" counts as no entry, a new password is also required,
        and a match answers 200 whether or not the user still exists. */
    method ResetPassword(email: Option<string>, code: Option<string>, newPassword: Option<string>,
                         users: UserStore, now: int)
      returns (status: int)
      modifies this
      ensures forall k :: k != KeyOf(email) ==> Find(codes, k) == Find(old(codes), k)
      ensures !Present(email) || !Present(code) || !Present(newPassword) ==> status == 400 && codes == old(codes)
      ensures Present(email) && Present(code) && Present(newPassword) ==>
        var c := CheckCode(Find(old(codes), KeyOf(email)), code.value, now, true);
        && (!c.Matched? ==> status == 400 && codes == AfterCheck(old(codes), KeyOf(email), c))
        && (c.Matched? && users.Unbound? ==> status == 500 && codes == old(codes))
        && (c.Matched? && users.Bound? ==> status == 200 && codes == AfterCheck(old(codes), KeyOf(email), c))
    {
      if !Present(email) || !Present(code) || !Present(newPassword) {
        return 400;
      }
      var key := Lower(email.value);
      var c := CheckCode(Find(codes, key), code.value, now, true);
      if !c.Matched? {
        codes := AfterCheck(codes, key, c);
        return 400;
      }
      if users.Unbound? {
        return 500;
      }
      codes := AfterCheck(codes, key, c);
      status := 200;
    }

    /** A code works once: after a successful reset the same request finds
        no code. */
    method ResetTwice(email: string, code: string, newPassword: string, users: UserStore, now: int)
      returns (first: int, second: int)
      requires email != "" && code != "" && newPassword != "" && users.Bound?
      modifies this
      ensures first == 200 ==> second == 400
      ensures first == 200 <==> CheckCode(Find(old(codes), Lower(email)), code, now, true).Matched?
    {
      first := ResetPassword(Some(email), Some(code), Some(newPassword), users, now);
      second := ResetPassword(Some(email), Some(code), Some(newPassword), users, now);
    }

    /** With the user model missing, as the controller is written, no code
        is ever stored: forgotPassword fails before storing. */
    method ForgotPasswordAsWritten(email: Option<string>, now: int, random: real, mailSent: bool)
      returns (status: int)
      requires 0.0 <= random < 1.0
      modifies this
      ensures status == 400 || status == 500
      ensures codes == old(codes)
    {
      status := ForgotPassword(email, Unbound, now, random, mailSent);
    }
  }

  /** On the table level: once issued, a reset code for a known user is
      accepted by both consumers until its expiry, and rejected as expired
      from the next millisecond on. */
  lemma IssuedCodeLifetime(codes: map<string, CodeEntry>, key: string, random: real, now: int, userId: string, t: int)
    requires 0.0 <= random < 1.0
    ensures var stored := codes[key := CodeEntry(GenerateVerificationCode(random), now + CodeLifetime, userId, "reset")];
      && (t <= now + CodeLifetime ==>
            CheckCode(Find(stored, key), GenerateVerificationCode(random), t, true).Matched?
            && CheckCode(Find(stored, key), GenerateVerificationCode(random), t, false).Matched?)
      && (t > now + CodeLifetime ==> CheckCode(Find(stored, key), GenerateVerificationCode(random), t, true) == Expired)
  {
  }
}
