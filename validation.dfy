/** The request-body and query rules of middleware/validation.js.  Each rule
    chain runs all of its checks, every failing check adds one error naming
    the field, its message and the submitted value, and
    handleValidationErrors turns a non-empty error list into a 400 reply.
    The validators are those of validator.js, stated over text: a field
    that is absent is checked as the empty text, and isEmail, normalizeEmail
    and isMongoId, whose grammars are not modelled, are inputs. */
module Validation {
  import opened Common
  import AuthMiddleware
  import GameController
  import AuthController
  import LeaderboardModel

  datatype FieldError = FieldError(field: string, message: string, value: Option<string>)

  datatype Response = Proceed | Reject(status: int, error: string, details: seq<FieldError>)

  /** No errors: on to the handler.  Otherwise 400 "Validation Error" with
      one detail per error, in the order the checks ran. */
  function HandleValidationErrors(errors: seq<FieldError>): (r: Response)
    ensures r.Proceed? <==> errors == []
    ensures r.Reject? ==> r.status == 400 && r.error == "Validation Error"
    ensures r.Reject? ==> |r.details| == |errors| && forall i :: 0 <= i < |errors| ==> r.details[i] == errors[i]
  {
    if errors == [] then Proceed else Reject(400, "Validation Error", errors)
  }

  /** What a validator sees: the text of the field, the empty text when it
      is absent. */
  function Text(v: Option<string>): string {
    if v.Some? then v.value else ""
  }

  // ---------------------------------------------------------------------
  // Lengths (isLength)

  /** U+FE0E and U+FE0F select the text or emoji presentation of the
      character before them; isLength does not count them. */
  predicate IsPresentationSelector(c: char) { c == '\U{FE0E}' || c == '\U{FE0F}' }

  /** The length isLength compares: code points, less presentation
      selectors. */
  function CharLength(s: string): (n: nat)
    ensures n <= |s|
    ensures (forall i :: 0 <= i < |s| ==> !IsPresentationSelector(s[i])) ==> n == |s|
  {
    if s == [] then 0
    else (if IsPresentationSelector(s[0]) then 0 else 1) + CharLength(s[1..])
  }

  predicate AllDigits(s: string) {
    forall i :: 0 <= i < |s| ==> IsDigit(s[i])
  }

  // ---------------------------------------------------------------------
  // Passwords: isLength 8..128, then /^(?=.*[a-z])(?=.*[A-Z])(?=.*\d)/

  /** A lookahead `(?=.*[class])` tried at the start of the text: the
      regular expression's `.` stops at a line terminator, so the scan gives
      up at the first one. */
  function FindsOnFirstLine(s: string, cls: char -> bool): bool {
    if s == [] then false
    else if cls(s[0]) then true
    else if IsLineTerminator(s[0]) then false
    else FindsOnFirstLine(s[1..], cls)
  }

  predicate NoTerminatorBefore(s: string, i: nat)
    requires i <= |s|
  {
    forall j :: 0 <= j < i ==> !IsLineTerminator(s[j])
  }

  /** Some character of the class occurs, and no line terminator precedes
      it. */
  ghost predicate OnFirstLine(s: string, cls: char -> bool) {
    exists i :: 0 <= i < |s| && cls(s[i]) && NoTerminatorBefore(s, i)
  }

  lemma {:induction false} FindsOnFirstLineSpec(s: string, cls: char -> bool)
    ensures FindsOnFirstLine(s, cls) <==> OnFirstLine(s, cls)
  {
    if s == [] {
    } else if cls(s[0]) {
      assert NoTerminatorBefore(s, 0);
    } else if IsLineTerminator(s[0]) {
      forall i | 0 <= i < |s| && cls(s[i]) ensures !NoTerminatorBefore(s, i) {
        assert i > 0;
      }
    } else {
      var t := s[1..];
      FindsOnFirstLineSpec(t, cls);
      if OnFirstLine(s, cls) {
        var i :| 0 <= i < |s| && cls(s[i]) && NoTerminatorBefore(s, i);
        assert t[i - 1] == s[i];
        assert NoTerminatorBefore(t, i - 1) by {
          forall j | 0 <= j < i - 1 ensures !IsLineTerminator(t[j]) {
            assert t[j] == s[j + 1];
          }
        }
      }
      if OnFirstLine(t, cls) {
        var i :| 0 <= i < |t| && cls(t[i]) && NoTerminatorBefore(t, i);
        assert s[i + 1] == t[i];
        assert NoTerminatorBefore(s, i + 1) by {
          forall j | 0 <= j < i + 1 ensures !IsLineTerminator(s[j]) {
            if j > 0 {
              assert s[j] == t[j - 1];
            }
          }
        }
      }
    }
  }

  const PasswordLengthMessage := "Password must be between 8 and 128 characters"
  const PasswordClassesMessage :=
    "Password must contain at least one lowercase letter, one uppercase letter, and one number"

  /** The password rule of signup (field "password") and of reset (field
      "newPassword"). */
  function PasswordErrors(field: string, password: Option<string>): seq<FieldError> {
    var p := Text(password);
    (if 8 <= CharLength(p) <= 128 then [] else [FieldError(field, PasswordLengthMessage, password)])
    + (if FindsOnFirstLine(p, IsLowerAscii) && FindsOnFirstLine(p, IsUpperAscii) && FindsOnFirstLine(p, IsDigit)
       then [] else [FieldError(field, PasswordClassesMessage, password)])
  }

  ghost predicate StrongPassword(p: string) {
    && 8 <= CharLength(p) <= 128
    && OnFirstLine(p, IsLowerAscii)
    && OnFirstLine(p, IsUpperAscii)
    && OnFirstLine(p, IsDigit)
  }

  /** A password passes exactly when it is 8 to 128 characters long and a
      lower-case letter, an upper-case letter and a digit each occur before
      any line break; each failing check reports the field and the value. */
  lemma PasswordSpec(field: string, password: Option<string>)
    ensures PasswordErrors(field, password) == [] <==> StrongPassword(Text(password))
    ensures forall e :: e in PasswordErrors(field, password) ==> e.field == field && e.value == password
    ensures |PasswordErrors(field, password)| <= 2
  {
    var p := Text(password);
    FindsOnFirstLineSpec(p, IsLowerAscii);
    FindsOnFirstLineSpec(p, IsUpperAscii);
    FindsOnFirstLineSpec(p, IsDigit);
  }

  /** Letters and digits after a line break do not count: a password whose
      first line has no upper-case letter fails, whatever follows. */
  lemma SecondLineDoesNotCount(first: string, t: char, rest: string)
    requires IsLineTerminator(t)
    requires forall i :: 0 <= i < |first| ==> !IsUpperAscii(first[i])
    ensures !StrongPassword(first + [t] + rest)
  {
    var p := first + [t] + rest;
    forall i | 0 <= i < |p| && IsUpperAscii(p[i]) ensures !NoTerminatorBefore(p, i) {
      assert forall k :: 0 <= k < |first| ==> p[k] == first[k];
      assert p[|first|] == t;
    }
  }

  // ---------------------------------------------------------------------
  // Six-digit codes: isLength 6..6, then /^\d{6}$/

  /** The code rule of email verification (purpose "Verification") and of
      reset (purpose "Reset"). */
  function CodeErrors(purpose: string, code: Option<string>): seq<FieldError> {
    var c := Text(code);
    (if CharLength(c) == 6 then [] else [FieldError("code", purpose + " code must be 6 digits", code)])
    + (if |c| == 6 && AllDigits(c) then [] else [FieldError("code", purpose + " code must contain only numbers", code)])
  }

  /** A code passes exactly when it is six decimal digits; anything else
      that is six characters long fails only the digits check. */
  lemma CodeSpec(purpose: string, code: Option<string>)
    ensures CodeErrors(purpose, code) == [] <==> |Text(code)| == 6 && AllDigits(Text(code))
    ensures CharLength(Text(code)) == 6 && !AllDigits(Text(code)) ==>
      CodeErrors(purpose, code) == [FieldError("code", purpose + " code must contain only numbers", code)]
  {
  }

  /** Every code the controller issues passes the rule. */
  lemma IssuedCodesPass(purpose: string, r: real)
    requires 0.0 <= r < 1.0
    ensures CodeErrors(purpose, Some(AuthController.GenerateVerificationCode(r))) == []
  {
    var c := AuthController.GenerateVerificationCode(r);
    assert CharLength(c) == 6;
  }

  // ---------------------------------------------------------------------
  // Names: trim, then isLength 2..50, then /^[a-zA-Z\s]+$/

  predicate NameChar(c: char) { IsAsciiLetter(c) || IsWhiteSpace(c) }

  const NameLengthMessage := "Name must be between 2 and 50 characters"
  const NameCharsMessage := "Name can only contain letters and spaces"

  /** The checks see, and report, the trimmed name. */
  function NameErrors(name: Option<string>): seq<FieldError> {
    var t := Trim(Text(name));
    (if 2 <= CharLength(t) <= 50 then [] else [FieldError("name", NameLengthMessage, Some(t))])
    + (if t != [] && forall i :: 0 <= i < |t| ==> NameChar(t[i]) then [] else [FieldError("name", NameCharsMessage, Some(t))])
  }

  ghost predicate GoodName(t: string) {
    2 <= |t| <= 50 && forall i :: 0 <= i < |t| ==> NameChar(t[i])
  }

  /** A name passes exactly when, trimmed, it is 2 to 50 letters and white
      space; it then begins and ends with a letter. */
  lemma NameSpec(name: Option<string>)
    ensures NameErrors(name) == [] <==> GoodName(Trim(Text(name)))
    ensures NameErrors(name) == [] ==>
      var t := Trim(Text(name)); IsAsciiLetter(t[0]) && IsAsciiLetter(t[|t| - 1])
  {
    TrimmedEnds(Text(name));
    TrimmedName(Trim(Text(name)));
  }

  lemma TrimmedEnds(s: string)
    ensures var r := Trim(s); r == [] || (!IsWhiteSpace(r[0]) && !IsWhiteSpace(r[|r| - 1]))
  {
    TrimSpec(s);
  }

  lemma TrimmedName(t: string)
    requires t == [] || (!IsWhiteSpace(t[0]) && !IsWhiteSpace(t[|t| - 1]))
    ensures (2 <= CharLength(t) <= 50 && t != [] && forall i :: 0 <= i < |t| ==> NameChar(t[i])) <==> GoodName(t)
    ensures GoodName(t) ==> IsAsciiLetter(t[0]) && IsAsciiLetter(t[|t| - 1])
  {
    if forall i :: 0 <= i < |t| ==> NameChar(t[i]) {
      NameCharsCounted(t);
      if t != [] {
        assert NameChar(t[0]) && NameChar(t[|t| - 1]);
      }
    }
  }

  /** Letters and white space hold no presentation selector, so each
      counts towards the length. */
  lemma NameCharsCounted(t: string)
    requires forall i :: 0 <= i < |t| ==> NameChar(t[i])
    ensures CharLength(t) == |t|
  {
    forall i | 0 <= i < |t| ensures !IsPresentationSelector(t[i]) {
      assert NameChar(t[i]);
    }
  }

  // ---------------------------------------------------------------------
  // Game types: isIn

  const ValidatorGameTypes: seq<string> := ["reaction", "speed", "endurance", "accuracy"]

  function GameTypeErrors(gameType: Option<string>): seq<FieldError> {
    if Text(gameType) in ValidatorGameTypes then [] else [FieldError("gameType", "Invalid game type", gameType)]
  }

  /** Only the four listed names pass; an absent game type fails. */
  lemma GameTypeSpec(gameType: Option<string>)
    ensures GameTypeErrors(gameType) == [] <==>
      gameType.Some? && gameType.value in {"reaction", "speed", "endurance", "accuracy"}
  {
  }

  /** None of the names the rule accepts is a game type of the leaderboard
      schema, and none of the schema's is accepted. */
  lemma GameTypesDisjointFromSchema(s: string)
    ensures GameTypeErrors(Some(s)) == [] ==> LeaderboardModel.ParseGameType(s).None?
    ensures LeaderboardModel.ParseGameType(s).Some? ==> GameTypeErrors(Some(s)) != []
  {
  }

  // ---------------------------------------------------------------------
  // Whole numbers: isInt, /^[-+]?[0-9]+$/ and a numeric range

  function Unsigned(s: string): (b: string)
    ensures |b| <= |s|
  {
    if s != [] && (s[0] == '+' || s[0] == '-') then s[1..] else s
  }

  predicate IsIntText(s: string) {
    Unsigned(s) != [] && AllDigits(Unsigned(s))
  }

  /** The number the text stands for, as Number() reads it. */
  function IntTextValue(s: string): int
    requires IsIntText(s)
  {
    if s[0] == '-' then -(DecimalValue(Unsigned(s)) as int) else DecimalValue(Unsigned(s))
  }

  /** `.optional()` skips only an absent limit; a present one, even empty,
      must be a whole number from 1 to 100. */
  function LimitErrors(limit: Option<string>): seq<FieldError> {
    if limit.None? then []
    else if IsIntText(limit.value) && 1 <= IntTextValue(limit.value) <= 100 then []
    else [FieldError("limit", "Limit must be between 1 and 100", limit)]
  }

  /** parseInt reads integer text as the validator does. */
  lemma ParseIntOfIntText(s: string)
    requires IsIntText(s)
    ensures GameController.ParseInt(s) == Some(IntTextValue(s))
  {
    TrimStartOfTrimmed(s);
    GameController.DigitRunOfDigits(Unsigned(s));
  }

  /** A limit that passes the rule reaches the query unchanged: the handler
      then uses exactly the requested number of rows, from 1 to 100, and 10
      when none was asked for.  Every number from 1 to 100 written in
      decimal passes. */
  lemma ValidatedLimit(limit: Option<string>)
    ensures LimitErrors(limit) == [] ==> 1 <= GameController.EffectiveLimit(limit) <= 100
    ensures LimitErrors(limit) == [] && limit.Some? ==> GameController.EffectiveLimit(limit) == IntTextValue(limit.value)
    ensures limit.None? ==> GameController.EffectiveLimit(limit) == 10
    ensures forall n: nat :: 1 <= n <= 100 ==> LimitErrors(Some(DecimalString(n))) == []
  {
    if limit.Some? && IsIntText(limit.value) {
      ParseIntOfIntText(limit.value);
    }
    forall n: nat | 1 <= n <= 100 ensures LimitErrors(Some(DecimalString(n))) == [] {
      DecimalRoundTrip(n);
      assert IsDigit(DecimalString(n)[0]);
    }
  }

  // ---------------------------------------------------------------------
  // Scores: isNumeric, then isFloat({ min: 0 })

  /** isNumeric after the optional sign: one or more digits, or digits, a
      dot and at least one digit (`([0-9]*[.])?[0-9]+`). */
  predicate IsNumericBody(b: string) {
    if '.' in b then
      var k := AuthMiddleware.IndexOf(b, '.');
      AllDigits(b[..k]) && b[k + 1..] != [] && AllDigits(b[k + 1..])
    else b != [] && AllDigits(b)
  }

  predicate IsNumericText(s: string) { IsNumericBody(Unsigned(s)) }

  /** The pieces of unsigned float text: leading digits, the digits after
      a dot, and whatever follows them. */
  datatype FloatParts = FloatParts(whole: string, fraction: string, exponent: string)

  function SplitFloat(b: string): FloatParts {
    var whole := GameController.DigitRun(b);
    var r := b[|whole|..];
    if r != [] && r[0] == '.' then
      var fraction := GameController.DigitRun(r[1..]);
      FloatParts(whole, fraction, r[1 + |fraction|..])
    else FloatParts(whole, [], r)
  }

  /** `[eE][+-]?[0-9]+` */
  predicate IsExponent(e: string) {
    |e| >= 2 && (e[0] == 'e' || e[0] == 'E') && Unsigned(e[1..]) != [] && AllDigits(Unsigned(e[1..]))
  }

  predicate HasNonZero(s: string) {
    exists i :: 0 <= i < |s| && '1' <= s[i] <= '9'
  }

  /** isFloat with a minimum of 0: the float grammar
      `^[-+]?([0-9]+)?(\.[0-9]*)?([eE][+-]?[0-9]+)?$` minus the texts "", ".",
      ",", "-" and "+", and parseFloat of the text not below 0.  parseFloat
      is NaN without a digit before the exponent, and below 0 exactly when
      the sign is '-' and one of those digits is not 0 (-0 passes). */
  predicate FloatAtLeastZero(s: string) {
    && s != [] && s != "." && s != "," && s != "-" && s != "+"
    && var p := SplitFloat(Unsigned(s));
    && (p.exponent == [] || IsExponent(p.exponent))
    && p.whole + p.fraction != []
    && !(s[0] == '-' && HasNonZero(p.whole + p.fraction))
  }

  function ScoreErrors(score: Option<string>): seq<FieldError> {
    var t := Text(score);
    (if IsNumericText(t) then [] else [FieldError("score", "Score must be a number", score)])
    + (if FloatAtLeastZero(t) then [] else [FieldError("score", "Score must be a positive number", score)])
  }

  /** Plain decimal text, optionally signed, with at most one dot that has
      a digit after it, which is not below zero. */
  ghost predicate NonNegativeNumeral(t: string) {
    IsNumericText(t) && !(t != [] && t[0] == '-' && HasNonZero(t))
  }

  lemma HasNonZeroAppend(a: string, c: string)
    ensures HasNonZero(a + c) <==> HasNonZero(a) || HasNonZero(c)
  {
    var s := a + c;
    if HasNonZero(s) {
      var i :| 0 <= i < |s| && '1' <= s[i] <= '9';
      if i < |a| {
        assert a[i] == s[i];
      } else {
        assert c[i - |a|] == s[i];
      }
    }
    if HasNonZero(a) {
      var i :| 0 <= i < |a| && '1' <= a[i] <= '9';
      assert s[i] == a[i];
    }
    if HasNonZero(c) {
      var i :| 0 <= i < |c| && '1' <= c[i] <= '9';
      assert s[|a| + i] == c[i];
    }
  }

  /** The digit run of text whose first k characters are digits and whose
      next one is not. */
  lemma DigitRunStops(s: string, k: nat)
    requires k <= |s| && AllDigits(s[..k]) && (k == |s| || !IsDigit(s[k]))
    ensures GameController.DigitRun(s) == s[..k]
  {
    var r := GameController.DigitRun(s);
    assert forall i :: 0 <= i < k ==> s[..k][i] == s[i];
    assert forall i :: 0 <= i < |r| ==> r[i] == s[i];
    assert |r| == k;
  }

  /** Numeric text splits into a mantissa and no exponent, and its non-zero
      digits are those of the mantissa. */
  lemma NumericParts(b: string)
    requires IsNumericBody(b)
    ensures var p := SplitFloat(b);
      && p.exponent == []
      && p.whole + p.fraction != []
      && (HasNonZero(p.whole + p.fraction) <==> HasNonZero(b))
  {
    if '.' in b {
      NumericPartsDot(b, AuthMiddleware.IndexOf(b, '.'));
    } else {
      GameController.DigitRunOfDigits(b);
      assert b + [] == b;
    }
  }

  lemma NumericPartsDot(b: string, k: nat)
    requires k < |b| && b[k] == '.' && AllDigits(b[..k]) && b[k + 1..] != [] && AllDigits(b[k + 1..])
    ensures var p := SplitFloat(b);
      && p.exponent == []
      && p.whole + p.fraction != []
      && (HasNonZero(p.whole + p.fraction) <==> HasNonZero(b))
  {
    DigitRunStops(b, k);
    var r := b[k..];
    assert r[1..] == b[k + 1..];
    GameController.DigitRunOfDigits(b[k + 1..]);
    assert b == b[..k] + ([b[k]] + b[k + 1..]);
    HasNonZeroAppend(b[..k], [b[k]] + b[k + 1..]);
    HasNonZeroAppend([b[k]], b[k + 1..]);
    HasNonZeroAppend(b[..k], b[k + 1..]);
  }

  lemma HasNonZeroUnsigned(t: string)
    ensures HasNonZero(t) <==> HasNonZero(Unsigned(t))
  {
    if t != [] && (t[0] == '+' || t[0] == '-') {
      assert t == [t[0]] + t[1..];
      HasNonZeroAppend([t[0]], t[1..]);
    }
  }

  lemma NumericHasDigit(b: string)
    requires IsNumericBody(b)
    ensures exists i :: 0 <= i < |b| && IsDigit(b[i])
  {
    if '.' in b {
      var k := AuthMiddleware.IndexOf(b, '.');
      assert IsDigit(b[k + 1..][0]);
    } else {
      assert IsDigit(b[0]);
    }
  }

  /** On numeric text the float check only asks for the sign. */
  lemma NumericFloat(t: string)
    requires IsNumericText(t)
    ensures FloatAtLeastZero(t) <==> !(t[0] == '-' && HasNonZero(t))
  {
    var b := Unsigned(t);
    NumericParts(b);
    NumericHasDigit(b);
    HasNonZeroUnsigned(t);
    var i :| 0 <= i < |b| && IsDigit(b[i]);
    assert |t| >= 2 || IsDigit(t[0]) by {
      if |t| < 2 {
        assert b == t;
      }
    }
  }

  /** A score passes exactly when it is plain decimal text that is not
      below zero ("-0" and "-0.0" pass); text with an exponent, or with no
      digit after its dot, fails as not a number. */
  lemma ScoreSpec(score: Option<string>)
    ensures ScoreErrors(score) == [] <==> NonNegativeNumeral(Text(score))
    ensures !IsNumericText(Text(score)) ==> ScoreErrors(score)[0] == FieldError("score", "Score must be a number", score)
  {
    var t := Text(score);
    if IsNumericText(t) {
      NumericFloat(t);
    }
  }

  // ---------------------------------------------------------------------
  // Descriptions and objects

  function DescriptionErrors(description: Option<string>): seq<FieldError> {
    if description.None? || CharLength(description.value) <= 500 then []
    else [FieldError("description", "Description must not exceed 500 characters", description)]
  }

  /** An absent description passes; one of at most 500 code points always
      passes; without presentation selectors the bound is exact. */
  lemma DescriptionSpec(description: Option<string>)
    ensures description.None? ==> DescriptionErrors(description) == []
    ensures description.Some? && |description.value| <= 500 ==> DescriptionErrors(description) == []
    ensures description.Some? && (forall i :: 0 <= i < |description.value| ==> !IsPresentationSelector(description.value[i])) ==>
      (DescriptionErrors(description) == [] <==> |description.value| <= 500)
  {
  }

  /** The shape of a JSON body field. */
  datatype Json = JsonObject | JsonArray | JsonNull | JsonScalar

  /** `.optional().isObject()`: an absent field passes; a present one must
      be an object, not an array and not null. */
  function ObjectErrors(field: string, message: string, value: Option<Json>): seq<FieldError> {
    if value.None? || value.value == JsonObject then [] else [FieldError(field, message, None)]
  }

  // ---------------------------------------------------------------------
  // E-mail addresses

  /** The e-mail field with the outcomes of isEmail and normalizeEmail. */
  datatype EmailInput = EmailInput(raw: Option<string>, isEmail: bool, normalized: string)

  /** isEmail, then normalizeEmail, then (signup only) isLength 5..255 on
      the normalised text. */
  function EmailErrors(email: EmailInput, checkLength: bool): seq<FieldError> {
    (if email.isEmail then [] else [FieldError("email", "Please provide a valid email address", email.raw)])
    + (if !checkLength || 5 <= CharLength(email.normalized) <= 255 then []
       else [FieldError("email", "Email must be between 5 and 255 characters", Some(email.normalized))])
  }

  // ---------------------------------------------------------------------
  // The chains

  function ValidateSignup(email: EmailInput, password: Option<string>, name: Option<string>): Response {
    HandleValidationErrors(EmailErrors(email, true) + PasswordErrors("password", password) + NameErrors(name))
  }

  lemma SignupSpec(email: EmailInput, password: Option<string>, name: Option<string>)
    ensures ValidateSignup(email, password, name).Proceed? <==>
      && email.isEmail && 5 <= CharLength(email.normalized) <= 255
      && StrongPassword(Text(password))
      && GoodName(Trim(Text(name)))
  {
    PasswordSpec("password", password);
    NameSpec(name);
  }

  function ValidateLogin(email: EmailInput, password: Option<string>): Response {
    HandleValidationErrors(
      EmailErrors(email, false)
      + (if Text(password) != "" then [] else [FieldError("password", "Password is required", password)]))
  }

  /** Login asks only for an address and some password; unlike signup it
      checks neither the address's length nor the password's strength. */
  lemma LoginSpec(email: EmailInput, password: Option<string>)
    ensures ValidateLogin(email, password).Proceed? <==> email.isEmail && Present(password)
    ensures email.isEmail && password.Some? && StrongPassword(password.value) ==> ValidateLogin(email, password).Proceed?
  {
  }

  function ValidateEmailVerification(email: EmailInput, code: Option<string>): Response {
    HandleValidationErrors(EmailErrors(email, false) + CodeErrors("Verification", code))
  }

  function ValidateForgotPassword(email: EmailInput): Response {
    HandleValidationErrors(EmailErrors(email, false))
  }

  function ValidateResetPassword(email: EmailInput, code: Option<string>, newPassword: Option<string>): Response {
    HandleValidationErrors(EmailErrors(email, false) + CodeErrors("Reset", code) + PasswordErrors("newPassword", newPassword))
  }

  lemma CodeChainsSpec(email: EmailInput, code: Option<string>, newPassword: Option<string>)
    ensures ValidateEmailVerification(email, code).Proceed? <==>
      email.isEmail && |Text(code)| == 6 && AllDigits(Text(code))
    ensures ValidateForgotPassword(email).Proceed? <==> email.isEmail
    ensures ValidateResetPassword(email, code, newPassword).Proceed? <==>
      email.isEmail && |Text(code)| == 6 && AllDigits(Text(code)) && StrongPassword(Text(newPassword))
  {
    CodeSpec("Verification", code);
    CodeSpec("Reset", code);
    PasswordSpec("newPassword", newPassword);
  }

  function GameObjectErrors(gameData: Option<Json>, deviceInfo: Option<Json>, location: Option<Json>): seq<FieldError> {
    ObjectErrors("gameData", "Game data must be an object", gameData)
    + ObjectErrors("deviceInfo", "Device info must be an object", deviceInfo)
    + ObjectErrors("location", "Location must be an object", location)
  }

  predicate ObjectOrAbsent(v: Option<Json>) { v.None? || v.value == JsonObject }

  function ValidateGameStart(gameType: Option<string>, gameData: Option<Json>, deviceInfo: Option<Json>,
                             location: Option<Json>): Response {
    HandleValidationErrors(GameTypeErrors(gameType) + GameObjectErrors(gameData, deviceInfo, location))
  }

  /** isMongoId on the session id is an input. */
  function ValidateGameEnd(sessionId: Option<string>, sessionIdIsMongoId: bool, score: Option<string>,
                           gameData: Option<Json>, deviceInfo: Option<Json>, location: Option<Json>): Response {
    HandleValidationErrors(
      (if sessionIdIsMongoId then [] else [FieldError("sessionId", "Invalid session ID", sessionId)])
      + ScoreErrors(score)
      + GameObjectErrors(gameData, deviceInfo, location))
  }

  function ValidateGetLeaderboard(gameType: Option<string>, limit: Option<string>): Response {
    HandleValidationErrors(GameTypeErrors(gameType) + LimitErrors(limit))
  }

  function ValidateFileUpload(description: Option<string>): Response {
    HandleValidationErrors(DescriptionErrors(description))
  }

  function ValidateObjectId(paramName: string, value: Option<string>, isMongoId: bool): Response {
    HandleValidationErrors(if isMongoId then [] else [FieldError(paramName, "Invalid " + paramName, value)])
  }

  lemma GameChainsSpec(gameType: Option<string>, sessionId: Option<string>, sessionIdIsMongoId: bool,
                       score: Option<string>, limit: Option<string>,
                       gameData: Option<Json>, deviceInfo: Option<Json>, location: Option<Json>)
    ensures ValidateGameStart(gameType, gameData, deviceInfo, location).Proceed? <==>
      && gameType.Some? && gameType.value in {"reaction", "speed", "endurance", "accuracy"}
      && ObjectOrAbsent(gameData) && ObjectOrAbsent(deviceInfo) && ObjectOrAbsent(location)
    ensures ValidateGameEnd(sessionId, sessionIdIsMongoId, score, gameData, deviceInfo, location).Proceed? <==>
      && sessionIdIsMongoId && NonNegativeNumeral(Text(score))
      && ObjectOrAbsent(gameData) && ObjectOrAbsent(deviceInfo) && ObjectOrAbsent(location)
    ensures ValidateGetLeaderboard(gameType, limit).Proceed? <==>
      && gameType.Some? && gameType.value in {"reaction", "speed", "endurance", "accuracy"}
      && (limit.None? || (IsIntText(limit.value) && 1 <= IntTextValue(limit.value) <= 100))
  {
    GameStartSpec(gameType, gameData, deviceInfo, location);
    GameEndSpec(sessionId, sessionIdIsMongoId, score, gameData, deviceInfo, location);
    GetLeaderboardSpec(gameType, limit);
  }

  lemma GameStartSpec(gameType: Option<string>, gameData: Option<Json>, deviceInfo: Option<Json>, location: Option<Json>)
    ensures ValidateGameStart(gameType, gameData, deviceInfo, location).Proceed? <==>
      && gameType.Some? && gameType.value in {"reaction", "speed", "endurance", "accuracy"}
      && ObjectOrAbsent(gameData) && ObjectOrAbsent(deviceInfo) && ObjectOrAbsent(location)
  {
    GameTypeSpec(gameType);
  }

  lemma GameEndSpec(sessionId: Option<string>, sessionIdIsMongoId: bool, score: Option<string>,
                    gameData: Option<Json>, deviceInfo: Option<Json>, location: Option<Json>)
    ensures ValidateGameEnd(sessionId, sessionIdIsMongoId, score, gameData, deviceInfo, location).Proceed? <==>
      && sessionIdIsMongoId && NonNegativeNumeral(Text(score))
      && ObjectOrAbsent(gameData) && ObjectOrAbsent(deviceInfo) && ObjectOrAbsent(location)
  {
    ScoreSpec(score);
  }

  lemma GetLeaderboardSpec(gameType: Option<string>, limit: Option<string>)
    ensures ValidateGetLeaderboard(gameType, limit).Proceed? <==>
      && gameType.Some? && gameType.value in {"reaction", "speed", "endurance", "accuracy"}
      && (limit.None? || (IsIntText(limit.value) && 1 <= IntTextValue(limit.value) <= 100))
  {
    GameTypeSpec(gameType);
  }

  /** A request the leaderboard chain lets through reaches the handler with
      a row count from 1 to 100. */
  lemma LeaderboardRequestLimit(gameType: Option<string>, limit: Option<string>)
    requires ValidateGetLeaderboard(gameType, limit).Proceed?
    ensures 1 <= GameController.EffectiveLimit(limit) <= 100
  {
    ValidatedLimit(limit);
  }

  lemma UploadAndIdSpec(description: Option<string>, paramName: string, value: Option<string>, isMongoId: bool)
    ensures ValidateFileUpload(description).Proceed? <==> DescriptionErrors(description) == []
    ensures ValidateObjectId(paramName, value, isMongoId).Proceed? <==> isMongoId
    ensures !isMongoId ==>
      ValidateObjectId(paramName, value, isMongoId) == Reject(400, "Validation Error", [FieldError(paramName, "Invalid " + paramName, value)])
  {
  }
}
