/**
 * The helpers of src/utils/index.ts: the response envelope, the token check,
 * the password rule, Nigerian phone numbers and numeric verification codes.
 * bcrypt and jsonwebtoken are foreign libraries; they enter the model as the
 * functions held by a `Crypto` value and as a `jwtVerify` parameter.
 */
module Utils {
  import opened Wrappers

  // ---------------------------------------------------------------------------
  // The response envelope

  /** The status constants the services hand to messageHandler. Their numeric
      values live in a file that is not part of this model, so here they are
      distinct names and nothing more. */
  datatype StatusCode = Success | Unauthorized | BadRequest | NotFound | Conflict | InternalServerError

  /** `{ message, success, statusCode, data }`, generic in the payload. */
  datatype Envelope<D> = Envelope(message: string, success: bool, statusCode: StatusCode, data: D)

  /** messageHandler: packs its four arguments, unchanged, into one record. */
  function MessageHandler<D>(message: string, success: bool, statusCode: StatusCode, data: D): (r: Envelope<D>)
    ensures r.message == message && r.success == success
    ensures r.statusCode == statusCode && r.data == data
  {
    Envelope(message, success, statusCode, data)
  }

  // ---------------------------------------------------------------------------
  // Cryptographic collaborators

  /** A token payload: `{email}` for the tokens Register issues, `{id, email}`
      for the ones Login issues. */
  datatype Claims = Claims(id: Option<nat>, email: string)

  /** What jwt.verify decodes from a token: the signed claims, plus the
      issued-at time `iat` that jwt.sign always adds and the expiry `exp` it
      adds when given `expiresIn`, both in seconds. */
  datatype TokenPayload = TokenPayload(claims: Claims, iat: int, exp: Option<int>)

  /** bcrypt and jsonwebtoken, taken as given functions:
      `hash(password, salt)` is bcrypt.hash under a salt drawn by bcrypt.genSalt(10),
      `compare(password, hashed)` is bcrypt.compare, and
      `sign(payload, expiresIn, iat)` is jwt.sign under the process-wide
      secret, called at a time whose whole seconds are `iat`: jsonwebtoken
      reads the clock for the token's `iat` and computes `exp` from it. */
  datatype Crypto = Crypto(
    hash: (string, nat) -> string,
    compare: (string, string) -> bool,
    sign: (Claims, string, int) -> string)

  /** What a failing library call throws: an Error with its message, or a value
      that is not an Error. */
  datatype Thrown = ErrorInstance(message: string) | NonError

  /** jwt.verify without a callback: it returns the decoded payload or throws. */
  datatype JwtResult<T> = Decoded(payload: T) | Threw(thrown: Thrown)

  /** `{ success, decoded?, error? }`, the shape verifyToken returns. */
  datatype TokenCheck<T> = TokenCheck(success: bool, decoded: Option<T>, error: Option<string>)

  const FallbackTokenError := "Invalid or expired token"

  /** verifyToken: never throws. It reports the decoded payload on success and
      an error string otherwise; the string is non-empty whenever the library's
      Error message is. */
  function VerifyToken<T>(token: string, jwtVerify: string -> JwtResult<T>): (r: TokenCheck<T>)
    ensures r.success <==> jwtVerify(token).Decoded?
    ensures r.success ==> r.decoded == Some(jwtVerify(token).payload) && r.error == None
    ensures !r.success ==> r.decoded == None && r.error.Some?
    ensures !r.success && jwtVerify(token).thrown.ErrorInstance? ==>
              r.error == Some(jwtVerify(token).thrown.message)
    ensures !r.success && jwtVerify(token).thrown.NonError? ==> r.error == Some(FallbackTokenError)
    ensures !r.success && (jwtVerify(token).thrown.ErrorInstance? ==> jwtVerify(token).thrown.message != "") ==>
              r.error.Some? && r.error.value != ""
  {
    match jwtVerify(token)
    case Decoded(payload) => TokenCheck(true, Some(payload), None)
    case Threw(e) => TokenCheck(false, None, Some(if e.ErrorInstance? then e.message else FallbackTokenError))
  }

  // ---------------------------------------------------------------------------
  // Password strength

  predicate IsLower(c: char) { 'a' <= c <= 'z' }
  predicate IsUpper(c: char) { 'A' <= c <= 'Z' }
  /** `\d` in a JavaScript regular expression: ASCII digits only. */
  predicate IsDigit(c: char) { '0' <= c <= '9' }
  predicate IsSpecial(c: char) { c in "@#$%^&*!" }
  predicate IsPasswordChar(c: char) { IsLower(c) || IsUpper(c) || IsDigit(c) || IsSpecial(c) }

  /** The characters that a JavaScript `.` does not match. */
  predicate IsLineTerminator(c: char) { c == '\n' || c == '\r' || c == '\U{2028}' || c == '\U{2029}' }

  /** `(?=.*[class])` at the start of the input: a character of the class is
      preceded only by characters that `.` matches. */
  predicate LookaheadFinds(value: string, inClass: char -> bool) {
    exists i :: 0 <= i < |value| && inClass(value[i]) && forall j :: 0 <= j < i ==> !IsLineTerminator(value[j])
  }

  /** passwordValidator, the regular expression
      `^(?=.*[a-z])(?=.*[A-Z])(?=.*\d)(?=.*[@#$%^&*!])[A-Za-z\d@#$%^&*!]{8,}$`
      read part by part: four look-aheads, then at least eight allowed characters
      up to the end of the input. */
  predicate PasswordValidator(value: string) {
    && LookaheadFinds(value, IsLower)
    && LookaheadFinds(value, IsUpper)
    && LookaheadFinds(value, IsDigit)
    && LookaheadFinds(value, IsSpecial)
    && |value| >= 8
    && forall i :: 0 <= i < |value| ==> IsPasswordChar(value[i])
  }

  /** The password rule in plain words. */
  predicate IsStrongPassword(value: string) {
    && |value| >= 8
    && (forall i :: 0 <= i < |value| ==> IsPasswordChar(value[i]))
    && (exists i :: 0 <= i < |value| && IsLower(value[i]))
    && (exists i :: 0 <= i < |value| && IsUpper(value[i]))
    && (exists i :: 0 <= i < |value| && IsDigit(value[i]))
    && (exists i :: 0 <= i < |value| && IsSpecial(value[i]))
  }

  /** A look-ahead over a string of allowed characters finds a class member
      exactly when the string holds one. */
  lemma LookaheadOverPasswordChars(value: string, inClass: char -> bool)
    requires forall i :: 0 <= i < |value| ==> IsPasswordChar(value[i])
    ensures LookaheadFinds(value, inClass) <==> exists i :: 0 <= i < |value| && inClass(value[i])
  {
    if i :| 0 <= i < |value| && inClass(value[i]) {
      assert forall j :: 0 <= j < i ==> !IsLineTerminator(value[j]) by {
        forall j | 0 <= j < i ensures !IsLineTerminator(value[j]) {
          assert IsPasswordChar(value[j]);
        }
      }
    }
  }

  /** passwordValidator accepts exactly the strong passwords. */
  lemma PasswordValidatorMeaning(value: string)
    ensures PasswordValidator(value) <==> IsStrongPassword(value)
  {
    if forall i :: 0 <= i < |value| ==> IsPasswordChar(value[i]) {
      LookaheadOverPasswordChars(value, IsLower);
      LookaheadOverPasswordChars(value, IsUpper);
      LookaheadOverPasswordChars(value, IsDigit);
      LookaheadOverPasswordChars(value, IsSpecial);
    }
  }

  // ---------------------------------------------------------------------------
  // Nigerian phone numbers

  const CountryCode := "234"

  predicate StartsWith(s: string, prefix: string) {
    |prefix| <= |s| && s[..|prefix|] == prefix
  }

  /** `([789][01])\d{8}`: the ten-digit national number. */
  predicate IsNationalNumber(s: string) {
    |s| == 10 && s[0] in "789" && s[1] in "01" && forall i :: 2 <= i < 10 ==> IsDigit(s[i])
  }

  /** verifyPhoneNumber: `^(?:\+?234|0)?([789][01])\d{8}$`, one disjunct per
      choice of the optional prefix. */
  predicate VerifyPhoneNumber(phone: string) {
    || IsNationalNumber(phone)
    || (StartsWith(phone, "0") && IsNationalNumber(phone[1..]))
    || (StartsWith(phone, CountryCode) && IsNationalNumber(phone[3..]))
    || (StartsWith(phone, "+" + CountryCode) && IsNationalNumber(phone[4..]))
  }

  /** The last ten characters of a number. */
  function NationalPart(phone: string): (n: string)
    requires |phone| >= 10
    ensures |n| == 10 && phone == phone[..|phone| - 10] + n
  {
    phone[|phone| - 10..]
  }

  /** A number is valid exactly when it is a national number behind one of the
      prefixes "", "0", "234" and "+234". */
  lemma VerifyPhoneNumberMeaning(phone: string)
    ensures VerifyPhoneNumber(phone) <==>
              |phone| >= 10 && IsNationalNumber(NationalPart(phone)) &&
              phone[..|phone| - 10] in {"", "0", "234", "+234"}
  {
    if |phone| >= 10 {
      var prefix, national := phone[..|phone| - 10], NationalPart(phone);
      if prefix == "0" {
        assert StartsWith(phone, "0") && phone[1..] == national;
      } else if prefix == "234" {
        assert StartsWith(phone, CountryCode) && phone[3..] == national;
      } else if prefix == "+234" {
        assert StartsWith(phone, "+" + CountryCode) && phone[4..] == national;
      }
    }
  }

  datatype PhoneCheck = PhoneCheck(status: bool, message: string, phone: string)

  /** `s` without `prefix` when it starts with it (`startsWith` then `substring`). */
  function StripPrefix(s: string, prefix: string): string {
    if StartsWith(s, prefix) then s[|prefix|..] else s
  }

  /** The three prefix strips of sanitizePhoneNumber: a leading "0", then a
      leading "+", then the country code. */
  function StripNationalPrefix(phone: string): string {
    StripPrefix(StripPrefix(StripPrefix(phone, "0"), "+"), CountryCode)
  }

  /** A string starts with a non-empty prefix only if it starts with the
      prefix's first character. */
  lemma StartsWithFirst(s: string, prefix: string)
    requires |prefix| > 0
    ensures StartsWith(s, prefix) ==> |s| > 0 && s[0] == prefix[0]
  {
    if StartsWith(s, prefix) {
      assert s[0] == s[..|prefix|][0];
    }
  }

  /** A string that starts with a digit from 7 to 9 has none of the prefixes. */
  lemma NoPrefixBefore789(s: string)
    requires |s| > 0 && s[0] in "789"
    ensures StripPrefix(s, "0") == s && StripPrefix(s, "+") == s && StripPrefix(s, CountryCode) == s
  {
    StartsWithFirst(s, "0");
    StartsWithFirst(s, "+");
    StartsWithFirst(s, CountryCode);
  }

  /** On a valid number the strips leave exactly its national part. */
  lemma StripNationalPrefixValid(phone: string)
    requires VerifyPhoneNumber(phone)
    ensures |phone| >= 10 && StripNationalPrefix(phone) == NationalPart(phone)
  {
    VerifyPhoneNumberMeaning(phone);
    var prefix, national := phone[..|phone| - 10], NationalPart(phone);
    if prefix == "" {
      assert phone == national;
      NoPrefixBefore789(phone);
    } else if prefix == "0" {
      assert StartsWith(phone, "0") && phone[1..] == national;
      NoPrefixBefore789(national);
    } else if prefix == "234" {
      assert phone[0] == '2';
      StartsWithFirst(phone, "0");
      StartsWithFirst(phone, "+");
      assert StartsWith(phone, CountryCode) && phone[3..] == national;
    } else {
      assert prefix == "+234" && phone[0] == '+';
      StartsWithFirst(phone, "0");
      assert StartsWith(phone, "+");
      var rest := phone[1..];
      assert rest[..3] == CountryCode && rest[3..] == national;
    }
  }

  /** sanitizePhoneNumber: rejects a number that fails verifyPhoneNumber; any
      other number becomes "+234" followed by its ten-digit national part. */
  function SanitizePhoneNumber(phone: string): (r: PhoneCheck)
    ensures !VerifyPhoneNumber(phone) ==> r == PhoneCheck(false, "Phone number is invalid", "")
    ensures VerifyPhoneNumber(phone) ==> r.status && r.message == "Phone number is valid"
    ensures VerifyPhoneNumber(phone) ==>
              |phone| >= 10 && IsNationalNumber(NationalPart(phone)) &&
              r.phone == "+" + CountryCode + NationalPart(phone)
    ensures r.status ==> |r.phone| == 14
  {
    if !VerifyPhoneNumber(phone) then
      PhoneCheck(false, "Phone number is invalid", "")
    else
      StripNationalPrefixValid(phone);
      VerifyPhoneNumberMeaning(phone);
      PhoneCheck(true, "Phone number is valid", "+" + CountryCode + StripNationalPrefix(phone))
  }

  /** What sanitizePhoneNumber accepts, it returns in a form that passes
      verifyPhoneNumber again. */
  lemma SanitizedPhoneVerifies(phone: string)
    ensures SanitizePhoneNumber(phone).status ==> VerifyPhoneNumber(SanitizePhoneNumber(phone).phone)
  {
    var r := SanitizePhoneNumber(phone);
    if r.status {
      VerifyPhoneNumberMeaning(r.phone);
      assert r.phone[..4] == "+234" && NationalPart(r.phone) == NationalPart(phone);
    }
  }

  /** sanitizePhoneNumber is idempotent, on valid and invalid input alike. */
  lemma SanitizeIdempotent(phone: string)
    ensures SanitizePhoneNumber(SanitizePhoneNumber(phone).phone) == SanitizePhoneNumber(phone)
  {
    var r := SanitizePhoneNumber(phone);
    if r.status {
      SanitizedPhoneVerifies(phone);
      assert NationalPart(r.phone) == NationalPart(phone);
    } else {
      assert !IsNationalNumber(r.phone);
    }
  }

  /** Two valid numbers sanitize to the same string exactly when they share
      their national part: "08031234567", "2348031234567" and "+2348031234567"
      are one number. */
  lemma SanitizeIdentifiesNumbers(p: string, q: string)
    requires VerifyPhoneNumber(p) && VerifyPhoneNumber(q)
    ensures |p| >= 10 && |q| >= 10
    ensures SanitizePhoneNumber(p).phone == SanitizePhoneNumber(q).phone <==> NationalPart(p) == NationalPart(q)
  {
    var rp, rq := SanitizePhoneNumber(p), SanitizePhoneNumber(q);
    if rp.phone == rq.phone {
      assert NationalPart(p) == rp.phone[4..];
      assert NationalPart(q) == rq.phone[4..];
    }
  }

  // ---------------------------------------------------------------------------
  // Decimal strings and verification codes

  function Pow10(n: nat): (p: nat)
    ensures p >= 1
  {
    if n == 0 then 1 else 10 * Pow10(n - 1)
  }

  predicate AllDigits(s: string) {
    forall i :: 0 <= i < |s| ==> IsDigit(s[i])
  }

  function DigitChar(d: nat): (c: char)
    requires d < 10
    ensures IsDigit(c)
  {
    (48 + d) as char
  }

  function DigitValue(c: char): nat
    requires IsDigit(c)
  {
    c as nat - 48
  }

  /** The number a string of decimal digits denotes (leading zeros allowed). */
  function DigitsValue(s: string): nat
    requires AllDigits(s)
  {
    if s == [] then 0 else 10 * DigitsValue(s[..|s| - 1]) + DigitValue(s[|s| - 1])
  }

  /** `Number.prototype.toString()` on a non-negative safe integer: its decimal
      digits, without leading zeros. */
  function NatToString(n: nat): (s: string)
    ensures |s| >= 1 && AllDigits(s)
    ensures |s| > 1 ==> s[0] != '0'
  {
    if n < 10 then [DigitChar(n)] else NatToString(n / 10) + [DigitChar(n % 10)]
  }

  /** Reading back what toString writes gives the number. */
  lemma {:induction false} NatToStringValue(n: nat)
    ensures DigitsValue(NatToString(n)) == n
  {
    if n >= 10 {
      NatToStringValue(n / 10);
      var s := NatToString(n);
      assert s[..|s| - 1] == NatToString(n / 10);
    }
  }

  /** toString is one-to-one, so a decimal string names one number. */
  lemma NatToStringInjective(m: nat, n: nat)
    ensures NatToString(m) == NatToString(n) <==> m == n
  {
    if NatToString(m) == NatToString(n) {
      NatToStringValue(m);
      NatToStringValue(n);
    }
  }

  /** A number below 10^k (k >= 1) takes at most k digits. */
  lemma {:induction false} NatToStringLength(n: nat, k: nat)
    requires k >= 1 && n < Pow10(k)
    ensures |NatToString(n)| <= k
  {
    if n >= 10 {
      assert Pow10(1) == 10;
      assert k >= 2;
      assert n / 10 < Pow10(k - 1);
      NatToStringLength(n / 10, k - 1);
    }
  }

  /** `padStart(length, c)` */
  function PadStart(s: string, length: nat, c: char): (r: string)
    ensures |r| == if |s| >= length then |s| else length
    ensures r[|r| - |s|..] == s
    ensures forall i :: 0 <= i < |r| - |s| ==> r[i] == c
  {
    if |s| >= length then s else seq(length - |s|, _ => c) + s
  }

  /** Leading zeros do not change the value of a digit string. */
  lemma {:induction false} LeadingZerosValue(s: string, k: nat)
    requires AllDigits(s) && k <= |s|
    requires forall i :: 0 <= i < k ==> s[i] == '0'
    ensures DigitsValue(s) == DigitsValue(s[k..])
  {
    if k < |s| {
      LeadingZerosValue(s[..|s| - 1], k);
      assert s[..|s| - 1][k..] == s[k..][..|s[k..]| - 1];
    } else {
      LeadingZerosAllZero(s);
    }
  }

  lemma {:induction false} LeadingZerosAllZero(s: string)
    requires forall i :: 0 <= i < |s| ==> s[i] == '0'
    ensures AllDigits(s) && DigitsValue(s) == 0
  {
    if s != [] {
      LeadingZerosAllZero(s[..|s| - 1]);
    }
  }

  /** Two digit strings of one length with one value are the same string. */
  lemma {:induction false} DigitsValueInjective(s: string, t: string)
    requires AllDigits(s) && AllDigits(t) && |s| == |t|
    requires DigitsValue(s) == DigitsValue(t)
    ensures s == t
  {
    if s != [] {
      var n := |s| - 1;
      assert DigitValue(s[n]) == DigitValue(t[n]);
      DigitsValueInjective(s[..n], t[..n]);
      assert s == s[..n] + [s[n]] && t == t[..n] + [t[n]];
    }
  }

  const DefaultCodeLength: nat := 6

  /** generateVerificationCode: `draw` is Math.floor(Math.random() * 10^length).
      The code is the draw in decimal, left-padded with '0' to `length`
      characters; with length 0 the draw is 0 and the code is "0". */
  function GenerateVerificationCode(draw: nat, length: nat := DefaultCodeLength): (code: string)
    requires draw < Pow10(length)
    ensures |code| == if length == 0 then 1 else length
    ensures AllDigits(code)
    ensures DigitsValue(code) == draw
  {
    var digits := NatToString(draw);
    assert length > 0 ==> |digits| <= length by {
      if length > 0 { NatToStringLength(draw, length); }
    }
    var code := PadStart(digits, length, '0');
    assert code[|code| - |digits|..] == digits;
    NatToStringValue(draw);
    LeadingZerosValue(code, |code| - |digits|);
    code
  }

  /** A code is the only digit string of its length that denotes its draw, so
      the length and the value together fix every character. */
  lemma VerificationCodeUnique(draw: nat, length: nat, s: string)
    requires length >= 1 && draw < Pow10(length)
    requires |s| == length && AllDigits(s) && DigitsValue(s) == draw
    ensures s == GenerateVerificationCode(draw, length)
  {
    DigitsValueInjective(s, GenerateVerificationCode(draw, length));
  }
}
