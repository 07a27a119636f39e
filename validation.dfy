/** The input rules shared by the two services: blank text, UTF-16 length,
    the message-text rule and the registration rule. */
module Validation {
  import opened Entities

  const MaxMessageLength: nat := 255
  const MinPasswordLength: nat := 4

  /** Java's `Character.isWhitespace` on a code point: the space, line and
      paragraph separators other than the no-break spaces U+00A0, U+2007 and
      U+202F, plus U+0009..U+000D and U+001C..U+001F. */
  predicate IsWhitespace(c: char) {
    var n := c as int;
    || 0x09 <= n <= 0x0D
    || 0x1C <= n <= 0x20
    || n == 0x1680
    || 0x2000 <= n <= 0x2006
    || 0x2008 <= n <= 0x200A
    || n == 0x2028 || n == 0x2029
    || n == 0x205F || n == 0x3000
  }

  /** `String.isBlank`: empty, or only whitespace code points. */
  predicate IsBlank(s: string) {
    forall i :: 0 <= i < |s| ==> IsWhitespace(s[i])
  }

  /** A code point that Java stores as one UTF-16 code unit. */
  predicate InBmp(c: char) {
    c as int < 0x1_0000
  }

  /** `String.length`: the number of UTF-16 code units, so a code point
      outside the Basic Multilingual Plane counts twice. It equals the number
      of code points exactly when every code point is in the BMP. */
  function Utf16Length(s: string): (n: nat)
    ensures |s| <= n <= 2 * |s|
    ensures n == |s| <==> forall i :: 0 <= i < |s| ==> InBmp(s[i])
  {
    if s == [] then 0
    else
      var rest := Utf16Length(s[1..]);
      assert forall i :: 1 <= i < |s| ==> s[i] == s[1..][i - 1];
      (if InBmp(s[0]) then 1 else 2) + rest
  }

  /** The rule both `createMessage` and `updateMessage` apply to a message
      text: not null, not blank, at most 255 UTF-16 code units. */
  predicate ValidMessageText(t: Option<string>) {
    t.Some? && !IsBlank(t.value) && Utf16Length(t.value) <= MaxMessageLength
  }

  /** The shape checks of `register`: username not null and not blank,
      password not null and at least 4 UTF-16 code units long. */
  predicate ValidRegistration(a: Account) {
    && a.username.Some? && !IsBlank(a.username.value)
    && a.password.Some? && Utf16Length(a.password.value) >= MinPasswordLength
  }

  /** For BMP text that is not blank, the length bound is exactly 255
      characters: 255 is accepted, 256 is not. */
  lemma MessageTextBoundary(s: string)
    requires forall i :: 0 <= i < |s| ==> InBmp(s[i])
    requires !IsBlank(s)
    ensures ValidMessageText(Some(s)) <==> |s| <= MaxMessageLength
  {
  }

  /** A null text, the empty text and an all-whitespace text are rejected. */
  lemma BlankTextsRejected(s: string)
    requires IsBlank(s)
    ensures !ValidMessageText(Some(s)) && !ValidMessageText(None)
    ensures !ValidMessageText(Some(""))
  {
  }

  /** For a non-blank username and a BMP password, registration's shape check
      accepts exactly the passwords of at least 4 characters: 3 is rejected, 4
      is accepted. */
  lemma PasswordBoundary(a: Account)
    requires a.username.Some? && !IsBlank(a.username.value) && a.password.Some?
    requires forall i :: 0 <= i < |a.password.value| ==> InBmp(a.password.value[i])
    ensures ValidRegistration(a) <==> |a.password.value| >= MinPasswordLength
  {
  }
}
