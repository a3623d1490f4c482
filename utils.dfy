/** The string helpers of lib/utils.ts: shortening an address for display,
    the recipient and amount validators, and the input sanitiser. Each
    regular expression is written out as a predicate over the trimmed string,
    and lemmas tie each predicate to the shape its regular expression
    describes. */
module Utils {
  import opened JsString

  // ---------------------------------------------------------------------------
  // formatAddress

  /** `formatAddress(address, length = 4)`: an address of at most `2 * length`
      characters is shown whole; a longer one as its first `length` characters,
      `...`, and its last `length` characters, cut with `slice`. */
  function FormatAddress(address: string, length: int := 4): string {
    if |address| <= length * 2 then address
    else Slice(address, 0, length) + "..." + SliceFrom(address, -length)
  }

  /** An address that fits in `2 * length` characters is returned unchanged. */
  lemma FormatAddressKeepsShort(address: string, length: int)
    requires |address| <= 2 * length
    ensures FormatAddress(address, length) == address
  {
  }

  /** A longer address keeps its first and last `length` characters around
      `...`, so the result is always `2 * length + 3` characters long. */
  lemma FormatAddressElidesMiddle(address: string, length: int)
    requires 0 < length && 2 * length < |address|
    ensures var r := FormatAddress(address, length);
      && r == address[..length] + "..." + address[|address| - length..]
      && |r| == 2 * length + 3
      && r[..length] == address[..length]
      && r[length..length + 3] == "..."
      && r[length + 3..] == address[|address| - length..]
  {
    var r := FormatAddress(address, length);
    SliceFromNegative(address, length);
    assert r[..length] == address[..length];
    assert r[length + 3..] == address[|address| - length..];
  }

  /** With `length == 0`, `slice(-0)` is `slice(0)`: the whole address follows
      the ellipsis. */
  lemma FormatAddressZeroLength(address: string)
    requires address != []
    ensures FormatAddress(address, 0) == "..." + address
  {
    SliceFromNegative(address, 0);
  }

  /** A negative `length` takes `slice`'s count-from-the-end reading on both
      sides: all but the last `-length` characters, then all but the first. */
  lemma FormatAddressNegativeLength(address: string, length: int)
    requires length < 0
    ensures var front := if |address| + length < 0 then 0 else |address| + length;
      var back := if -length > |address| then |address| else -length;
      FormatAddress(address, length) == address[..front] + "..." + address[back..]
  {
  }

  /** For a positive `length` the result is shorter than the address exactly when
      the address is longer than `2 * length + 3`; addresses of `2 * length + 1`
      to `2 * length + 3` characters are not shortened. */
  lemma FormatAddressShortensIff(address: string, length: int)
    requires 0 < length
    ensures |FormatAddress(address, length)| < |address| <==> |address| > 2 * length + 3
  {
    if 2 * length < |address| {
      FormatAddressElidesMiddle(address, length);
    }
  }

  // ---------------------------------------------------------------------------
  // isValidSeiAddress

  /** The character class `[a-fA-F0-9]`. */
  predicate IsHexDigit(c: char) {
    '0' <= c <= '9' || 'a' <= c <= 'f' || 'A' <= c <= 'F'
  }

  predicate AllHexDigits(s: string) {
    forall i :: 0 <= i < |s| ==> IsHexDigit(s[i])
  }

  /** `/^0x[a-fA-F0-9]{40}$/`: a lower-case `0x` and exactly forty hex digits. */
  predicate MatchesSeiAddress(t: string) {
    |t| == 42 && t[..2] == "0x" && AllHexDigits(t[2..])
  }

  /** `isValidSeiAddress(address)`: false on blank input, else the pattern
      tested against the trimmed address. */
  predicate IsValidSeiAddress(address: string) {
    var t := Trim(address);
    t != [] && MatchesSeiAddress(t)
  }

  /** Every `0x` followed by forty hex digits is accepted, whatever whitespace
      surrounds it. */
  lemma SeiAddressAccepts(left: string, digits: string, right: string)
    requires |digits| == 40 && AllHexDigits(digits)
    requires AllWhitespace(left) && AllWhitespace(right)
    ensures IsValidSeiAddress(left + "0x" + digits + right)
  {
    var t := "0x" + digits;
    assert t[|t| - 1] == digits[39];
    assert left + "0x" + digits + right == left + t + right;
    TrimRemovesPadding(left, t, right);
    assert t[2..] == digits;
  }

  /** Conversely, an accepted address is such a string: its trimmed form is `0x`
      followed by forty hex digits. */
  lemma SeiAddressShape(address: string) returns (digits: string)
    requires IsValidSeiAddress(address)
    ensures |digits| == 40 && AllHexDigits(digits)
    ensures Trim(address) == "0x" + digits
  {
    var t := Trim(address);
    digits := t[2..];
    assert t == t[..2] + t[2..];
  }

  // ---------------------------------------------------------------------------
  // isValidEmailWalletFormat

  /** The wallet kinds the pattern's final group `(sei-wallet|smartwallet)` allows. */
  const WalletKinds: set<string> := {"sei-wallet", "smartwallet"}

  /** Every character matches the regex `.`, which refuses line terminators. */
  predicate HasNoLineTerminator(s: string) {
    forall i :: 0 <= i < |s| ==> !IsLineTerminator(s[i])
  }

  /** `.+@.+\..+` over the whole of `m`: an `@` after at least one character,
      then at least one character, a `.`, and at least one character. */
  predicate MatchesMailbox(m: string) {
    && HasNoLineTerminator(m)
    && exists i, j :: 1 <= i && i + 2 <= j <= |m| - 2 && m[i] == '@' && m[j] == '.'
  }

  /** The pattern with the group fixed to `kind`: `email:`, a mailbox, `:`, `kind`. */
  predicate MatchesEmailWalletOfKind(t: string, kind: string) {
    && |t| >= 7 + |kind|
    && t[..6] == "email:"
    && t[|t| - |kind| - 1..] == [':'] + kind
    && MatchesMailbox(t[6..|t| - |kind| - 1])
  }

  /** `/^email:.+@.+\..+:(sei-wallet|smartwallet)$/`. */
  predicate MatchesEmailWallet(t: string) {
    MatchesEmailWalletOfKind(t, "sei-wallet") || MatchesEmailWalletOfKind(t, "smartwallet")
  }

  /** `isValidEmailWalletFormat(input)`: false on blank input, else the pattern
      tested against the trimmed input. */
  predicate IsValidEmailWalletFormat(input: string) {
    var t := Trim(input);
    t != [] && MatchesEmailWallet(t)
  }

  /** The mailbox `local@domain.tld` built from its parts. */
  function Mailbox(local: string, domain: string, tld: string): string {
    local + "@" + domain + "." + tld
  }

  /** The string the e-mail pattern describes, built from its parts. */
  function EmailWalletLocator(local: string, domain: string, tld: string, kind: string): string {
    "email:" + Mailbox(local, domain, tld) + ":" + kind
  }

  /** Every string of the regular expression's shape matches. The parts may
      themselves contain `@`, `.` or `:`; only line terminators are refused. */
  lemma EmailWalletIntro(local: string, domain: string, tld: string, kind: string)
    requires local != [] && domain != [] && tld != []
    requires HasNoLineTerminator(local) && HasNoLineTerminator(domain) && HasNoLineTerminator(tld)
    requires kind in WalletKinds
    ensures MatchesEmailWallet(EmailWalletLocator(local, domain, tld, kind))
  {
    MailboxIntro(local, domain, tld);
    LocatorIntro(Mailbox(local, domain, tld), kind);
  }

  /** Every `local@domain.tld` with non-empty parts free of line terminators
      matches `.+@.+\..+`. */
  lemma MailboxIntro(local: string, domain: string, tld: string)
    requires local != [] && domain != [] && tld != []
    requires HasNoLineTerminator(local) && HasNoLineTerminator(domain) && HasNoLineTerminator(tld)
    ensures MatchesMailbox(Mailbox(local, domain, tld))
  {
    var m := Mailbox(local, domain, tld);
    forall k | 0 <= k < |m| ensures !IsLineTerminator(m[k]) {
      if k < |local| {
        assert m[k] == local[k];
      } else if |local| < k < |local| + 1 + |domain| {
        assert m[k] == domain[k - |local| - 1];
      } else if k > |local| + 1 + |domain| {
        assert m[k] == tld[k - |local| - 2 - |domain|];
      }
    }
    var i, j := |local|, |local| + 1 + |domain|;
    assert m[i] == '@' && m[j] == '.';
  }

  /** A matching mailbox between `email:` and `:kind` matches the whole pattern. */
  lemma LocatorIntro(m: string, kind: string)
    requires MatchesMailbox(m) && kind in WalletKinds
    ensures MatchesEmailWallet("email:" + m + ":" + kind)
  {
    var t := "email:" + m + ":" + kind;
    assert t[..6] == "email:";
    assert t[|t| - |kind| - 1..] == [':'] + kind;
    assert t[6..|t| - |kind| - 1] == m;
    assert MatchesEmailWalletOfKind(t, kind);
  }

  /** Every matching string has the regular expression's shape. */
  lemma EmailWalletElim(t: string) returns (local: string, domain: string, tld: string, kind: string)
    requires MatchesEmailWallet(t)
    ensures t == EmailWalletLocator(local, domain, tld, kind)
    ensures local != [] && domain != [] && tld != []
    ensures HasNoLineTerminator(local) && HasNoLineTerminator(domain) && HasNoLineTerminator(tld)
    ensures kind in WalletKinds
  {
    kind := if MatchesEmailWalletOfKind(t, "sei-wallet") then "sei-wallet" else "smartwallet";
    var m := EmailWalletOfKindElim(t, kind);
    local, domain, tld := MailboxElim(m);
  }

  /** A string matching with kind `kind` is `email:`, its mailbox, `:` and `kind`. */
  lemma EmailWalletOfKindElim(t: string, kind: string) returns (m: string)
    requires MatchesEmailWalletOfKind(t, kind)
    ensures t == "email:" + m + ":" + kind && MatchesMailbox(m)
  {
    var e := |t| - |kind| - 1;
    m := t[6..e];
    assert t == t[..6] + t[6..e] + t[e..];
  }

  /** Every matching mailbox splits as `local@domain.tld` into non-empty parts
      free of line terminators. */
  lemma MailboxElim(m: string) returns (local: string, domain: string, tld: string)
    requires MatchesMailbox(m)
    ensures m == Mailbox(local, domain, tld)
    ensures local != [] && domain != [] && tld != []
    ensures HasNoLineTerminator(local) && HasNoLineTerminator(domain) && HasNoLineTerminator(tld)
  {
    var i, j :| 1 <= i && i + 2 <= j <= |m| - 2 && m[i] == '@' && m[j] == '.';
    local, domain, tld := m[..i], m[i + 1..j], m[j + 1..];
    assert m == local + "@" + domain + "." + tld;
  }

  /** Every string of that shape is accepted, whatever whitespace surrounds it. */
  lemma EmailWalletAccepts(left: string, local: string, domain: string, tld: string, kind: string, right: string)
    requires local != [] && domain != [] && tld != []
    requires HasNoLineTerminator(local) && HasNoLineTerminator(domain) && HasNoLineTerminator(tld)
    requires kind in WalletKinds
    requires AllWhitespace(left) && AllWhitespace(right)
    ensures IsValidEmailWalletFormat(left + EmailWalletLocator(local, domain, tld, kind) + right)
  {
    EmailWalletIntro(local, domain, tld, kind);
    PaddedPatternAccepted(left, EmailWalletLocator(local, domain, tld, kind), right);
  }

  lemma PaddedPatternAccepted(left: string, t: string, right: string)
    requires MatchesEmailWallet(t)
    requires AllWhitespace(left) && AllWhitespace(right)
    ensures IsValidEmailWalletFormat(left + t + right)
  {
    assert t[..6][0] == t[0] == 'e';
    var kind := if MatchesEmailWalletOfKind(t, "sei-wallet") then "sei-wallet" else "smartwallet";
    assert t[|t| - 1] == ([':'] + kind)[|kind|] == 't';
    TrimRemovesPadding(left, t, right);
  }

  /** An accepted e-mail recipient has no line terminator anywhere in its
      trimmed form. */
  lemma EmailWalletHasNoLineTerminator(input: string)
    requires IsValidEmailWalletFormat(input)
    ensures HasNoLineTerminator(Trim(input))
  {
    MatchesEmailWalletHasNoLineTerminator(Trim(input));
  }

  lemma MatchesEmailWalletHasNoLineTerminator(t: string)
    requires MatchesEmailWallet(t)
    ensures HasNoLineTerminator(t)
  {
    var kind := if MatchesEmailWalletOfKind(t, "sei-wallet") then "sei-wallet" else "smartwallet";
    var e := |t| - |kind| - 1;
    assert HasNoLineTerminator(t[..6]) by { assert t[..6] == "email:"; }
    assert HasNoLineTerminator(t[e..]) by { assert t[e..] == [':'] + kind; }
    NoLineTerminatorInParts(t, 6, e);
  }

  /** A string none of whose three consecutive parts holds a line terminator
      holds none. */
  lemma NoLineTerminatorInParts(t: string, i: nat, j: nat)
    requires i <= j <= |t|
    requires HasNoLineTerminator(t[..i]) && HasNoLineTerminator(t[i..j]) && HasNoLineTerminator(t[j..])
    ensures HasNoLineTerminator(t)
  {
    forall k | 0 <= k < |t| ensures !IsLineTerminator(t[k]) {
      if k < i {
        assert t[k] == t[..i][k];
      } else if k < j {
        assert t[k] == t[i..j][k - i];
      } else {
        assert t[k] == t[j..][k - j];
      }
    }
  }

  // ---------------------------------------------------------------------------
  // isValidRecipient

  /** `isValidRecipient(recipient)`: a Sei address or an e-mail wallet locator. */
  predicate IsValidRecipient(recipient: string) {
    IsValidSeiAddress(recipient) || IsValidEmailWalletFormat(recipient)
  }

  /** The two recipient forms never overlap: one begins with `0`, the other
      with `e`. */
  lemma RecipientFormsDisjoint(recipient: string)
    ensures !(IsValidSeiAddress(recipient) && IsValidEmailWalletFormat(recipient))
  {
    var t := Trim(recipient);
    if MatchesSeiAddress(t) {
      assert t[0] == t[..2][0] == '0';
    }
    if MatchesEmailWallet(t) {
      assert t[0] == t[..6][0] == 'e';
    }
  }

  /** A recipient is valid exactly when its trimmed form matches one of the two
      patterns: the blank-input guards of both validators are subsumed by them. */
  lemma RecipientValidIff(recipient: string)
    ensures IsValidRecipient(recipient) <==>
      MatchesSeiAddress(Trim(recipient)) || MatchesEmailWallet(Trim(recipient))
  {
    var t := Trim(recipient);
    if MatchesEmailWallet(t) {
      assert |t| > 0;
    }
  }

  /** Validation depends only on the trimmed recipient: surrounding whitespace
      neither makes nor breaks it. */
  lemma RecipientIgnoresPadding(recipient: string)
    ensures IsValidRecipient(recipient) <==> IsValidRecipient(Trim(recipient))
  {
    TrimIdempotent(recipient);
  }

  /** A blank recipient is never valid. */
  lemma BlankRecipientRejected(recipient: string)
    requires AllWhitespace(recipient)
    ensures !IsValidRecipient(recipient)
  {
    TrimEmptyIffAllWhitespace(recipient);
  }

  // ---------------------------------------------------------------------------
  // isValidAmount

  predicate IsDigit(c: char) {
    '0' <= c <= '9'
  }

  predicate AllDigits(s: string) {
    forall i :: 0 <= i < |s| ==> IsDigit(s[i])
  }

  predicate HasNonZeroDigit(s: string) {
    exists i :: 0 <= i < |s| && '1' <= s[i] <= '9'
  }

  /** The position of the first `c` in `s`, or `|s|` when there is none. */
  function IndexOf(s: string, c: char): (r: nat)
    ensures r <= |s|
    ensures r < |s| ==> s[r] == c
    ensures forall k :: 0 <= k < r ==> s[k] != c
  {
    if s == [] || s[0] == c then 0 else 1 + IndexOf(s[1..], c)
  }

  /** What stands before the first `.`, or all of `t` when it has none. */
  function IntegerDigits(t: string): string {
    t[..IndexOf(t, '.')]
  }

  /** What stands after the first `.`, or nothing when `t` has none. */
  function FractionDigits(t: string): string {
    var p := IndexOf(t, '.');
    if p < |t| then t[p + 1..] else []
  }

  /** `/^[0-9]*\.?[0-9]{0,6}$/`: digits, at most one `.`, and at most six
      digits after it. */
  predicate MatchesAmount(t: string) {
    AllDigits(IntegerDigits(t)) && AllDigits(FractionDigits(t)) && |FractionDigits(t)| <= 6
  }

  /** Every string of the regular expression's shape matches. */
  lemma AmountIntro(whole: string, hasDot: bool, frac: string)
    requires AllDigits(whole) && AllDigits(frac) && |frac| <= 6
    ensures var t := whole + (if hasDot then "." else "") + frac;
      && MatchesAmount(t)
      && (hasDot ==> IntegerDigits(t) == whole && FractionDigits(t) == frac)
  {
    var t := whole + (if hasDot then "." else "") + frac;
    if hasDot {
      assert t[|whole|] == '.';
      assert IndexOf(t, '.') == |whole|;
      assert IntegerDigits(t) == whole;
      assert FractionDigits(t) == frac;
    } else {
      assert AllDigits(t) by {
        forall k | 0 <= k < |t| ensures IsDigit(t[k]) {
          if k < |whole| { assert t[k] == whole[k]; } else { assert t[k] == frac[k - |whole|]; }
        }
      }
      assert IndexOf(t, '.') == |t|;
      assert IntegerDigits(t) == t;
    }
  }

  /** Every matching string has the regular expression's shape. */
  lemma AmountElim(t: string) returns (whole: string, hasDot: bool, frac: string)
    requires MatchesAmount(t)
    ensures t == whole + (if hasDot then "." else "") + frac
    ensures AllDigits(whole) && AllDigits(frac) && |frac| <= 6
    ensures whole == IntegerDigits(t) && frac == FractionDigits(t)
  {
    var p := IndexOf(t, '.');
    whole, hasDot, frac := IntegerDigits(t), p < |t|, FractionDigits(t);
    if hasDot {
      assert t == t[..p] + "." + t[p + 1..];
    }
  }

  function DigitValue(c: char): nat {
    if IsDigit(c) then (c as int) - ('0' as int) else 0
  }

  /** The value of a string of decimal digits, most significant first. */
  function DigitsValue(s: string): nat {
    if s == [] then 0 else 10 * DigitsValue(s[..|s| - 1]) + DigitValue(s[|s| - 1])
  }

  function Pow10(n: nat): (r: nat)
    ensures r >= 1
  {
    if n == 0 then 1 else 10 * Pow10(n - 1)
  }

  /** A digit string's value is positive exactly when one of its digits is not `0`. */
  lemma {:induction false} DigitsValuePositiveIff(s: string)
    requires AllDigits(s)
    ensures DigitsValue(s) > 0 <==> HasNonZeroDigit(s)
  {
    if s != [] {
      var front := s[..|s| - 1];
      DigitsValuePositiveIff(front);
      if HasNonZeroDigit(front) {
        var i :| 0 <= i < |front| && '1' <= front[i] <= '9';
        assert s[i] == front[i];
      }
      if HasNonZeroDigit(s) && !HasNonZeroDigit(front) {
        var i :| 0 <= i < |s| && '1' <= s[i] <= '9';
      }
    }
  }

  /** Appending digits shifts the value left by their count. */
  lemma {:induction false} DigitsValueAppend(a: string, b: string)
    ensures DigitsValue(a + b) == DigitsValue(a) * Pow10(|b|) + DigitsValue(b)
  {
    if b != [] {
      var c, b' := a + b, b[..|b| - 1];
      assert c[..|c| - 1] == a + b';
      DigitsValueAppend(a, b');
      ShiftStep(DigitsValue(a), Pow10(|b'|), DigitsValue(b'), DigitValue(b[|b| - 1]));
    } else {
      assert a + b == a;
    }
  }

  lemma ShiftStep(x: nat, p: nat, y: nat, d: nat)
    ensures 10 * (x * p + y) + d == x * (10 * p) + (10 * y + d)
  {
  }

  /** A string of `n` digits is worth less than `10^n`. */
  lemma {:induction false} DigitsValueBound(s: string)
    ensures DigitsValue(s) < Pow10(|s|)
  {
    if s != [] {
      DigitsValueBound(s[..|s| - 1]);
    }
  }

  /** 2^1024 - 2^970: `Number.MAX_VALUE` plus half a unit in its last place.
      Round-to-nearest, ties-to-even sends every decimal value at or above it to
      Infinity and every smaller one to a finite binary64 value. */
  const Binary64OverflowBound: nat :=
    179769313486231580793728971405303415079934132710037826936173778980444968292764750946649017977587207096330286416692887910946555547851940402630657488671505820681908902000708383676273854845817711531764475730270069855571366959622842914819860834936475292719074168444365510704342711559699508093042880177904174497792

  /** What `parseFloat` returns: `NaN`, `Infinity`, or a finite number, given by
      the exact decimal value `units / 10^scale` it was rounded from. */
  datatype Number = NaN | Infinity | Finite(units: nat, scale: nat)

  /** `parseFloat` on a string the amount pattern accepts. Such a string is a
      plain decimal literal unless it is `"."` or empty, which parse to `NaN`.
      A positive value of at most six fractional digits is at least 10^-6, far
      above the binary64 underflow range, so rounding keeps its sign and only
      overflow changes the outcome. */
  function ParseAmountLiteral(t: string): Number
    requires MatchesAmount(t)
  {
    var whole, frac := IntegerDigits(t), FractionDigits(t);
    if whole == [] && frac == [] then NaN
    else if DigitsValue(whole) >= Binary64OverflowBound then Infinity
    else Finite(DigitsValue(whole + frac), |frac|)
  }

  /** A finite result is the integer part plus a fraction below one, at the
      scale of the fractional digits. */
  lemma ParseAmountLiteralValue(t: string)
    requires MatchesAmount(t) && ParseAmountLiteral(t).Finite?
    ensures var n := ParseAmountLiteral(t);
      && n.scale == |FractionDigits(t)| <= 6
      && n.units == DigitsValue(IntegerDigits(t)) * Pow10(n.scale) + DigitsValue(FractionDigits(t))
      && DigitsValue(FractionDigits(t)) < Pow10(n.scale)
      && DigitsValue(IntegerDigits(t)) < Binary64OverflowBound
  {
    DigitsValueAppend(IntegerDigits(t), FractionDigits(t));
    DigitsValueBound(FractionDigits(t));
  }

  /** `isValidAmount(amount)`: false on blank input or when the trimmed amount
      misses the pattern, else `isFinite(num) && num > 0` of its `parseFloat`. */
  predicate IsValidAmount(amount: string) {
    var t := Trim(amount);
    && t != []
    && MatchesAmount(t)
    && var n := ParseAmountLiteral(t);
       n.Finite? && n.units > 0
  }

  /** Among strings the pattern accepts, an amount is valid exactly when one of
      its digits is not `0` and its integer part does not overflow binary64. */
  lemma AmountValidIff(amount: string)
    requires MatchesAmount(Trim(amount))
    ensures IsValidAmount(amount) <==>
      HasNonZeroDigit(Trim(amount)) && DigitsValue(IntegerDigits(Trim(amount))) < Binary64OverflowBound
  {
    MatchingAmountPositiveIff(Trim(amount));
  }

  /** On a matching string, the parsed value is finite and positive exactly when
      one of its digits is not `0` and its integer part does not overflow. */
  lemma MatchingAmountPositiveIff(t: string)
    requires MatchesAmount(t)
    ensures var n := ParseAmountLiteral(t);
      (n.Finite? && n.units > 0) <==>
      HasNonZeroDigit(t) && DigitsValue(IntegerDigits(t)) < Binary64OverflowBound
  {
    var whole, hasDot, frac := AmountElim(t);
    DigitsConcat(whole, frac);
    DigitsValuePositiveIff(whole + frac);
    NonZeroDigitIgnoresDot(whole, if hasDot then "." else "", frac);
  }

  lemma DigitsConcat(a: string, b: string)
    requires AllDigits(a) && AllDigits(b)
    ensures AllDigits(a + b)
  {
    forall k | 0 <= k < |a + b| ensures IsDigit((a + b)[k]) {
      if k >= |a| { assert (a + b)[k] == b[k - |a|]; }
    }
  }

  /** A `.` between two digit strings adds no non-zero digit. */
  lemma NonZeroDigitIgnoresDot(whole: string, dot: string, frac: string)
    requires dot == "" || dot == "."
    ensures HasNonZeroDigit(whole + dot + frac) <==> HasNonZeroDigit(whole + frac)
  {
    var t, digits := whole + dot + frac, whole + frac;
    if HasNonZeroDigit(t) {
      var i :| 0 <= i < |t| && '1' <= t[i] <= '9';
      if i < |whole| {
        assert digits[i] == whole[i] == t[i];
      } else {
        assert i >= |whole| + |dot|;
        assert digits[i - |dot|] == frac[i - |whole| - |dot|] == t[i];
      }
    }
    if HasNonZeroDigit(digits) {
      var i :| 0 <= i < |digits| && '1' <= digits[i] <= '9';
      if i < |whole| {
        assert t[i] == whole[i] == digits[i];
      } else {
        assert t[i + |dot|] == frac[i - |whole|] == digits[i];
      }
    }
  }

  /** Amounts with an integer part of at most 308 digits never reach the
      overflow bound, so for them validity is only "some digit is not `0`". */
  lemma AmountValidIffNonZero(amount: string)
    requires MatchesAmount(Trim(amount)) && |IntegerDigits(Trim(amount))| <= 308
    ensures IsValidAmount(amount) <==> HasNonZeroDigit(Trim(amount))
  {
    var whole := IntegerDigits(Trim(amount));
    DigitsValueBound(whole);
    Pow10Monotone(|whole|, 308);
    Pow10At308BelowOverflow();
    AmountValidIff(amount);
  }

  /** 10^308 is below the binary64 overflow bound (about 1.8 * 10^308). */
  lemma Pow10At308BelowOverflow()
    ensures Pow10(308) < Binary64OverflowBound
  {
    assert Pow10(4) == 10000;
    Pow10Add(4, 4);
    assert Pow10(8) == 100000000;
    Pow10Add(8, 8);
    assert Pow10(16) == 10000000000000000;
    Pow10Add(16, 16);
    assert Pow10(32) == 100000000000000000000000000000000;
    Pow10Add(32, 32);
    assert Pow10(64) == 10000000000000000000000000000000000000000000000000000000000000000;
    Pow10Add(64, 64);
    assert Pow10(128) == 100000000000000000000000000000000000000000000000000000000000000000000000000000000000000000000000000000000000000000000000000000000;
    Pow10Add(128, 128);
    assert Pow10(256) == 10000000000000000000000000000000000000000000000000000000000000000000000000000000000000000000000000000000000000000000000000000000000000000000000000000000000000000000000000000000000000000000000000000000000000000000000000000000000000000000000000000000000000000;
    Pow10Add(256, 32);
    assert Pow10(288) == 1000000000000000000000000000000000000000000000000000000000000000000000000000000000000000000000000000000000000000000000000000000000000000000000000000000000000000000000000000000000000000000000000000000000000000000000000000000000000000000000000000000000000000000000000000000000000000000000000;
    Pow10Add(288, 16);
    assert Pow10(304) == 10000000000000000000000000000000000000000000000000000000000000000000000000000000000000000000000000000000000000000000000000000000000000000000000000000000000000000000000000000000000000000000000000000000000000000000000000000000000000000000000000000000000000000000000000000000000000000000000000000000000000000;
    Pow10Add(304, 4);
    assert Pow10(308) == 100000000000000000000000000000000000000000000000000000000000000000000000000000000000000000000000000000000000000000000000000000000000000000000000000000000000000000000000000000000000000000000000000000000000000000000000000000000000000000000000000000000000000000000000000000000000000000000000000000000000000000000;
  }

  lemma {:induction false} Pow10Add(m: nat, n: nat)
    ensures Pow10(m + n) == Pow10(m) * Pow10(n)
  {
    if n > 0 {
      Pow10Add(m, n - 1);
      assert Pow10(m + n) == 10 * (Pow10(m) * Pow10(n - 1));
    }
  }

  lemma {:induction false} Pow10Monotone(m: nat, n: nat)
    requires m <= n
    ensures Pow10(m) <= Pow10(n)
  {
    if m < n {
      Pow10Monotone(m, n - 1);
    }
  }

  /** A valid amount is made of digits and at most one `.`, with at most six
      digits after it. */
  lemma ValidAmountShape(amount: string)
    requires IsValidAmount(amount)
    ensures forall i :: 0 <= i < |Trim(amount)| ==> IsDigit(Trim(amount)[i]) || Trim(amount)[i] == '.'
    ensures multiset(Trim(amount))['.'] <= 1
    ensures |FractionDigits(Trim(amount))| <= 6
  {
    var t := Trim(amount);
    var whole, hasDot, frac := AmountElim(t);
    var dot := if hasDot then "." else "";
    assert t == whole + dot + frac;
    forall i | 0 <= i < |t| ensures IsDigit(t[i]) || t[i] == '.' {
      if i < |whole| {
        assert t[i] == whole[i];
      } else if i >= |whole| + |dot| {
        assert t[i] == frac[i - |whole| - |dot|];
      }
    }
    NoDotInDigits(whole);
    NoDotInDigits(frac);
    assert multiset(t) == multiset(whole) + multiset(dot) + multiset(frac);
  }

  lemma NoDotInDigits(s: string)
    requires AllDigits(s)
    ensures multiset(s)['.'] == 0
  {
    assert '.' !in s;
  }

  /** A blank amount is never valid. */
  lemma BlankAmountRejected(amount: string)
    requires AllWhitespace(amount)
    ensures !IsValidAmount(amount)
  {
    TrimEmptyIffAllWhitespace(amount);
  }

  /** A decimal with a non-zero digit, at most six fractional digits and at
      most 308 integer digits is a valid amount. */
  lemma DecimalAmountValid(whole: string, frac: string)
    requires AllDigits(whole) && AllDigits(frac) && |frac| <= 6 && |whole| <= 308
    requires HasNonZeroDigit(whole + "." + frac)
    ensures IsValidAmount(whole + "." + frac)
  {
    var t := whole + "." + frac;
    assert t[0] == if whole == [] then '.' else whole[0];
    assert t[|t| - 1] == if frac == [] then '.' else frac[|frac| - 1];
    TrimKeepsTrimmed(t);
    AmountIntro(whole, true, frac);
    AmountValidIffNonZero(t);
  }

  /** The value of a valid amount is at least 10^-6: a positive number of
      units at a scale of at most six fractional digits. */
  lemma ValidAmountAtLeastOneMillionth(amount: string)
    requires IsValidAmount(amount)
    ensures var n := ParseAmountLiteral(Trim(amount));
      n.Finite? && n.scale <= 6 && n.units >= 1
  {
    ParseAmountLiteralValue(Trim(amount));
  }

  /** `0.000001`, the least value `ValidAmountAtLeastOneMillionth` allows, is
      valid. The literal comes in through `t`, pinned by the precondition, so
      that the verifier does not unfold the validator on the literal itself,
      which costs far more; no other string meets the precondition. */
  lemma AmountExampleSmallest(t: string)
    requires t == "0.000001"
    ensures IsValidAmount(t)
  {
    assert t == "0" + "." + "000001";
    assert '1' <= t[7] <= '9';
    DecimalAmountValid("0", "000001");
  }

  lemma AmountExampleTrailingDot()
    ensures IsValidAmount("5.")
  {
    var t := "5.";
    TrimKeepsTrimmed(t);
    AmountIntro("5", true, "");
    assert "5" + "." + "" == t;
    assert t[0] == '5';
    AmountValidIffNonZero(t);
  }

  lemma AmountExampleLeadingDot()
    ensures IsValidAmount(".5")
  {
    var t := ".5";
    TrimKeepsTrimmed(t);
    AmountIntro("", true, "5");
    assert "" + "." + "5" == t;
    assert t[1] == '5';
    AmountValidIffNonZero(t);
  }

  lemma AmountExamplePadded()
    ensures IsValidAmount(" 12 ")
  {
    var t := "12";
    TrimRemovesPadding(" ", t, " ");
    assert " " + t + " " == " 12 ";
    assert IntegerDigits(t) == t;
    assert t[0] == '1';
    AmountValidIffNonZero(" 12 ");
  }

  lemma AmountExampleZero()
    ensures !IsValidAmount("0")
  {
    TrimKeepsTrimmed("0");
    assert IntegerDigits("0") == "0";
    AmountValidIffNonZero("0");
  }

  /** A matching amount written with zeros only, such as `0.000000`, is
      rejected, however many zeros it has. */
  lemma ZeroAmountRejected(amount: string)
    requires MatchesAmount(Trim(amount))
    requires forall k :: 0 <= k < |Trim(amount)| ==> Trim(amount)[k] in "0."
    ensures !IsValidAmount(amount)
  {
    AmountValidIff(amount);
  }

  lemma AmountExampleDotOnly()
    ensures !IsValidAmount(".")
  {
    TrimKeepsTrimmed(".");
    AmountIntro("", true, "");
    assert "" + "." + "" == ".";
    AmountValidIffNonZero(".");
  }

  lemma AmountExampleSevenDecimals()
    ensures !IsValidAmount("0.0000001")
  {
    var t := "0.0000001";
    TrimKeepsTrimmed(t);
    assert IndexOf(t, '.') == 1;
    assert FractionDigits(t) == t[2..];
  }

  lemma AmountExampleLetters()
    ensures !IsValidAmount("abc")
  {
    TrimKeepsTrimmed("abc");
    assert IntegerDigits("abc") == "abc";
  }

  lemma AmountExampleNegative()
    ensures !IsValidAmount("-1")
  {
    TrimKeepsTrimmed("-1");
    assert IntegerDigits("-1") == "-1";
  }

  lemma AmountExampleTwoDots()
    ensures !IsValidAmount("1.2.3")
  {
    TrimKeepsTrimmed("1.2.3");
    assert IndexOf("1.2.3", '.') == 1;
    assert FractionDigits("1.2.3") == "2.3";
    assert !IsDigit(FractionDigits("1.2.3")[1]);
  }

  // ---------------------------------------------------------------------------
  // sanitizeInput

  /** The character class `\w`: ASCII letters, digits and `_`. */
  predicate IsWordChar(c: char) {
    'A' <= c <= 'Z' || 'a' <= c <= 'z' || '0' <= c <= '9' || c == '_'
  }

  /** The characters the class `[^\w\s@.:]` does not match, which the sanitiser
      keeps. */
  predicate IsKeptBySanitizer(c: char) {
    IsWordChar(c) || IsWhitespace(c) || c == '@' || c == '.' || c == ':'
  }

  /** `s.replace(/[^\w\s@.:]/g, '')`: delete every character outside the class. */
  function RemoveDisallowed(s: string): string {
    if s == [] then []
    else (if IsKeptBySanitizer(s[0]) then [s[0]] else []) + RemoveDisallowed(s[1..])
  }

  /** `sanitizeInput(input)`: trim, then delete the disallowed characters. */
  function SanitizeInput(input: string): string {
    RemoveDisallowed(Trim(input))
  }

  /** `a` can be obtained from `b` by deleting characters. */
  predicate IsSubsequence(a: string, b: string) {
    if a == [] then true
    else if b == [] then false
    else if a[0] == b[0] then IsSubsequence(a[1..], b[1..])
    else IsSubsequence(a, b[1..])
  }

  /** `RemoveDisallowed` keeps the allowed characters in order and drops the
      rest: its result is a subsequence of `s`, holds only allowed characters,
      and holds each allowed character as often as `s` does. */
  lemma RemoveDisallowedSpec(s: string)
    ensures IsSubsequence(RemoveDisallowed(s), s)
    ensures forall i :: 0 <= i < |RemoveDisallowed(s)| ==> IsKeptBySanitizer(RemoveDisallowed(s)[i])
    ensures forall c :: multiset(RemoveDisallowed(s))[c] == if IsKeptBySanitizer(c) then multiset(s)[c] else 0
  {
    RemoveDisallowedIsSubsequence(s);
    RemoveDisallowedOnlyAllowed(s);
    forall c {
      RemoveDisallowedCount(s, c);
    }
  }

  lemma {:induction false} RemoveDisallowedIsSubsequence(s: string)
    ensures IsSubsequence(RemoveDisallowed(s), s)
  {
    if s != [] {
      var r, r' := RemoveDisallowed(s), RemoveDisallowed(s[1..]);
      RemoveDisallowedIsSubsequence(s[1..]);
      if IsKeptBySanitizer(s[0]) {
        assert r == [s[0]] + r';
        assert r[1..] == r';
      } else {
        assert r == r';
        SubsequenceOfTail(r', s);
      }
    }
  }

  lemma {:induction false} RemoveDisallowedOnlyAllowed(s: string)
    ensures forall i :: 0 <= i < |RemoveDisallowed(s)| ==> IsKeptBySanitizer(RemoveDisallowed(s)[i])
  {
    if s != [] {
      RemoveDisallowedOnlyAllowed(s[1..]);
      var head := if IsKeptBySanitizer(s[0]) then [s[0]] else [];
      forall i | 0 <= i < |RemoveDisallowed(s)| ensures IsKeptBySanitizer(RemoveDisallowed(s)[i]) {
        if i >= |head| {
          assert RemoveDisallowed(s)[i] == RemoveDisallowed(s[1..])[i - |head|];
        }
      }
    }
  }

  lemma {:induction false} RemoveDisallowedCount(s: string, c: char)
    ensures multiset(RemoveDisallowed(s))[c] == if IsKeptBySanitizer(c) then multiset(s)[c] else 0
  {
    if s != [] {
      RemoveDisallowedCount(s[1..], c);
      assert s == [s[0]] + s[1..];
      var head := if IsKeptBySanitizer(s[0]) then [s[0]] else [];
      assert multiset(RemoveDisallowed(s)) == multiset(head) + multiset(RemoveDisallowed(s[1..]));
    }
  }

  /** A subsequence of the tail of `b` is a subsequence of `b`. */
  lemma {:induction false} SubsequenceOfTail(a: string, b: string)
    requires b != [] && IsSubsequence(a, b[1..])
    ensures IsSubsequence(a, b)
    decreases |a| + |b|
  {
    if a != [] && a[0] == b[0] {
      SubsequenceDropHead(a, b[1..]);
    }
  }

  /** Dropping the first character of a subsequence leaves a subsequence. */
  lemma {:induction false} SubsequenceDropHead(a: string, c: string)
    requires a != [] && IsSubsequence(a, c)
    ensures IsSubsequence(a[1..], c)
    decreases |a| + |c|
  {
    if a[0] == c[0] {
      SubsequenceOfTail(a[1..], c);
    } else {
      SubsequenceDropHead(a, c[1..]);
      SubsequenceOfTail(a[1..], c);
    }
  }

  /** A string made only of allowed characters passes through unchanged. */
  lemma {:induction false} RemoveDisallowedKeepsAllowed(s: string)
    requires AllKept(s)
    ensures RemoveDisallowed(s) == s
  {
    if s != [] {
      RemoveDisallowedKeepsAllowed(s[1..]);
    }
  }

  /** The sanitised input is the subsequence of the trimmed input made of exactly
      its allowed characters. */
  lemma SanitizeInputSpec(input: string)
    ensures IsSubsequence(SanitizeInput(input), Trim(input))
    ensures forall i :: 0 <= i < |SanitizeInput(input)| ==> IsKeptBySanitizer(SanitizeInput(input)[i])
    ensures forall c :: multiset(SanitizeInput(input))[c] == if IsKeptBySanitizer(c) then multiset(Trim(input))[c] else 0
  {
    RemoveDisallowedSpec(Trim(input));
  }

  /** Sanitising twice only trims again: the second deletion finds nothing left
      to delete. */
  lemma SanitizeInputTwice(input: string)
    ensures SanitizeInput(SanitizeInput(input)) == Trim(SanitizeInput(input))
  {
    var r := SanitizeInput(input);
    RemoveDisallowedSpec(Trim(input));
    var i, j := TrimIsInnerSlice(r);
    forall k | 0 <= k < |Trim(r)| ensures IsKeptBySanitizer(Trim(r)[k]) {
      assert Trim(r)[k] == r[i + k];
    }
    RemoveDisallowedKeepsAllowed(Trim(r));
  }

  /** `s.replace(/[^\w\s@.:]/g, '')` works character by character, so it
      distributes over concatenation. */
  lemma {:induction false} RemoveDisallowedAppend(a: string, b: string)
    ensures RemoveDisallowed(a + b) == RemoveDisallowed(a) + RemoveDisallowed(b)
  {
    if a != [] {
      assert (a + b)[1..] == a[1..] + b;
      RemoveDisallowedAppend(a[1..], b);
    } else {
      assert a + b == b;
    }
  }

  /** Sanitising is not idempotent: deleting a character can expose whitespace
      at an end, which only the next call trims. For example `"a !"` becomes
      `"a "`, and sanitising that gives `"a"`. */
  lemma SanitizeInputNotIdempotent(text: string, space: char, bad: char)
    requires text != [] && IsTrimmed(text) && AllKept(text)
    requires IsWhitespace(space) && !IsKeptBySanitizer(bad)
    ensures SanitizeInput(text + [space, bad]) == text + [space]
    ensures SanitizeInput(SanitizeInput(text + [space, bad])) == text
  {
    var input := text + [space, bad];
    assert input[0] == text[0];
    TrimKeepsTrimmed(input);
    assert input == (text + [space]) + [bad] + [];
    assert AllKept(text + [space]);
    RemoveDisallowedDropsOne(text + [space], bad, []);
    assert (text + [space]) + [] == text + [space];
    TrimRemovesPadding([], text, [space]);
    assert [] + text + [space] == text + [space];
    RemoveDisallowedKeepsAllowed(text);
  }

  /** The sanitiser deletes the `-` of `sei-wallet`, so it turns a valid e-mail
      recipient into an invalid one. */
  lemma SanitizeInputBreaksSeiWalletKind(local: string, domain: string, tld: string)
    requires local != [] && domain != [] && tld != []
    requires AllWordChars(local) && AllWordChars(domain) && AllWordChars(tld)
    ensures IsValidEmailWalletFormat(EmailWalletLocator(local, domain, tld, "sei-wallet"))
    ensures SanitizeInput(EmailWalletLocator(local, domain, tld, "sei-wallet"))
      == EmailWalletLocator(local, domain, tld, "seiwallet")
    ensures !IsValidEmailWalletFormat(EmailWalletLocator(local, domain, tld, "seiwallet"))
  {
    var before := EmailWalletLocator(local, domain, tld, "sei-wallet");
    EmailWalletIntro(local, domain, tld, "sei-wallet");
    PaddedPatternAccepted([], before, []);
    assert [] + before + [] == before;
    SanitizeInputDropsKindDash(local, domain, tld);
    WordCharsHaveNoLineTerminator(local);
    WordCharsHaveNoLineTerminator(domain);
    WordCharsHaveNoLineTerminator(tld);
    DashlessKindRejected(local, domain, tld);
  }

  /** Of a locator with kind `sei-wallet` and word-character parts, the sanitiser
      deletes only the `-`. */
  lemma SanitizeInputDropsKindDash(local: string, domain: string, tld: string)
    requires AllWordChars(local) && AllWordChars(domain) && AllWordChars(tld)
    ensures SanitizeInput(EmailWalletLocator(local, domain, tld, "sei-wallet"))
      == EmailWalletLocator(local, domain, tld, "seiwallet")
  {
    var m := Mailbox(local, domain, tld);
    var before := EmailWalletLocator(local, domain, tld, "sei-wallet");
    assert before[0] == 'e' && before[|before| - 1] == 't';
    TrimKeepsTrimmed(before);
    MailboxAllKept(local, domain, tld);
    var front := "email:" + m + ":sei";
    assert AllKept(front) by {
      AllKeptConcat("email:", m);
      AllKeptConcat("email:" + m, ":sei");
    }
    assert before == front + ['-'] + "wallet";
    RemoveDisallowedDropsOne(front, '-', "wallet");
    assert front + "wallet" == EmailWalletLocator(local, domain, tld, "seiwallet");
  }

  /** A locator whose kind has lost its `-` matches neither alternative. */
  lemma DashlessKindRejected(local: string, domain: string, tld: string)
    ensures !IsValidEmailWalletFormat(EmailWalletLocator(local, domain, tld, "seiwallet"))
  {
    var t := EmailWalletLocator(local, domain, tld, "seiwallet");
    assert t[0] == 'e' && t[|t| - 1] == 't';
    TrimKeepsTrimmed(t);
    assert t[|t| - 11..][4] == 'i';
    assert t[|t| - 12..][5] == 'i';
  }

  /** One disallowed character between two allowed runs is all that is removed. */
  lemma RemoveDisallowedDropsOne(front: string, c: char, back: string)
    requires AllKept(front) && AllKept(back) && !IsKeptBySanitizer(c)
    ensures RemoveDisallowed(front + [c] + back) == front + back
  {
    assert front + [c] + back == front + ([c] + back);
    RemoveDisallowedAppend(front, [c] + back);
    assert ([c] + back)[1..] == back;
    assert RemoveDisallowed([c] + back) == RemoveDisallowed(back);
    RemoveDisallowedKeepsAllowed(front);
    RemoveDisallowedKeepsAllowed(back);
  }

  predicate AllKept(s: string) {
    forall i :: 0 <= i < |s| ==> IsKeptBySanitizer(s[i])
  }

  predicate AllWordChars(s: string) {
    forall i :: 0 <= i < |s| ==> IsWordChar(s[i])
  }

  lemma WordCharsHaveNoLineTerminator(s: string)
    requires AllWordChars(s)
    ensures HasNoLineTerminator(s)
  {
    forall i | 0 <= i < |s| ensures !IsLineTerminator(s[i]) {
      assert IsWordChar(s[i]);
    }
  }

  lemma AllKeptConcat(a: string, b: string)
    requires AllKept(a) && AllKept(b)
    ensures AllKept(a + b)
  {
    forall k | 0 <= k < |a + b| ensures IsKeptBySanitizer((a + b)[k]) {
      if k >= |a| { assert (a + b)[k] == b[k - |a|]; }
    }
  }

  /** A mailbox built from word characters holds only characters the sanitiser
      keeps and no line terminator. */
  lemma MailboxAllKept(local: string, domain: string, tld: string)
    requires AllWordChars(local) && AllWordChars(domain) && AllWordChars(tld)
    ensures AllKept(Mailbox(local, domain, tld))
  {
    AllKeptConcat(local, "@");
    AllKeptConcat(local + "@", domain);
    AllKeptConcat(local + "@" + domain, ".");
    AllKeptConcat(local + "@" + domain + ".", tld);
  }
}
