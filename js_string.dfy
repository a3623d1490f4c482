/** The ECMAScript string primitives that lib/utils.ts builds on:
    the WhiteSpace and LineTerminator code points (what `String.prototype.trim`
    strips and what the regular-expression escape `\s` matches, and what `.`
    refuses), `trim` itself, and the index arithmetic of `String.prototype.slice`.
    A string is a sequence of Unicode scalar values. */
module JsString {

  /** LineTerminator: LF, CR, LINE SEPARATOR, PARAGRAPH SEPARATOR. A regex `.`
      without the `s` flag matches every character except these. */
  predicate IsLineTerminator(c: char) {
    c == '\n' || c == '\r' || c == '\U{2028}' || c == '\U{2029}'
  }

  /** WhiteSpace (TAB, VT, FF, SPACE, NBSP, ZWNBSP and the Zs category) or a
      LineTerminator: the set `trim` strips and `\s` matches. */
  predicate IsWhitespace(c: char) {
    IsLineTerminator(c)
    || c == '\t' || c == '\U{000B}' || c == '\U{000C}' || c == ' '
    || c == '\U{00A0}' || c == '\U{FEFF}'
    || c == '\U{1680}' || ('\U{2000}' <= c <= '\U{200A}')
    || c == '\U{202F}' || c == '\U{205F}' || c == '\U{3000}'
  }

  predicate AllWhitespace(s: string) {
    forall i :: 0 <= i < |s| ==> IsWhitespace(s[i])
  }

  /** Neither end of `s` is whitespace (vacuously true of the empty string). */
  predicate IsTrimmed(s: string) {
    s == [] || (!IsWhitespace(s[0]) && !IsWhitespace(s[|s| - 1]))
  }

  function TrimStart(s: string): string {
    if |s| > 0 && IsWhitespace(s[0]) then TrimStart(s[1..]) else s
  }

  function TrimEnd(s: string): string {
    if |s| > 0 && IsWhitespace(s[|s| - 1]) then TrimEnd(s[..|s| - 1]) else s
  }

  /** `String.prototype.trim`: strip whitespace from both ends. */
  function Trim(s: string): string {
    TrimEnd(TrimStart(s))
  }

  /** `TrimStart(s)` drops exactly the leading run of whitespace. */
  lemma {:induction false} TrimStartDropsLeadingRun(s: string) returns (i: nat)
    ensures i <= |s| && TrimStart(s) == s[i..]
    ensures forall k :: 0 <= k < i ==> IsWhitespace(s[k])
    ensures i < |s| ==> !IsWhitespace(s[i])
  {
    if |s| > 0 && IsWhitespace(s[0]) {
      var i' := TrimStartDropsLeadingRun(s[1..]);
      i := i' + 1;
      assert s[1..][i'..] == s[i..];
      forall k | 0 <= k < i ensures IsWhitespace(s[k]) {
        if k > 0 { assert s[k] == s[1..][k - 1]; }
      }
    } else {
      i := 0;
    }
  }

  /** `TrimEnd(s)` drops exactly the trailing run of whitespace. */
  lemma {:induction false} TrimEndDropsTrailingRun(s: string) returns (j: nat)
    ensures j <= |s| && TrimEnd(s) == s[..j]
    ensures forall k :: j <= k < |s| ==> IsWhitespace(s[k])
    ensures j > 0 ==> !IsWhitespace(s[j - 1])
  {
    if |s| > 0 && IsWhitespace(s[|s| - 1]) {
      var front := s[..|s| - 1];
      j := TrimEndDropsTrailingRun(front);
      assert front[..j] == s[..j];
      forall k | j <= k < |s| ensures IsWhitespace(s[k]) {
        if k < |s| - 1 { assert s[k] == front[k]; }
      }
    } else {
      j := |s|;
    }
  }

  /** `Trim(s)` is the slice `s[i..j]` left after removing the leading and the
      trailing run of whitespace; when nothing is left, all of `s` was whitespace. */
  lemma TrimIsInnerSlice(s: string) returns (i: nat, j: nat)
    ensures i <= j <= |s| && Trim(s) == s[i..j]
    ensures forall k :: 0 <= k < i ==> IsWhitespace(s[k])
    ensures forall k :: j <= k < |s| ==> IsWhitespace(s[k])
    ensures IsTrimmed(Trim(s))
  {
    i := TrimStartDropsLeadingRun(s);
    var rest := s[i..];
    var j' := TrimEndDropsTrailingRun(rest);
    j := i + j';
    assert rest[..j'] == s[i..j];
    forall k | j <= k < |s| ensures IsWhitespace(s[k]) {
      assert s[k] == rest[k - i];
    }
    if i < j {
      assert s[i..j][0] == rest[0];
    }
  }

  /** `trim` yields the empty string exactly on whitespace-only input. */
  lemma TrimEmptyIffAllWhitespace(s: string)
    ensures Trim(s) == [] <==> AllWhitespace(s)
  {
    var i, j := TrimIsInnerSlice(s);
    if Trim(s) == [] {
      assert i == j;
    } else {
      assert !IsWhitespace(s[i]);
    }
  }

  /** Whitespace padding around a trimmed string is exactly what `trim` removes. */
  lemma TrimRemovesPadding(left: string, t: string, right: string)
    requires AllWhitespace(left) && AllWhitespace(right) && IsTrimmed(t)
    ensures Trim(left + t + right) == t
  {
    var s := left + t + right;
    var i, j := TrimIsInnerSlice(s);
    if t == [] {
      assert AllWhitespace(s) by {
        forall k | 0 <= k < |s| ensures IsWhitespace(s[k]) {
          if k < |left| { assert s[k] == left[k]; } else { assert s[k] == right[k - |left|]; }
        }
      }
      TrimEmptyIffAllWhitespace(s);
    } else {
      assert s[|left|] == t[0];
      assert s[|left| + |t| - 1] == t[|t| - 1];
      assert i == |left| && j == |left| + |t|;
      assert s[i..j] == t;
    }
  }

  /** A string with no whitespace at either end is its own trim. */
  lemma TrimKeepsTrimmed(s: string)
    requires IsTrimmed(s)
    ensures Trim(s) == s
  {
    TrimRemovesPadding([], s, []);
    assert [] + s + [] == s;
  }

  /** `trim` is idempotent. */
  lemma TrimIdempotent(s: string)
    ensures Trim(Trim(s)) == Trim(s)
  {
    var _, _ := TrimIsInnerSlice(s);
    TrimRemovesPadding([], Trim(s), []);
    assert [] + Trim(s) + [] == Trim(s);
  }

  /** The index normalisation of `String.prototype.slice` for an integral
      position: a negative position counts back from the end, and the result is
      clamped to `[0, len]`. */
  function RelativeIndex(pos: int, len: nat): (r: nat)
    ensures r <= len
  {
    if pos < 0 then (if len + pos < 0 then 0 else len + pos)
    else if pos > len then len
    else pos
  }

  /** `s.slice(start, end)`: empty when the normalised start is not before the
      normalised end. */
  function Slice(s: string, start: int, end: int): string {
    var from, to := RelativeIndex(start, |s|), RelativeIndex(end, |s|);
    if from < to then s[from..to] else []
  }

  /** `s.slice(start)`: the end defaults to the length of `s`. */
  function SliceFrom(s: string, start: int): string {
    Slice(s, start, |s|)
  }

  /** `s.slice(-n)` for `0 < n <= |s|` is the last `n` characters, while
      `s.slice(-0)` is the whole string. */
  lemma SliceFromNegative(s: string, n: int)
    requires 0 <= n <= |s|
    ensures SliceFrom(s, -n) == if n == 0 then s else s[|s| - n..]
  {
  }
}
