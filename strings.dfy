/** String helpers shared by the forms and the board: the character classes of
    JavaScript regular expressions and of String.prototype.trim, a lower-casing
    of the letters candidates' names use, and substring search. */
module Strings {

  /** `\d` of a JavaScript regular expression without the `u` flag. */
  predicate IsDigit(c: char) {
    '0' <= c <= '9'
  }

  predicate AllDigits(s: string) {
    forall i :: 0 <= i < |s| ==> IsDigit(s[i])
  }

  /** The value of a decimal digit. */
  function DigitValue(c: char): (v: nat)
    requires IsDigit(c)
    ensures v < 10
  {
    (c as int) - ('0' as int)
  }

  /** The digit character of a value below ten. */
  function DigitChar(v: nat): (c: char)
    requires v < 10
    ensures IsDigit(c) && DigitValue(c) == v
  {
    (('0' as int) + v) as char
  }

  /** `s.replace(/\D/g, "")`: every non-digit removed, the digits kept in order. */
  function Digits(s: string): (d: string)
    ensures AllDigits(d)
    ensures |d| <= |s|
    ensures AllDigits(s) ==> d == s
  {
    if s == [] then [] else (if IsDigit(s[0]) then [s[0]] else []) + Digits(s[1..])
  }

  /** Every digit of `s` survives as often as it occurs, and nothing else does. */
  lemma {:induction false} DigitsKeepsDigitCounts(s: string)
    ensures forall c :: multiset(Digits(s))[c] == (if IsDigit(c) then multiset(s)[c] else 0)
  {
    if s != [] {
      assert s == [s[0]] + s[1..];
      DigitsKeepsDigitCounts(s[1..]);
    }
  }

  lemma {:induction false} DigitsConcat(a: string, b: string)
    ensures Digits(a + b) == Digits(a) + Digits(b)
  {
    if a == [] {
      assert a + b == b;
    } else {
      assert (a + b)[0] == a[0];
      assert (a + b)[1..] == a[1..] + b;
      DigitsConcat(a[1..], b);
    }
  }

  /** Digits of a string that holds no digit at all. */
  lemma {:induction false} DigitsOfNonDigits(s: string)
    requires forall i :: 0 <= i < |s| ==> !IsDigit(s[i])
    ensures Digits(s) == []
  {
    if s != [] {
      DigitsOfNonDigits(s[1..]);
    }
  }

  /** The white space and line terminators that String.prototype.trim removes. */
  predicate IsJsSpace(c: char) {
    c == ' ' || c == '\t' || c == '\n' || c == '\r' || c == '\U{B}' || c == '\U{C}'
    || c == '\U{A0}' || c == '\U{1680}' || ('\U{2000}' <= c <= '\U{200A}')
    || c == '\U{2028}' || c == '\U{2029}' || c == '\U{202F}' || c == '\U{205F}'
    || c == '\U{3000}' || c == '\U{FEFF}'
  }

  /** Length of the run of white space at the front of `s`. */
  function LeadingSpace(s: string): (n: nat)
    ensures n <= |s|
    ensures forall i :: 0 <= i < n ==> IsJsSpace(s[i])
    ensures n < |s| ==> !IsJsSpace(s[n])
  {
    if s == [] || !IsJsSpace(s[0]) then 0 else 1 + LeadingSpace(s[1..])
  }

  /** Length of `s` without the run of white space at its end. */
  function TrailingCut(s: string): (n: nat)
    ensures n <= |s|
    ensures forall i :: n <= i < |s| ==> IsJsSpace(s[i])
    ensures n > 0 ==> !IsJsSpace(s[n - 1])
  {
    if s == [] || !IsJsSpace(s[|s| - 1]) then |s| else TrailingCut(s[..|s| - 1])
  }

  /** String.prototype.trim: the slice of `s` between its leading and trailing
      white space. */
  function Trim(s: string): (r: string)
    ensures exists i, j :: (0 <= i <= j <= |s| && r == s[i..j]
                            && (forall k :: 0 <= k < i ==> IsJsSpace(s[k]))
                            && (forall k :: j <= k < |s| ==> IsJsSpace(s[k])))
    ensures r != [] ==> !IsJsSpace(r[0]) && !IsJsSpace(r[|r| - 1])
  {
    var i := LeadingSpace(s);
    var t := s[i..];
    var j := TrailingCut(t);
    assert t[..j] == s[i..i + j];
    s[i..i + j]
  }

  /** Trimming a string that starts with `p`, whose first and last characters
      are not white space, keeps `p` at its front; when only white space
      follows `p`, the result is `p` itself. */
  lemma TrimAfter(p: string, q: string)
    requires |p| > 0 && !IsJsSpace(p[0]) && !IsJsSpace(p[|p| - 1])
    ensures p <= Trim(p + q)
    ensures (forall k :: 0 <= k < |q| ==> IsJsSpace(q[k])) ==> Trim(p + q) == p
  {
    var s := p + q;
    var r := Trim(s);
    var i, j :| 0 <= i <= j <= |s| && r == s[i..j]
                && (forall k :: 0 <= k < i ==> IsJsSpace(s[k]))
                && (forall k :: j <= k < |s| ==> IsJsSpace(s[k]));
    assert s[0] == p[0];
    assert s[|p| - 1] == p[|p| - 1];
    assert i == 0;
    assert j >= |p|;
    assert r[..|p|] == p;
  }

  /** The letters String.prototype.toLowerCase maps that candidates' names use:
      A-Z and the Latin-1 capitals U+00C0..U+00DE except the multiplication sign. */
  function LowerChar(c: char): (r: char)
    ensures ('A' <= c <= 'Z') ==> r == ((c as int) + 32) as char
    ensures ('\U{C0}' <= c <= '\U{DE}' && c != '\U{D7}') ==> r == ((c as int) + 32) as char
    ensures c == '\U{D7}' ==> r == c
    ensures !('A' <= c <= 'Z') && !('\U{C0}' <= c <= '\U{DE}') ==> r == c
  {
    if 'A' <= c <= 'Z' || ('\U{C0}' <= c <= '\U{DE}' && c != '\U{D7}') then ((c as int) + 32) as char else c
  }

  function Lower(s: string): (r: string)
    ensures |r| == |s|
    ensures forall i :: 0 <= i < |s| ==> r[i] == LowerChar(s[i])
  {
    if s == [] then [] else [LowerChar(s[0])] + Lower(s[1..])
  }

  /** String.prototype.includes: `t` occurs in `s` at some offset. */
  predicate Contains(s: string, t: string) {
    t <= s || (s != [] && Contains(s[1..], t))
  }

  /** `t` occurs in `s` at offset `i`. */
  predicate OccursAt(s: string, t: string, i: int) {
    0 <= i <= |s| - |t| && s[i..i + |t|] == t
  }

  /** An occurrence past the first letter is an occurrence in the rest. */
  lemma OccursShift(s: string, t: string, i: nat)
    requires s != []
    ensures OccursAt(s, t, i + 1) <==> OccursAt(s[1..], t, i)
  {
    if 0 <= i <= |s| - 1 - |t| {
      assert s[i + 1..i + 1 + |t|] == s[1..][i..i + |t|];
    }
  }

  /** Contains agrees with the offset-based reading of `includes`. */
  lemma {:induction false} ContainsAt(s: string, t: string)
    ensures Contains(s, t) <==> exists i :: OccursAt(s, t, i)
  {
    if t <= s {
      assert OccursAt(s, t, 0);
    } else if s == [] {
    } else {
      ContainsAt(s[1..], t);
      if exists i :: OccursAt(s, t, i) {
        var i :| OccursAt(s, t, i);
        assert i != 0;
        assert OccursAt(s[1..], t, i - 1) by { OccursShift(s, t, i - 1); }
      }
      if exists i :: OccursAt(s[1..], t, i) {
        var i :| OccursAt(s[1..], t, i);
        assert OccursAt(s, t, i + 1) by { OccursShift(s, t, i); }
      }
    }
  }
}
