/**
 * String primitives the JavaScript code relies on, over ASCII:
 * `toLowerCase`, `trim`, the regex class `\s`, `includes`, and the decimal
 * rendering of a number inside a template string.
 */
module Text {

  /** A character matched by `\s` and removed by `trim()` (ASCII part). */
  predicate IsSpace(c: char) {
    c == ' ' || c == '\t' || c == '\n' || c == '\r' || c == '\U{B}' || c == '\U{C}'
  }

  predicate IsUpper(c: char) {
    'A' <= c <= 'Z'
  }

  /** `toLowerCase()` on one character: only 'A'..'Z' change. */
  function LowerChar(c: char): (r: char)
    ensures !IsUpper(r)
    ensures !IsUpper(c) ==> r == c
    ensures IsSpace(r) <==> IsSpace(c)
  {
    if IsUpper(c) then (c as int + 32) as char else c
  }

  function Lower(s: string): (r: string)
    ensures |r| == |s|
    ensures forall i :: 0 <= i < |s| ==> r[i] == LowerChar(s[i])
    ensures forall i :: 0 <= i < |r| ==> !IsUpper(r[i])
    ensures forall i :: 0 <= i < |s| && !IsUpper(s[i]) ==> r[i] == s[i]
  {
    seq(|s|, i requires 0 <= i < |s| => LowerChar(s[i]))
  }

  /** A string without upper-case letters is its own lower-case form. */
  lemma LowerNoUpper(s: string)
    requires forall i :: 0 <= i < |s| ==> !IsUpper(s[i])
    ensures Lower(s) == s
  {
  }

  /** Lower-casing twice is lower-casing once. */
  lemma LowerIdempotent(s: string)
    ensures Lower(Lower(s)) == Lower(s)
  {
    LowerNoUpper(Lower(s));
  }

  /**
   * `String.prototype.trim`: drop whitespace from the front, then from the
   * back, until neither end is whitespace.
   */
  function Trim(s: string): string {
    if |s| > 0 && IsSpace(s[0]) then Trim(s[1..])
    else if |s| > 0 && IsSpace(s[|s| - 1]) then Trim(s[..|s| - 1])
    else s
  }

  /** `trim()` leaves no whitespace at either end and returns a slice of its input. */
  lemma {:induction false} TrimEdges(s: string)
    ensures var r := Trim(s); r == [] || (!IsSpace(r[0]) && !IsSpace(r[|r| - 1]))
    ensures exists i :: SliceAt(s, Trim(s), i)
  {
    var r := Trim(s);
    if |s| > 0 && IsSpace(s[0]) {
      TrimEdges(s[1..]);
      var i :| SliceAt(s[1..], r, i);
      assert s[1..][i..i + |r|] == s[i + 1..i + 1 + |r|];
      assert SliceAt(s, r, i + 1);
    } else if |s| > 0 && IsSpace(s[|s| - 1]) {
      TrimEdges(s[..|s| - 1]);
      var i :| SliceAt(s[..|s| - 1], r, i);
      assert s[..|s| - 1][i..i + |r|] == s[i..i + |r|];
      assert SliceAt(s, r, i);
    } else {
      assert SliceAt(s, r, 0);
    }
  }

  predicate NoSpace(s: string) {
    forall i :: 0 <= i < |s| ==> !IsSpace(s[i])
  }

  /** A string with no whitespace at its ends is left as it is by `trim()`. */
  lemma TrimKeeps(s: string)
    requires s == [] || (!IsSpace(s[0]) && !IsSpace(s[|s| - 1]))
    ensures Trim(s) == s
  {
  }

  /** Leading whitespace does not survive `trim()`. */
  lemma {:induction false} TrimLeadingSpace(w: string, s: string)
    requires forall i :: 0 <= i < |w| ==> IsSpace(w[i])
    ensures Trim(w + s) == Trim(s)
  {
    if w != [] {
      assert (w + s)[1..] == w[1..] + s;
      TrimLeadingSpace(w[1..], s);
    } else {
      assert w + s == s;
    }
  }

  /** t occurs in s starting at index i. */
  predicate SliceAt(s: string, t: string, i: int) {
    0 <= i <= |s| - |t| && s[i..i + |t|] == t
  }

  lemma SliceAtShift(s: string, t: string, i: int)
    requires 0 < i && |s| > 0
    ensures SliceAt(s, t, i) <==> SliceAt(s[1..], t, i - 1)
  {
    if 0 < i <= |s| - |t| {
      var a, b := s[i..i + |t|], s[1..][i - 1..i - 1 + |t|];
      assert |a| == |b|;
      assert forall k :: 0 <= k < |a| ==> a[k] == s[i + k] == b[k];
      assert a == b;
    }
  }

  /** `s.includes(t)`: t occurs in s as a contiguous slice. */
  predicate Contains(s: string, t: string)
    decreases |s|
  {
    t <= s || (|s| > 0 && Contains(s[1..], t))
  }

  /** `includes` holds exactly when some slice of s equals t. */
  lemma {:induction false} ContainsIffSlice(s: string, t: string)
    ensures Contains(s, t) <==> exists i :: SliceAt(s, t, i)
  {
    if t <= s {
      assert SliceAt(s, t, 0);
    } else if |s| == 0 {
    } else {
      ContainsIffSlice(s[1..], t);
      if Contains(s[1..], t) {
        var i :| SliceAt(s[1..], t, i);
        SliceAtShift(s, t, i + 1);
      } else {
        forall i | SliceAt(s, t, i)
          ensures false
        {
          if i > 0 {
            SliceAtShift(s, t, i);
          }
        }
      }
    }
  }

  /** Every string includes the empty string. */
  lemma ContainsEmpty(s: string)
    ensures Contains(s, "")
  {
  }

  predicate IsDigit(c: char) {
    '0' <= c <= '9'
  }

  function DigitChar(d: nat): (c: char)
    requires d < 10
    ensures IsDigit(c)
  {
    ('0' as int + d) as char
  }

  /** The decimal rendering of a natural number, as `${n}` produces it. */
  function NatToString(n: nat): (r: string)
    ensures |r| >= 1
    ensures forall i :: 0 <= i < |r| ==> IsDigit(r[i])
    decreases n
  {
    if n < 10 then [DigitChar(n)] else NatToString(n / 10) + [DigitChar(n % 10)]
  }

  function DigitValue(c: char): nat
    requires IsDigit(c)
  {
    c as int - '0' as int
  }

  /** Reads a string of decimal digits back as a number. */
  function ParseNat(s: string): nat
    requires forall i :: 0 <= i < |s| ==> IsDigit(s[i])
  {
    if s == [] then 0 else ParseNat(s[..|s| - 1]) * 10 + DigitValue(s[|s| - 1])
  }

  /** Decimal rendering loses nothing: reading it back gives the number. */
  lemma {:induction false} ParseNatToString(n: nat)
    ensures ParseNat(NatToString(n)) == n
    decreases n
  {
    var s := NatToString(n);
    if n >= 10 {
      ParseNatToString(n / 10);
      assert s[..|s| - 1] == NatToString(n / 10);
    }
  }

  /** Different numbers render differently. */
  lemma NatToStringInjective(a: nat, b: nat)
    requires NatToString(a) == NatToString(b)
    ensures a == b
  {
    ParseNatToString(a);
    ParseNatToString(b);
  }
}
