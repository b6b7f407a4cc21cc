/** Character classes and whole-string operations shared by the reply parser:
    JavaScript's whitespace set, `String.prototype.trim`, decimal digit runs and
    ASCII lower-casing. Strings are sequences of Unicode scalar values. */
module Text {

  /** The characters JavaScript's `\s` matches and `trim` strips: the WhiteSpace
      and LineTerminator code points of the ECMAScript standard. */
  predicate IsSpace(c: char) {
    var n := c as int;
    n == 0x09 || n == 0x0A || n == 0x0B || n == 0x0C || n == 0x0D || n == 0x20
    || n == 0xA0 || n == 0x1680 || (0x2000 <= n <= 0x200A) || n == 0x2028
    || n == 0x2029 || n == 0x202F || n == 0x205F || n == 0x3000 || n == 0xFEFF
  }

  /** What JavaScript's `\d` matches (no `u` flag): the ASCII digits. */
  predicate IsDigit(c: char) {
    '0' <= c <= '9'
  }

  predicate AllSpace(s: string) {
    forall i :: 0 <= i < |s| ==> IsSpace(s[i])
  }

  predicate AllDigits(s: string) {
    forall i :: 0 <= i < |s| ==> IsDigit(s[i])
  }

  /** `pat` occurs in `s` starting at index `i`. */
  predicate StartsAt(s: string, pat: string, i: nat) {
    i + |pat| <= |s| && s[i..i + |pat|] == pat
  }

  /** `s.includes(pat)`, stated as the existence of a position. */
  ghost predicate Occurs(s: string, pat: string) {
    exists i: nat :: StartsAt(s, pat, i)
  }

  /** `b` is where the first occurrence of `pat` at or after index `e` starts. */
  ghost predicate FirstOccurrenceFrom(s: string, pat: string, e: nat, b: nat) {
    e <= b && StartsAt(s, pat, b) && forall i :: e <= i < b ==> !StartsAt(s, pat, i)
  }

  /** `pat` does not occur at or after index `e`. */
  ghost predicate NoOccurrenceFrom(s: string, pat: string, e: nat) {
    forall i: nat :: e <= i ==> !StartsAt(s, pat, i)
  }

  /** `p` is where the first occurrence of `pat` in `s` starts. */
  ghost predicate FirstOccurrence(s: string, pat: string, p: nat) {
    FirstOccurrenceFrom(s, pat, 0, p)
  }

  /** `b` is where the next occurrence of `pat` after the one at `a` starts. */
  ghost predicate NextOccurrence(s: string, pat: string, a: nat, b: nat) {
    FirstOccurrenceFrom(s, pat, a + |pat|, b)
  }

  /** Nothing of `pat` occurs after the occurrence at `a`. */
  ghost predicate LastOccurrence(s: string, pat: string, a: nat) {
    NoOccurrenceFrom(s, pat, a + |pat|)
  }

  lemma FirstOccurrenceIsUnique(s: string, pat: string, p1: nat, p2: nat)
    requires FirstOccurrence(s, pat, p1) && FirstOccurrence(s, pat, p2)
    ensures p1 == p2
  {
  }

  /** `s` has no leading or trailing whitespace. */
  predicate Unpadded(s: string) {
    s == [] || (!IsSpace(s[0]) && !IsSpace(s[|s| - 1]))
  }

  // ---------------------------------------------------------------- trim

  /** Drops the leading whitespace: the result is the longest suffix of `s`
      that does not start with whitespace. */
  function TrimStart(s: string): (r: string)
    ensures |r| <= |s| && r == s[|s| - |r|..]
    ensures AllSpace(s[..|s| - |r|])
    ensures r == [] || !IsSpace(r[0])
    decreases |s|
  {
    if |s| > 0 && IsSpace(s[0]) then
      var r := TrimStart(s[1..]);
      assert s[..|s| - |r|] == [s[0]] + s[1..][..|s| - 1 - |r|];
      r
    else
      s
  }

  /** Drops the trailing whitespace: the result is the longest prefix of `s`
      that does not end with whitespace. */
  function TrimEnd(s: string): (r: string)
    ensures |r| <= |s| && r == s[..|r|]
    ensures AllSpace(s[|r|..])
    ensures r == [] || !IsSpace(r[|r| - 1])
    decreases |s|
  {
    if |s| > 0 && IsSpace(s[|s| - 1]) then
      var r := TrimEnd(s[..|s| - 1]);
      assert s[|r|..] == s[..|s| - 1][|r|..] + [s[|s| - 1]];
      r
    else
      s
  }

  /** `r` is the slice of `s` starting at `a`, unpadded, with only whitespace around it. */
  predicate IsTrimmingAt(s: string, r: string, a: nat) {
    a + |r| <= |s| && r == s[a..a + |r|] && AllSpace(s[..a]) && AllSpace(s[a + |r|..])
    && Unpadded(r)
  }

  /** `r` is what is left of `s` once its whitespace margins are cut off. */
  ghost predicate IsTrimmingOf(s: string, r: string) {
    exists a: nat :: IsTrimmingAt(s, r, a)
  }

  lemma TrimmingOfSuffix(s: string, t: string, r: string)
    requires |t| <= |s| && t == s[|s| - |t|..] && AllSpace(s[..|s| - |t|])
    requires |r| <= |t| && r == t[..|r|] && AllSpace(t[|r|..]) && Unpadded(r)
    ensures IsTrimmingAt(s, r, |s| - |t|)
  {
    var a := |s| - |t|;
    assert r == s[a..a + |r|];
    assert s[a + |r|..] == t[|r|..];
  }

  /** `String.prototype.trim`. */
  function Trim(s: string): (r: string)
    ensures Unpadded(r)
    ensures IsTrimmingAt(s, r, |s| - |TrimStart(s)|)
  {
    var t := TrimStart(s);
    var r := TrimEnd(t);
    TrimmingOfSuffix(s, t, r);
    r
  }

  lemma AllSpaceConcat(x: string, y: string)
    requires AllSpace(x) && AllSpace(y)
    ensures AllSpace(x + y)
  {
    forall i | 0 <= i < |x + y|
      ensures IsSpace((x + y)[i])
    {
      if i < |x| { assert (x + y)[i] == x[i]; } else { assert (x + y)[i] == y[i - |x|]; }
    }
  }

  /** A non-whitespace character lies at or beyond the end of any all-whitespace prefix. */
  lemma BeyondSpacePrefix(s: string, n: nat, i: nat)
    requires n <= |s| && AllSpace(s[..n]) && i < |s| && !IsSpace(s[i])
    ensures n <= i
  {
  }

  /** A non-whitespace character lies before the start of any all-whitespace suffix. */
  lemma BeforeSpaceSuffix(s: string, n: nat, i: nat)
    requires n <= |s| && AllSpace(s[n..]) && i < |s| && !IsSpace(s[i])
    ensures i < n
  {
  }

  /** Only one string can be a trimming of `s`, so `IsTrimmingOf` is a complete
      definition of what `trim` returns. */
  lemma TrimmingIsUnique(s: string, r1: string, a1: nat, r2: string, a2: nat)
    requires IsTrimmingAt(s, r1, a1) && IsTrimmingAt(s, r2, a2)
    ensures r1 == r2
  {
    if r1 != [] && r2 != [] {
      assert s[a1] == r1[0] && s[a2] == r2[0];
      BeyondSpacePrefix(s, a2, a1);
      BeyondSpacePrefix(s, a1, a2);
      var e1, e2 := a1 + |r1|, a2 + |r2|;
      assert s[e1 - 1] == r1[|r1| - 1] && s[e2 - 1] == r2[|r2| - 1];
      BeforeSpaceSuffix(s, e2, e1 - 1);
      BeforeSpaceSuffix(s, e1, e2 - 1);
    } else if r1 != [] {
      assert s[a1] == r1[0];
      BeyondSpacePrefix(s, a2, a1);
      BeforeSpaceSuffix(s, a2, a1);
    } else if r2 != [] {
      assert s[a2] == r2[0];
      BeyondSpacePrefix(s, a1, a2);
      BeforeSpaceSuffix(s, a1, a2);
    }
  }

  lemma TrimmingIsTrim(s: string, r: string)
    requires IsTrimmingOf(s, r)
    ensures Trim(s) == r
  {
    var a: nat :| IsTrimmingAt(s, r, a);
    TrimmingAtIsTrim(s, r, a);
  }

  lemma TrimmingAtIsTrim(s: string, r: string, a: nat)
    requires IsTrimmingAt(s, r, a)
    ensures Trim(s) == r
  {
    TrimmingIsUnique(s, r, a, Trim(s), |s| - |TrimStart(s)|);
  }

  /** Trimming an unpadded string changes nothing. */
  lemma TrimUnpadded(s: string)
    requires Unpadded(s)
    ensures Trim(s) == s
  {
    assert s[0..0 + |s|] == s;
    assert IsTrimmingAt(s, s, 0);
    TrimmingAtIsTrim(s, s, 0);
  }

  /** `trim` is idempotent. */
  lemma TrimIdempotent(s: string)
    ensures Trim(Trim(s)) == Trim(s)
  {
    TrimUnpadded(Trim(s));
  }

  lemma TrimmingPadded(pre: string, s: string, post: string, r: string, a: nat)
    requires AllSpace(pre) && AllSpace(post) && IsTrimmingAt(s, r, a)
    ensures IsTrimmingAt(pre + s + post, r, |pre| + a)
  {
    var t := pre + s + post;
    var b := |pre| + a;
    assert t[b..b + |r|] == s[a..a + |r|];
    assert t[..b] == pre + s[..a];
    AllSpaceConcat(pre, s[..a]);
    assert t[b + |r|..] == s[a + |r|..] + post;
    AllSpaceConcat(s[a + |r|..], post);
  }

  /** Whitespace added around a string does not survive `trim`. */
  lemma TrimPadded(pre: string, s: string, post: string)
    requires AllSpace(pre) && AllSpace(post)
    ensures Trim(pre + s + post) == Trim(s)
  {
    TrimPaddedAt(pre, s, post, Trim(s), |s| - |TrimStart(s)|);
  }

  /** Whitespace in front of an unpadded string does not survive `trim`. */
  lemma TrimAfterSpace(pre: string, s: string)
    requires AllSpace(pre) && Unpadded(s)
    ensures Trim(pre + s) == s
  {
    assert s[0..0 + |s|] == s;
    assert IsTrimmingAt(s, s, 0);
    TrimPaddedAt(pre, s, "", s, 0);
    assert pre + s + "" == pre + s;
  }

  lemma TrimPaddedAt(pre: string, s: string, post: string, r: string, a: nat)
    requires AllSpace(pre) && AllSpace(post) && IsTrimmingAt(s, r, a)
    ensures Trim(pre + s + post) == r
  {
    TrimmingPadded(pre, s, post, r, a);
    TrimmingAtIsTrim(pre + s + post, r, |pre| + a);
  }

  /** A string is its three consecutive slices put back together. */
  lemma SliceThree(s: string, q: nat, e: nat)
    requires q <= e <= |s|
    ensures s[..q] + s[q..e] + s[e..] == s
  {
  }

  // ------------------------------------------------------------- decimals

  function DigitValue(c: char): nat
    requires IsDigit(c)
  {
    c as int - '0' as int
  }

  function DigitChar(d: nat): (c: char)
    requires d < 10
    ensures IsDigit(c) && DigitValue(c) == d
  {
    ('0' as int + d) as char
  }

  /** `parseInt(ds, 10)` on a run of ASCII digits, with no precision limit. */
  function DecimalValue(ds: string): (n: nat)
    requires AllDigits(ds)
    ensures n < Pow10(|ds|)
    decreases |ds|
  {
    if ds == [] then 0
    else 10 * DecimalValue(ds[..|ds| - 1]) + DigitValue(ds[|ds| - 1])
  }

  function Pow10(k: nat): (p: nat)
    ensures p >= 1
  {
    if k == 0 then 1 else 10 * Pow10(k - 1)
  }

  /** A leading zero does not change the value: `parseInt("04", 10)` is 4. */
  lemma {:induction false} DecimalLeadingZero(ds: string)
    requires AllDigits(ds)
    ensures AllDigits("0" + ds) && DecimalValue("0" + ds) == DecimalValue(ds)
    decreases |ds|
  {
    var z := "0" + ds;
    assert AllDigits(z) by {
      forall i | 0 <= i < |z| ensures IsDigit(z[i]) {
        if i > 0 { assert z[i] == ds[i - 1]; }
      }
    }
    if ds != [] {
      assert z[..|z| - 1] == "0" + ds[..|ds| - 1];
      assert z[|z| - 1] == ds[|ds| - 1];
      DecimalLeadingZero(ds[..|ds| - 1]);
    }
  }

  /** The shortest decimal numeral of `n` (what `String(n)` gives for a safe integer). */
  function DecimalString(n: nat): (ds: string)
    ensures |ds| > 0 && AllDigits(ds)
    decreases n
  {
    if n < 10 then [DigitChar(n)] else DecimalString(n / 10) + [DigitChar(n % 10)]
  }

  /** Reading back a written numeral gives the number. */
  lemma {:induction false} DecimalRoundTrip(n: nat)
    ensures DecimalValue(DecimalString(n)) == n
    decreases n
  {
    var ds := DecimalString(n);
    if n < 10 {
      assert ds[..0] == [];
    } else {
      assert ds[..|ds| - 1] == DecimalString(n / 10);
      DecimalRoundTrip(n / 10);
    }
  }

  // ------------------------------------------------------------ ASCII case

  function LowerAscii(c: char): char {
    if 'A' <= c <= 'Z' then (c as int + 32) as char else c
  }

  /** Lower-cases the ASCII letters of `s` and leaves every other character alone. */
  function ToLowerAscii(s: string): (r: string)
    ensures |r| == |s|
    ensures forall i :: 0 <= i < |s| ==> r[i] == LowerAscii(s[i])
  {
    seq(|s|, i requires 0 <= i < |s| => LowerAscii(s[i]))
  }

  /** `a` and `b` are equal once ASCII case is ignored. */
  predicate EqualsIgnoringAsciiCase(a: string, b: string) {
    |a| == |b| && forall i :: 0 <= i < |a| ==> LowerAscii(a[i]) == LowerAscii(b[i])
  }
}
