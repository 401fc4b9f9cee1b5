/** The string operations the core uses from Ruby's String: Integer#to_s,
    String#to_i on digit strings, gsub with a literal pattern, split on one
    character, strip, and ActiveSupport's blank?. */
module Text {

  predicate IsDigit(c: char) {
    '0' <= c <= '9'
  }

  predicate AllDigits(s: string) {
    forall i :: 0 <= i < |s| ==> IsDigit(s[i])
  }

  function DigitChar(d: nat): (c: char)
    requires d < 10
    ensures IsDigit(c) && c as int - '0' as int == d
  {
    ('0' as int + d) as char
  }

  function DigitValue(c: char): nat
    requires IsDigit(c)
  {
    c as int - '0' as int
  }

  /** Integer#to_s. */
  function IntToString(n: int): string {
    if n < 0 then "-" + NatToString(-n) else NatToString(n)
  }

  /** Integer#to_s for a non-negative integer: its decimal digits, without
      leading zeros. */
  function NatToString(n: nat): (s: string)
    ensures 1 <= |s| && AllDigits(s)
    ensures |s| > 1 ==> s[0] != '0'
  {
    if n < 10 then [DigitChar(n)] else NatToString(n / 10) + [DigitChar(n % 10)]
  }

  /** The value of a string of decimal digits (0 for the empty string). */
  function DecimalValue(s: string): nat
    requires AllDigits(s)
  {
    if s == [] then 0 else DecimalValue(s[..|s| - 1]) * 10 + DigitValue(s[|s| - 1])
  }

  lemma {:induction false} DecimalValueOfNatToString(n: nat)
    ensures DecimalValue(NatToString(n)) == n
  {
    if n >= 10 {
      var s := NatToString(n);
      assert s[..|s| - 1] == NatToString(n / 10);
      DecimalValueOfNatToString(n / 10);
    }
  }

  /** The longest prefix of `s` made of decimal digits. */
  function LeadingDigits(s: string): (p: string)
    ensures AllDigits(p) && |p| <= |s| && p == s[..|p|]
    ensures |p| < |s| ==> !IsDigit(s[|p|])
  {
    if s != [] && IsDigit(s[0]) then [s[0]] + LeadingDigits(s[1..]) else []
  }

  /** String#to_i on a string whose number, if any, is written with plain
      digits at its start: the value of the leading digits, 0 when there are
      none. */
  function ToI(s: string): nat {
    DecimalValue(LeadingDigits(s))
  }

  lemma {:induction false} LeadingDigitsOfDigitsThen(digits: string, rest: string)
    requires AllDigits(digits)
    requires rest == [] || !IsDigit(rest[0])
    ensures LeadingDigits(digits + rest) == digits
  {
    if digits != [] {
      assert (digits + rest)[1..] == digits[1..] + rest;
      LeadingDigitsOfDigitsThen(digits[1..], rest);
    }
  }

  /** Reading back a printed number: to_i undoes to_s, whatever non-digit
      text follows the number. */
  lemma ToIOfNatToString(n: nat, rest: string)
    requires rest == [] || !IsDigit(rest[0])
    ensures ToI(NatToString(n) + rest) == n
  {
    LeadingDigitsOfDigitsThen(NatToString(n), rest);
    DecimalValueOfNatToString(n);
  }

  // ---------------------------------------------------------------------
  // gsub with a literal pattern

  predicate StartsWith(s: string, p: string) {
    |p| <= |s| && s[..|p|] == p
  }

  /** `w` occurs somewhere in `s`. */
  predicate Occurs(w: string, s: string)
    decreases |s|
  {
    StartsWith(s, w) || (|s| > 0 && Occurs(w, s[1..]))
  }

  /** String#gsub with a literal pattern: every occurrence of `pat`, found
      scanning left to right without overlaps, is replaced by `rep`. */
  function ReplaceAll(s: string, pat: string, rep: string): string
    requires |pat| > 0
    decreases |s|
  {
    if |s| == 0 then []
    else if StartsWith(s, pat) then rep + ReplaceAll(s[|pat|..], pat, rep)
    else [s[0]] + ReplaceAll(s[1..], pat, rep)
  }

  /** With a non-empty replacement, `gsub` leaves a text empty exactly when
      it was empty. */
  lemma {:induction false} ReplaceAllEmpty(s: string, pat: string, rep: string)
    requires |pat| > 0 && |rep| > 0
    ensures ReplaceAll(s, pat, rep) == [] <==> s == []
    decreases |s|
  {
    if |s| > 0 {
      if StartsWith(s, pat) {
        assert ReplaceAll(s, pat, rep)[0] == rep[0];
      } else {
        assert ReplaceAll(s, pat, rep)[0] == s[0];
      }
    }
  }

  predicate NoSpace(w: string) {
    forall i :: 0 <= i < |w| ==> w[i] != ' '
  }

  /** A space-free text at the start of a replacement-by-space result was
      already at the start of the input. */
  lemma {:induction false} SpaceFreePrefixComesFromInput(t: string, pat: string, w: string)
    requires |pat| > 0 && NoSpace(w)
    requires StartsWith(ReplaceAll(t, pat, " "), w)
    ensures StartsWith(t, w)
    decreases |t|
  {
    if |w| > 0 {
      var full := ReplaceAll(t, pat, " ");
      assert full[0] == w[0] != ' ';
      // A replacement would put a space first, so the input does not start
      // with the pattern.
      if !StartsWith(t, pat) {
        var r := ReplaceAll(t[1..], pat, " ");
        assert full == [t[0]] + r;
        assert StartsWith(r, w[1..]);
        SpaceFreePrefixComesFromInput(t[1..], pat, w[1..]);
      }
    }
  }

  /** Replacing by a space never creates an occurrence of a space-free text. */
  lemma {:induction false} ReplaceBySpaceCreatesNothing(t: string, pat: string, w: string)
    requires |pat| > 0 && |w| > 0 && NoSpace(w)
    requires Occurs(w, ReplaceAll(t, pat, " "))
    ensures Occurs(w, t)
    decreases |t|
  {
    var r := ReplaceAll(t, pat, " ");
    if StartsWith(r, w) {
      SpaceFreePrefixComesFromInput(t, pat, w);
    } else if StartsWith(t, pat) {
      assert r == " " + ReplaceAll(t[|pat|..], pat, " ");
      assert r[1..] == ReplaceAll(t[|pat|..], pat, " ");
      ReplaceBySpaceCreatesNothing(t[|pat|..], pat, w);
      OccursInSuffix(w, t, |pat|);
    } else {
      assert r[1..] == ReplaceAll(t[1..], pat, " ");
      ReplaceBySpaceCreatesNothing(t[1..], pat, w);
    }
  }

  lemma {:induction false} OccursInSuffix(w: string, t: string, k: nat)
    requires k <= |t| && Occurs(w, t[k..])
    ensures Occurs(w, t)
    decreases k
  {
    if k > 0 {
      assert t[1..][k - 1..] == t[k..];
      OccursInSuffix(w, t[1..], k - 1);
    }
  }

  /** After replacing a space-free pattern by a space, the pattern no longer
      occurs. */
  lemma {:induction false} ReplaceBySpaceRemovesAll(t: string, pat: string)
    requires |pat| > 0 && NoSpace(pat)
    ensures !Occurs(pat, ReplaceAll(t, pat, " "))
    decreases |t|
  {
    if |t| > 0 {
      var r := ReplaceAll(t, pat, " ");
      if StartsWith(t, pat) {
        assert r[0] == ' ' && r[1..] == ReplaceAll(t[|pat|..], pat, " ");
        ReplaceBySpaceRemovesAll(t[|pat|..], pat);
      } else {
        assert r[1..] == ReplaceAll(t[1..], pat, " ");
        ReplaceBySpaceRemovesAll(t[1..], pat);
        if StartsWith(r, pat) {
          SpaceFreePrefixComesFromInput(t, pat, pat);
        }
      }
    }
  }

  /** With no occurrence of the pattern, gsub changes nothing. */
  lemma {:induction false} ReplaceAllWithoutOccurrence(t: string, pat: string, rep: string)
    requires |pat| > 0 && !Occurs(pat, t)
    ensures ReplaceAll(t, pat, rep) == t
    decreases |t|
  {
    if |t| > 0 {
      ReplaceAllWithoutOccurrence(t[1..], pat, rep);
    }
  }

  /** gsub copies text that cannot start the pattern and goes on after it. */
  lemma {:induction false} ReplaceAllSkips(a: string, t: string, pat: string, rep: string)
    requires |pat| > 0
    requires forall i :: 0 <= i < |a| ==> a[i] != pat[0]
    ensures ReplaceAll(a + t, pat, rep) == a + ReplaceAll(t, pat, rep)
    decreases |a|
  {
    if a == [] {
      assert a + t == t;
    } else {
      assert (a + t)[0] == a[0];
      assert !StartsWith(a + t, pat);
      assert (a + t)[1..] == a[1..] + t;
      ReplaceAllSkips(a[1..], t, pat, rep);
    }
  }

  /** gsub replaces an occurrence at the start and goes on after it. */
  lemma ReplaceAllAtPattern(t: string, pat: string, rep: string)
    requires |pat| > 0
    ensures ReplaceAll(pat + t, pat, rep) == rep + ReplaceAll(t, pat, rep)
  {
    assert StartsWith(pat + t, pat);
    assert (pat + t)[|pat|..] == t;
  }

  // ---------------------------------------------------------------------
  // split, strip, blank?, join

  /** Whitespace as String#strip and blank? see it (the ASCII space characters). */
  predicate IsSpace(c: char) {
    c == ' ' || c == '\t' || c == '\n' || c == '\U{0B}' || c == '\U{0C}' || c == '\r'
  }

  /** What String#rstrip removes at the end: white space and also NUL. */
  predicate IsTrailingSpace(c: char) {
    IsSpace(c) || c == '\0'
  }

  /** ActiveSupport's String#blank?: empty or whitespace only. */
  predicate IsBlank(s: string) {
    forall i :: 0 <= i < |s| ==> IsSpace(s[i])
  }

  /** Nothing but characters rstrip removes. */
  predicate IsTrailingBlank(s: string) {
    forall i :: 0 <= i < |s| ==> IsTrailingSpace(s[i])
  }

  /** How many white-space characters `s` starts with. */
  function LeadCount(s: string): (n: nat)
    ensures n <= |s|
    ensures forall k :: 0 <= k < n ==> IsSpace(s[k])
    ensures n < |s| ==> !IsSpace(s[n])
    decreases |s|
  {
    if |s| > 0 && IsSpace(s[0]) then 1 + LeadCount(s[1..]) else 0
  }

  /** How many white-space or NUL characters `s` ends with. */
  function TrailCount(s: string): (n: nat)
    ensures n <= |s|
    ensures forall k :: |s| - n <= k < |s| ==> IsTrailingSpace(s[k])
    ensures n < |s| ==> !IsTrailingSpace(s[|s| - 1 - n])
    decreases |s|
  {
    if |s| > 0 && IsTrailingSpace(s[|s| - 1]) then 1 + TrailCount(s[..|s| - 1]) else 0
  }

  /** String#lstrip: the text after its leading white space. */
  function LStrip(s: string): string {
    s[LeadCount(s)..]
  }

  /** String#rstrip: the text before its trailing white space and NULs. */
  function RStrip(s: string): string {
    s[..|s| - TrailCount(s)]
  }

  /** String#strip: lstrip, then rstrip. */
  function Strip(s: string): string {
    RStrip(LStrip(s))
  }

  /** No white space at the start, and nothing rstrip removes at the end. */
  predicate IsStripped(s: string) {
    s == [] || (!IsSpace(s[0]) && !IsTrailingSpace(s[|s| - 1]))
  }

  /** Stripping keeps a slice of the input that is stripped, and removes only
      white space before it and only white space and NULs after it. So it is
      empty exactly when the input holds nothing else, which a blank input
      does not. */
  lemma StripProperties(s: string)
    ensures IsStripped(Strip(s))
    ensures exists i, j :: 0 <= i <= j <= |s| && Strip(s) == s[i..j] && IsBlank(s[..i]) && IsTrailingBlank(s[j..])
    ensures Strip(s) == [] <==> IsTrailingBlank(s)
    ensures IsBlank(s) ==> Strip(s) == []
  {
    var i, j := StripBounds(s);
    StripIsStripped(s, i, j);
    StripEmptyIffTrailingBlank(s, i, j);
  }

  /** Where the stripped slice starts and ends. */
  lemma StripBounds(s: string) returns (i: nat, j: nat)
    ensures i == LeadCount(s) && i <= j <= |s|
    ensures Strip(s) == s[i..j] && IsBlank(s[..i]) && IsTrailingBlank(s[j..])
    ensures i < j ==> !IsTrailingSpace(s[j - 1])
  {
    i := LeadCount(s);
    var l := s[i..];
    var t := TrailCount(l);
    j := i + |l| - t;
    assert l[..|l| - t] == s[i..j];
    forall k | j <= k < |s|
      ensures IsTrailingSpace(s[k])
    {
      assert s[k] == l[k - i];
    }
    if i < j {
      assert l[|l| - 1 - t] == s[j - 1];
    }
  }

  lemma StripIsStripped(s: string, i: nat, j: nat)
    requires i == LeadCount(s) && i <= j <= |s|
    requires Strip(s) == s[i..j]
    requires i < j ==> !IsTrailingSpace(s[j - 1])
    ensures IsStripped(Strip(s))
  {
    if i < j {
      assert Strip(s)[0] == s[i];
      assert Strip(s)[j - i - 1] == s[j - 1];
    }
  }

  lemma StripEmptyIffTrailingBlank(s: string, i: nat, j: nat)
    requires i <= j <= |s| && Strip(s) == s[i..j]
    requires IsBlank(s[..i]) && IsTrailingBlank(s[j..])
    requires i < j ==> !IsTrailingSpace(s[j - 1])
    ensures Strip(s) == [] <==> IsTrailingBlank(s)
  {
    if i == j {
      forall k | 0 <= k < |s|
        ensures IsTrailingSpace(s[k])
      {
        if k < i {
          assert s[k] == s[..i][k];
        } else {
          assert s[k] == s[j..][k - j];
        }
      }
    } else {
      assert !IsTrailingSpace(s[j - 1]);
    }
  }

  /** A stripped text is its own strip. */
  lemma StripOfStripped(n: string)
    requires IsStripped(n)
    ensures Strip(n) == n
  {
    if n != [] {
      assert LeadCount(n) == 0;
      assert LStrip(n) == n;
      assert TrailCount(n) == 0;
    }
  }

  /** Stripping a stripped text preceded by one space gives the text back. */
  lemma StripAfterSpace(n: string)
    requires IsStripped(n)
    ensures Strip(" " + n) == n
  {
    var s := " " + n;
    assert s[1..] == n;
    assert LeadCount(s) == 1 + LeadCount(n);
    if n != [] {
      assert LeadCount(n) == 0;
      assert TrailCount(n) == 0;
    }
    assert LStrip(s) == n;
  }

  /** String#split with a one-character separator, keeping every field
      (Ruby drops trailing empty fields, which callers here discard anyway). */
  function Split(s: string, sep: char): (fields: seq<string>)
    ensures |fields| >= 1
    ensures forall i :: 0 <= i < |fields| ==> sep !in fields[i]
    decreases |s|
  {
    if |s| == 0 then [""]
    else
      var rest := Split(s[1..], sep);
      if s[0] == sep then [""] + rest else [[s[0]] + rest[0]] + rest[1..]
  }

  /** Array#join. */
  function Join(parts: seq<string>, glue: string): string {
    if |parts| == 0 then ""
    else if |parts| == 1 then parts[0]
    else parts[0] + glue + Join(parts[1..], glue)
  }

  /** A field without the separator, then the separator: split cuts there. */
  lemma {:induction false} SplitAfterField(a: string, sep: char, b: string)
    requires sep !in a
    ensures Split(a + [sep] + b, sep) == [a] + Split(b, sep)
    decreases |a|
  {
    if |a| == 0 {
      assert (a + [sep] + b)[1..] == b;
    } else {
      assert (a + [sep] + b)[1..] == a[1..] + [sep] + b;
      SplitAfterField(a[1..], sep, b);
      assert [a[0]] + a[1..] == a;
    }
  }

  lemma {:induction false} SplitWithoutSeparator(a: string, sep: char)
    requires sep !in a
    ensures Split(a, sep) == [a]
    decreases |a|
  {
    if |a| > 0 {
      SplitWithoutSeparator(a[1..], sep);
      assert [a[0]] + a[1..] == a;
    }
  }
}
