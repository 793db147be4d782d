/**
 * The handful of Python string operations the model needs, written out over
 * `seq<char>`: decimal formatting (`str(n)`, `f"{n:0Wd}"`), `int(...)` on a run of
 * ASCII digits, substring search (`x in s`), `str.replace`, `str.split` and
 * `str.join` on a one-character separator, and `str.strip` on whitespace.
 */
module Text {
  predicate IsDigit(c: char) { '0' <= c <= '9' }

  predicate AllDigits(s: string) { forall i :: 0 <= i < |s| ==> IsDigit(s[i]) }

  function DigitChar(d: nat): (c: char)
    requires d < 10
    ensures IsDigit(c)
  {
    ('0' as int + d) as char
  }

  function DigitValue(c: char): nat
    requires IsDigit(c)
  {
    c as int - '0' as int
  }

  /** `str(n)` for a natural number: decimal digits, no leading zero except for 0 itself. */
  function NatToString(n: nat): (s: string)
    ensures |s| > 0 && AllDigits(s)
    ensures n >= 10 ==> |s| >= 2 && s[0] != '0'
    ensures n < 10 <==> |s| == 1
    decreases n
  {
    if n < 10 then [DigitChar(n)] else NatToString(n / 10) + [DigitChar(n % 10)]
  }

  /** `int(s)` for a non-empty run of ASCII digits (leading zeros allowed). */
  function DigitsValue(s: string): nat
    requires AllDigits(s)
  {
    if s == [] then 0 else DigitsValue(s[..|s| - 1]) * 10 + DigitValue(s[|s| - 1])
  }

  /** Parsing what `str` wrote gives the number back. */
  lemma {:induction false} NatToStringRoundTrip(n: nat)
    ensures DigitsValue(NatToString(n)) == n
    decreases n
  {
    if n >= 10 {
      NatToStringRoundTrip(n / 10);
      var s := NatToString(n);
      assert s[..|s| - 1] == NatToString(n / 10);
    }
  }

  lemma NatToStringInjective(a: nat, b: nat)
    requires NatToString(a) == NatToString(b)
    ensures a == b
  {
    NatToStringRoundTrip(a);
    NatToStringRoundTrip(b);
  }

  /** Leading zeros do not change the value of a digit string. */
  lemma {:induction false} LeadingZerosValue(z: nat, s: string)
    requires AllDigits(s)
    ensures AllDigits(Zeros(z) + s) && DigitsValue(Zeros(z) + s) == DigitsValue(s)
    decreases z, |s|
  {
    var t := Zeros(z) + s;
    if s == [] {
      assert t == Zeros(z);
      ZerosValue(z);
    } else {
      LeadingZerosValue(z, s[..|s| - 1]);
      assert t[..|t| - 1] == Zeros(z) + s[..|s| - 1];
    }
  }

  lemma {:induction false} ZerosValue(z: nat)
    ensures AllDigits(Zeros(z)) && DigitsValue(Zeros(z)) == 0
  {
    if z > 0 {
      ZerosValue(z - 1);
      assert Zeros(z)[..z - 1] == Zeros(z - 1);
    }
  }

  function Zeros(z: nat): (s: string)
    ensures |s| == z && forall i :: 0 <= i < z ==> s[i] == '0'
  {
    if z == 0 then [] else Zeros(z - 1) + ['0']
  }

  /** `str(i)` for an integer of either sign. */
  function IntToString(i: int): string
  {
    if i < 0 then "-" + NatToString(-i) else NatToString(i)
  }

  function PadLeftZeros(s: string, width: int): (r: string)
    ensures |r| == if |s| >= width then |s| else width
  {
    if |s| >= width then s else Zeros(width - |s|) + s
  }

  /** `f"{i:0{width}d}"`: zero-padded to `width` characters, the sign counted in the width. */
  function ZeroPad(i: int, width: nat): string
  {
    if i < 0 then "-" + PadLeftZeros(NatToString(-i), width - 1) else PadLeftZeros(NatToString(i), width)
  }

  /** Distinct integers never print alike, however they are padded. */
  lemma ZeroPadInjective(a: int, b: int, width: nat)
    requires ZeroPad(a, width) == ZeroPad(b, width)
    ensures a == b
  {
    ZeroPadValue(a, width);
    ZeroPadValue(b, width);
  }

  /** What a padded number reads back as: its sign first when negative, then the digits of its magnitude. */
  lemma ZeroPadValue(i: int, width: nat)
    ensures |ZeroPad(i, width)| > 0
    ensures i < 0 ==> ZeroPad(i, width)[0] == '-' && AllDigits(ZeroPad(i, width)[1..])
                      && DigitsValue(ZeroPad(i, width)[1..]) == -i
    ensures i >= 0 ==> AllDigits(ZeroPad(i, width)) && DigitsValue(ZeroPad(i, width)) == i
  {
    if i < 0 {
      var digits := PadLeftZeros(NatToString(-i), width - 1);
      PaddedValue(-i, width - 1);
      SignedParts(digits);
    } else {
      PaddedValue(i, width);
    }
  }

  lemma SignedParts(digits: string)
    ensures ("-" + digits)[0] == '-' && ("-" + digits)[1..] == digits
  {
  }

  /** A padded negative number starts with its sign; a padded natural number is all digits. */
  lemma ZeroPadSign(i: int, width: nat)
    ensures |ZeroPad(i, width)| > 0
    ensures i < 0 ==> ZeroPad(i, width)[0] == '-' && ZeroPad(i, width)[1..] == PadLeftZeros(NatToString(-i), width - 1)
    ensures i < 0 ==> AllDigits(ZeroPad(i, width)[1..])
    ensures i >= 0 ==> AllDigits(ZeroPad(i, width))
  {
    if i < 0 {
      PaddedDigits(-i, width - 1);
    } else {
      PaddedDigits(i, width);
    }
  }

  lemma ZeroPadNoUnderscore(i: int, width: nat)
    ensures '_' !in ZeroPad(i, width)
  {
    ZeroPadSign(i, width);
  }

  lemma {:induction false} IndexOfAfter(a: string, c: char, rest: string)
    requires c !in a
    ensures c in a + [c] + rest && IndexOf(a + [c] + rest, c) == |a|
  {
    var s := a + [c] + rest;
    assert s[|a|] == c;
    if a != [] {
      assert s[1..] == a[1..] + [c] + rest;
      IndexOfAfter(a[1..], c, rest);
    }
  }

  /** Two texts that agree around the first occurrence of `c` agree on both sides of it. */
  lemma SplitAtFirst(a: string, x: string, b: string, y: string, c: char)
    requires c !in a && c !in b
    requires a + [c] + x == b + [c] + y
    ensures a == b && x == y
  {
    var s := a + [c] + x;
    IndexOfAfter(a, c, x);
    IndexOfAfter(b, c, y);
    assert a == s[..|a|];
    assert x == s[|a| + 1..];
  }

  lemma PaddedDigits(n: nat, width: int)
    ensures AllDigits(PadLeftZeros(NatToString(n), width)) && |PadLeftZeros(NatToString(n), width)| > 0
  {
    if |NatToString(n)| < width {
      LeadingZerosValue(width - |NatToString(n)|, NatToString(n));
    }
  }

  lemma PaddedValue(n: nat, width: int)
    ensures AllDigits(PadLeftZeros(NatToString(n), width))
    ensures DigitsValue(PadLeftZeros(NatToString(n), width)) == n
  {
    NatToStringRoundTrip(n);
    if |NatToString(n)| < width {
      LeadingZerosValue(width - |NatToString(n)|, NatToString(n));
    }
  }

  // ---------------------------------------------------------------------------
  // Substrings

  /** Python's `sub in s`. */
  predicate Contains(s: string, sub: string)
    decreases |s|
  {
    StartsWith(s, sub) || (|s| > 0 && Contains(s[1..], sub))
  }

  predicate StartsWith(s: string, p: string) { |p| <= |s| && s[..|p|] == p }

  /** A text lacking one character of what is searched for does not contain it. */
  lemma {:induction false} AbsentCharNotContained(s: string, sub: string, i: nat)
    requires i < |sub| && sub[i] !in s
    ensures !Contains(s, sub)
    decreases |s|
  {
    if |sub| <= |s| {
      assert s[..|sub|][i] == s[i];
    }
    if |s| > 0 {
      AbsentCharNotContained(s[1..], sub, i);
    }
  }

  /** Python's `s.replace(pat, rep)`: every non-overlapping occurrence, scanning left to right. */
  function Replace(s: string, pat: string, rep: string): string
    requires |pat| > 0
    decreases |s|
  {
    if |s| < |pat| then s
    else if s[..|pat|] == pat then rep + Replace(s[|pat|..], pat, rep)
    else [s[0]] + Replace(s[1..], pat, rep)
  }

  /** A text without the searched-for string is left as it is. */
  lemma {:induction false} ReplaceAbsent(s: string, pat: string, rep: string)
    requires |pat| > 0
    requires !Contains(s, pat)
    ensures Replace(s, pat, rep) == s
    decreases |s|
  {
    if |s| >= |pat| {
      ReplaceAbsent(s[1..], pat, rep);
    }
  }

  /** A text whose `i`-th character differs from the prefix's, or ends before it, does not start with it. */
  lemma NotStartsWithAt(s: string, p: string, i: nat)
    requires i < |p| && (i >= |s| || s[i] != p[i])
    ensures !StartsWith(s, p)
  {
    if |p| <= |s| {
      assert s[..|p|][i] == s[i];
    }
  }

  /** The first position where two different texts of one length differ. */
  function FirstDiff(a: string, b: string): (j: nat)
    requires |a| == |b| && a != b
    ensures j < |a| && a[j] != b[j]
  {
    if a[0] != b[0] then 0
    else
      assert a == [a[0]] + a[1..] && b == [b[0]] + b[1..];
      1 + FirstDiff(a[1..], b[1..])
  }

  /** An occurrence at any position makes `sub in s` true. */
  lemma {:induction false} ContainsAt(s: string, i: nat, sub: string)
    requires i <= |s| && StartsWith(s[i..], sub)
    ensures Contains(s, sub)
    decreases i
  {
    if i > 0 {
      assert s[1..][i - 1..] == s[i..];
      ContainsAt(s[1..], i - 1, sub);
    } else {
      assert s[0..] == s;
    }
  }

  /** `replace` copies a leading part in which the searched-for string cannot start. */
  lemma {:induction false} ReplaceSkip(a: string, t: string, pat: string, rep: string)
    requires |pat| > 0 && pat[0] !in a
    ensures Replace(a + t, pat, rep) == a + Replace(t, pat, rep)
    decreases |a|
  {
    if a != [] {
      var s := a + t;
      if |s| >= |pat| {
        assert s[..|pat|][0] == a[0];
        assert s[1..] == a[1..] + t;
        ReplaceSkip(a[1..], t, pat, rep);
        assert [a[0]] + a[1..] == a;
      } else {
        assert Replace(t, pat, rep) == t;
      }
    } else {
      assert a + t == t;
    }
  }

  /** A single occurrence, with no other place where the searched-for string could start, is replaced. */
  lemma ReplaceOnce(a: string, pat: string, b: string, rep: string)
    requires |pat| > 0 && pat[0] !in a && pat[0] !in b
    ensures Replace(a + pat + b, pat, rep) == a + rep + b
  {
    assert a + pat + b == a + (pat + b);
    ReplaceSkip(a, pat + b, pat, rep);
    assert (pat + b)[..|pat|] == pat && (pat + b)[|pat|..] == b;
    AbsentCharNotContained(b, pat, 0);
    ReplaceAbsent(b, pat, rep);
  }

  // ---------------------------------------------------------------------------
  // Lines

  /** Python's `s.split(sep)` for a one-character separator: always at least one piece. */
  function Split(s: string, sep: char): (parts: seq<string>)
    ensures |parts| > 0
    ensures forall i :: 0 <= i < |parts| ==> sep !in parts[i]
    decreases |s|
  {
    if sep !in s then [s]
    else
      var i := IndexOf(s, sep);
      [s[..i]] + Split(s[i + 1..], sep)
  }

  /** `PurePosixPath(p).name`: the last component, empty and `.` components being dropped. */
  function PathName(p: string): (r: string)
    ensures '/' !in r
  {
    LastName(Split(p, '/'))
  }

  function LastName(parts: seq<string>): (r: string)
    ensures r == "" || r in parts
  {
    if parts == [] then ""
    else
      var last := parts[|parts| - 1];
      if last == "" || last == "." then LastName(parts[..|parts| - 1]) else last
  }

  function IndexOf(s: string, c: char): (i: nat)
    requires c in s
    ensures i < |s| && s[i] == c && c !in s[..i]
  {
    if s[0] == c then 0 else 1 + IndexOf(s[1..], c)
  }

  /** Python's `sep.join(parts)`. */
  function Join(parts: seq<string>, sep: string): string
  {
    if parts == [] then "" else if |parts| == 1 then parts[0] else parts[0] + sep + Join(parts[1..], sep)
  }

  /** Splitting and joining again on the same character gives the text back. */
  lemma {:induction false} JoinSplit(s: string, sep: char)
    ensures Join(Split(s, sep), [sep]) == s
    decreases |s|
  {
    if sep in s {
      var i := IndexOf(s, sep);
      JoinSplit(s[i + 1..], sep);
      assert s == s[..i] + [sep] + s[i + 1..];
    }
  }

  /** Joining pieces that do not contain the separator and splitting again gives the pieces back. */
  lemma {:induction false} SplitJoin(parts: seq<string>, sep: char)
    requires |parts| > 0
    requires forall i :: 0 <= i < |parts| ==> sep !in parts[i]
    ensures Split(Join(parts, [sep]), sep) == parts
    decreases |parts|
  {
    if |parts| > 1 {
      var s := Join(parts, [sep]);
      var rest := Join(parts[1..], [sep]);
      SplitJoin(parts[1..], sep);
      assert s == parts[0] + [sep] + rest;
      assert sep in s by { assert s[|parts[0]|] == sep; }
      var i := IndexOf(s, sep);
      assert s[..i] == parts[0];
      assert s[i + 1..] == rest;
    }
  }

  /** The first occurrence of `c` in a text is its first occurrence in any text that text starts. */
  lemma {:induction false} IndexOfPrefix(a: string, t: string, c: char)
    requires c in a
    ensures c in a + t && IndexOf(a + t, c) == IndexOf(a, c)
  {
    assert (a + t)[IndexOf(a, c)] == c;
    if a[0] != c {
      assert (a + t)[1..] == a[1..] + t;
      IndexOfPrefix(a[1..], t, c);
    }
  }

  /** Splitting at a separator splits the two sides independently. */
  lemma {:induction false} SplitConcat(a: string, b: string, sep: char)
    ensures Split(a + [sep] + b, sep) == Split(a, sep) + Split(b, sep)
    decreases |a|
  {
    var s := a + [sep] + b;
    if sep !in a {
      IndexOfAfter(a, sep, b);
      calc {
        Split(s, sep);
        == { assert s[..|a|] == a && s[|a| + 1..] == b; }
        [a] + Split(b, sep);
      }
    } else {
      var i := IndexOf(a, sep);
      var rest := a[i + 1..];
      assert IndexOf(s, sep) == i by {
        IndexOfPrefix(a, [sep] + b, sep);
        assert s == a + ([sep] + b);
      }
      calc {
        Split(s, sep);
        == { assert s[..i] == a[..i]; assert s[i + 1..] == rest + [sep] + b; }
        [a[..i]] + Split(rest + [sep] + b, sep);
        == { SplitConcat(rest, b, sep); }
        [a[..i]] + (Split(rest, sep) + Split(b, sep));
        ==
        ([a[..i]] + Split(rest, sep)) + Split(b, sep);
      }
    }
  }

  /** Python's whitespace: what `str.strip()` removes and `str.isspace()` accepts. */
  predicate IsSpace(c: char)
  {
    || c == ' ' || ('\t' <= c <= '\r') || ('\U{1c}' <= c <= '\U{1f}')
    || c == '\U{85}' || c == '\U{a0}' || c == '\U{1680}' || ('\U{2000}' <= c <= '\U{200a}')
    || c == '\U{2028}' || c == '\U{2029}' || c == '\U{202f}' || c == '\U{205f}' || c == '\U{3000}'
  }

  /** `not s.strip()`: the text holds nothing but whitespace. */
  predicate IsBlank(s: string) { forall i :: 0 <= i < |s| ==> IsSpace(s[i]) }
}
