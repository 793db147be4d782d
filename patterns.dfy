/**
 * The regular expressions the merger and the storage substitute, as
 * deterministic scanners over `seq<char>`, and `re.sub` over one of them:
 * what a match at the start of a text covers, what replaces it, and how a
 * substitution treats the text around a match.
 */
module Patterns {
  import opened Wrappers
  import opened Text


  // ---------------------------------------------------------------------------
  // The patterns

  /**
   * One of the regular expressions, with what its replacement needs: the four
   * the merger substitutes, and the image-link rewrite of the storage.
   */
  datatype Pattern =
    | PageMarker(offset: int)        // <!-- Page (\d+) -->
    | MarkdownImage(prefix: string)  // \]\(((?:images/)?)(img-\d+\.[a-z]+)\)
    | HtmlImage(prefix: string)      // src="((?:images/)?)(img-\d+\.[a-z]+)"
    | TableRef(prefix: string)       // \[(tbl-\d+)\]
    | ImagesLink                     // \]\((img-\d+\.[a-z]+)\)  replaced by  ](images/\1)

  /** A match at the start of the text: how many characters it covers and what replaces them. */
  datatype Match = Match(len: nat, replacement: string)

  /** The literal text every match of the pattern starts with. */
  function Needle(p: Pattern): string
  {
    match p
    case PageMarker(_) => "<!-- Page "
    case MarkdownImage(_) => "]("
    case HtmlImage(_) => "src=\""
    case TableRef(_) => "[tbl-"
    case ImagesLink => "]("
  }

  /** A page marker as the parser writes it and as the renumbering writes it back. */
  function Marker(page: int): string
  {
    "<!-- Page " + IntToString(page) + " -->"
  }

  predicate IsLower(c: char) { 'a' <= c <= 'z' }

  /** The length of the longest run of digits the text starts with (`\d+` is greedy). */
  function DigitRun(s: string): (n: nat)
    ensures n <= |s| && AllDigits(s[..n]) && (n < |s| ==> !IsDigit(s[n]))
  {
    if s == [] || !IsDigit(s[0]) then 0
    else
      var n := 1 + DigitRun(s[1..]);
      assert s[..n] == [s[0]] + s[1..][..n - 1];
      n
  }

  /** The length of the longest run of lower-case letters the text starts with. */
  function LowerRun(s: string): (n: nat)
    ensures n <= |s| && (forall i :: 0 <= i < n ==> IsLower(s[i])) && (n < |s| ==> !IsLower(s[n]))
  {
    if s == [] || !IsLower(s[0]) then 0 else 1 + LowerRun(s[1..])
  }

  /** The optional group `((?:images/)?)`. */
  function ImageDir(s: string): string
  {
    if StartsWith(s, "images/") then "images/" else ""
  }

  /** The length of the image file name `img-\d+\.[a-z]+` the text starts with, if it starts with one. */
  function ImageNameLen(s: string): (r: Option<nat>)
    ensures r.Some? ==> 7 <= r.value <= |s|
  {
    if !StartsWith(s, "img-") then None
    else
      var d := DigitRun(s[4..]);
      if d == 0 || 4 + d == |s| || s[4 + d] != '.' then None
      else
        var l := LowerRun(s[5 + d..]);
        if l == 0 then None else Some(5 + d + l)
  }

  /** `<!-- Page (\d+) -->` at the start of the text, replaced by the marker of the shifted page. */
  function MarkerMatch(s: string, offset: int): (r: Option<Match>)
    ensures r.Some? ==> 0 < r.value.len <= |s| && StartsWith(s, "<!-- Page ")
  {
    if !StartsWith(s, "<!-- Page ") then None
    else
      var d := DigitRun(s[10..]);
      if d == 0 || !StartsWith(s[10 + d..], " -->") then None
      else
        assert s[10..10 + d] == s[10..][..d];
        Some(Match(14 + d, ShiftedMarker(s[10..10 + d], offset)))
  }

  /** The marker written for the page whose number was read from `digits`, moved on by `offset`. */
  function ShiftedMarker(digits: string, offset: int): string
    requires AllDigits(digits)
  {
    Marker(DigitsValue(digits) + offset)
  }

  /**
   * An image reference at the start of the text: `open`, the optional group
   * `((?:images/)?)`, the name `img-\d+\.[a-z]+`, then `close`; replaced by
   * the same with `prefix` put before the name.
   */
  function ImageRefMatch(s: string, open: string, close: char, prefix: string): (r: Option<Match>)
    ensures r.Some? ==> 0 < r.value.len <= |s| && StartsWith(s, open)
  {
    if !StartsWith(s, open) then None
    else
      var dir := ImageDir(s[|open|..]);
      ImageRefAfterDir(open, dir, s[|open| + |dir|..], close, prefix)
  }

  /** The rest of an image reference once `open` and the optional directory are read: the name, then `close`. */
  function ImageRefAfterDir(open: string, dir: string, rest: string, close: char, prefix: string): (r: Option<Match>)
    ensures r.Some? ==> |open| + |dir| < r.value.len <= |open| + |dir| + |rest|
  {
    var name := ImageNameLen(rest);
    if name.None? || name.value == |rest| || rest[name.value] != close then None
    else Some(Match(|open| + |dir| + name.value + 1, PrefixedRef(open, dir, prefix, rest[..name.value], close)))
  }

  /** The replacement of an image reference: the prefix goes between the directory and the name. */
  function PrefixedRef(open: string, dir: string, prefix: string, name: string, close: char): string
  {
    open + dir + prefix + name + [close]
  }

  /** `\[(tbl-\d+)\]` at the start of the text, replaced by `[` + prefix + the id + `]`. */
  function TableRefMatch(s: string, prefix: string): (r: Option<Match>)
    ensures r.Some? ==> 0 < r.value.len <= |s| && StartsWith(s, "[tbl-")
  {
    if !StartsWith(s, "[tbl-") then None
    else
      var d := DigitRun(s[5..]);
      if d == 0 || 5 + d == |s| || s[5 + d] != ']' then None
      else Some(Match(6 + d, "[" + prefix + s[1..5 + d] + "]"))
  }

  /** `\]\((img-\d+\.[a-z]+)\)` at the start of the text, replaced by the same link under `images/`. */
  function ImageLinkMatch(s: string): (r: Option<Match>)
    ensures r.Some? ==> 0 < r.value.len <= |s| && StartsWith(s, "](")
  {
    if !StartsWith(s, "](") then None
    else ImageRefAfterDir("](", "", s[2..], ')', "images/")
  }

  /**
   * The match of the pattern at the start of the text, if any. Digit and
   * letter runs are taken whole: giving back a character could only put a
   * digit or a letter where the pattern wants something else, so no shorter
   * choice ever matches. The optional `images/` group is tried first, and when
   * it is present leaving it out cannot match either (DirChoiceForced).
   */
  function MatchAt(p: Pattern, s: string): (r: Option<Match>)
    ensures r.Some? ==> 0 < r.value.len <= |s| && StartsWith(s, Needle(p))
  {
    match p
    case PageMarker(offset) => MarkerMatch(s, offset)
    case MarkdownImage(prefix) => ImageRefMatch(s, "](", ')', prefix)
    case HtmlImage(prefix) => ImageRefMatch(s, "src=\"", '"', prefix)
    case TableRef(prefix) => TableRefMatch(s, prefix)
    case ImagesLink => ImageLinkMatch(s)
  }

  /** `re.sub(pattern, repl, s)`: matches are replaced left to right, other characters are copied. */
  function Sub(p: Pattern, s: string): string
    decreases |s|
  {
    if s == [] then []
    else
      match MatchAt(p, s)
      case Some(m) => m.replacement + Sub(p, s[m.len..])
      case None => [s[0]] + Sub(p, s[1..])
  }

  /** None of the characters the patterns hang on. */
  predicate Plain(s: string)
  {
    '<' !in s && ']' !in s && '(' !in s && '"' !in s && '[' !in s
  }

  /** An image file name the service writes: `img-<n>.<ext>`. */
  function ImageFile(n: nat, ext: string): string
  {
    "img-" + NatToString(n) + "." + ext
  }

  predicate IsExtension(ext: string)
  {
    |ext| > 0 && forall i :: 0 <= i < |ext| ==> IsLower(ext[i])
  }

  // ---------------------------------------------------------------------------
  // Facts about the scanner

  /** When the optional directory is present, a match without it is impossible. */
  lemma DirChoiceForced(s: string)
    requires StartsWith(s, "images/")
    ensures ImageNameLen(s).None?
  {
    assert s[..4][2] == s[..7][2];
  }

  /** A substitution leaves a text in which its pattern's literal start never occurs as it is. */
  lemma {:induction false} SubAbsent(p: Pattern, s: string)
    requires !Contains(s, Needle(p))
    ensures Sub(p, s) == s
    decreases |s|
  {
    if s != [] {
      SubAbsent(p, s[1..]);
    }
  }

  lemma AppendAssoc(x: string, y: string, z: string)
    ensures x + (y + z) == (x + y) + z
  {
  }

  lemma SubCopies(p: Pattern, s: string)
    requires s != [] && !StartsWith(s, Needle(p))
    ensures Sub(p, s) == [s[0]] + Sub(p, s[1..])
  {
    assert MatchAt(p, s).None?;
  }

  lemma NeedleBlocked(p: Pattern, a: string, b: string, j: nat)
    requires a != []
    requires j < |Needle(p)| && Needle(p)[j] !in a
    requires forall i :: 0 <= i < j && i < |b| ==> b[i] != Needle(p)[j]
    ensures !StartsWith(a + b, Needle(p))
  {
    var s := a + b;
    var n := Needle(p);
    if |n| <= |s| {
      assert s[..|n|][j] == s[j];
      if j < |a| {
        assert s[j] == a[j];
      } else {
        assert s[j] == b[j - |a|];
      }
    }
  }

  /**
   * A substitution copies a leading part `a` in which no match can start: `a`
   * lacks the pattern's `j`-th literal character, and so do the first `j`
   * characters that follow it.
   */
  lemma {:induction false} SubSkip(p: Pattern, a: string, b: string, j: nat)
    requires j < |Needle(p)| && Needle(p)[j] !in a
    requires forall i :: 0 <= i < j && i < |b| ==> b[i] != Needle(p)[j]
    ensures Sub(p, a + b) == a + Sub(p, b)
    decreases |a|
  {
    if a != [] {
      var rest := a[1..];
      assert a == [a[0]] + rest;
      assert Needle(p)[j] !in rest;
      calc {
        Sub(p, a + b);
        == { SubSkipHead(p, a, b, j); }
        [a[0]] + Sub(p, rest + b);
        == { SubSkip(p, rest, b, j); }
        [a[0]] + (rest + Sub(p, b));
        == { AppendAssoc([a[0]], rest, Sub(p, b)); }
        a + Sub(p, b);
      }
    } else {
      assert a + b == b;
    }
  }

  /** The first character of a leading part in which no match can start is copied. */
  lemma SubSkipHead(p: Pattern, a: string, b: string, j: nat)
    requires a != []
    requires j < |Needle(p)| && Needle(p)[j] !in a
    requires forall i :: 0 <= i < j && i < |b| ==> b[i] != Needle(p)[j]
    ensures Sub(p, a + b) == [a[0]] + Sub(p, a[1..] + b)
  {
    NeedleBlocked(p, a, b, j);
    SubCopies(p, a + b);
    assert (a + b)[1..] == a[1..] + b;
  }

  /** The pattern matches at the start of `s`, covering `len` characters and replaced by `replacement`. */
  predicate MatchesWith(p: Pattern, s: string, len: nat, replacement: string)
  {
    var m := MatchAt(p, s);
    m.Some? && m.value.len == len && m.value.replacement == replacement
  }

  /** A match at the start is replaced and the scan goes on after it. */
  lemma SubAfterMatch(p: Pattern, s: string, len: nat, replacement: string)
    requires MatchesWith(p, s, len, replacement)
    ensures Sub(p, s) == replacement + Sub(p, s[len..])
  {
  }

  lemma PlainNoNeedle(p: Pattern, s: string)
    requires Plain(s)
    ensures !Contains(s, Needle(p))
  {
    match p
    case PageMarker(_) => AbsentCharNotContained(s, Needle(p), 0);
    case MarkdownImage(_) => AbsentCharNotContained(s, Needle(p), 0);
    case HtmlImage(_) => AbsentCharNotContained(s, Needle(p), 4);
    case TableRef(_) => AbsentCharNotContained(s, Needle(p), 0);
    case ImagesLink => AbsentCharNotContained(s, Needle(p), 0);
  }

  lemma {:induction false} DigitRunOf(digits: string, rest: string)
    requires AllDigits(digits)
    requires rest != [] && !IsDigit(rest[0])
    ensures DigitRun(digits + rest) == |digits|
    decreases |digits|
  {
    if digits != [] {
      assert (digits + rest)[1..] == digits[1..] + rest;
      DigitRunOf(digits[1..], rest);
    } else {
      assert digits + rest == rest;
    }
  }

  lemma {:induction false} LowerRunOf(letters: string, rest: string)
    requires forall i :: 0 <= i < |letters| ==> IsLower(letters[i])
    requires rest != [] && !IsLower(rest[0])
    ensures LowerRun(letters + rest) == |letters|
    decreases |letters|
  {
    if letters != [] {
      assert (letters + rest)[1..] == letters[1..] + rest;
      LowerRunOf(letters[1..], rest);
    } else {
      assert letters + rest == rest;
    }
  }

  lemma MarkerSafe(page: int)
    ensures ']' !in Marker(page) && '"' !in Marker(page) && '[' !in Marker(page) && '(' !in Marker(page)
  {
    var d := IntToString(page);
    assert forall k :: 0 <= k < |d| ==> IsDigit(d[k]) || d[k] == '-';
  }

  lemma ImageFilePlain(n: nat, ext: string)
    requires IsExtension(ext)
    ensures Plain(ImageFile(n, ext))
  {
    var d := NatToString(n);
    assert ImageFile(n, ext) == "img-" + d + "." + ext;
  }

  lemma ImageNameLenOf(d: string, ext: string, rest: string)
    requires |d| > 0 && AllDigits(d)
    requires IsExtension(ext)
    requires rest != [] && !IsLower(rest[0])
    ensures ImageNameLen("img-" + d + "." + ext + rest) == Some(|d| + |ext| + 5)
  {
    var s := "img-" + d + "." + ext + rest;
    assert s[..4] == "img-";
    assert s[4..] == d + ("." + ext + rest);
    DigitRunOf(d, "." + ext + rest);
    assert s[4 + |d|] == '.';
    assert s[5 + |d|..] == ext + rest;
    LowerRunOf(ext, rest);
  }

  lemma ImageFileLen(n: nat, ext: string, rest: string)
    requires IsExtension(ext)
    requires rest != [] && !IsLower(rest[0])
    ensures ImageNameLen(ImageFile(n, ext) + rest) == Some(|ImageFile(n, ext)|)
  {
    ImageNameLenOf(NatToString(n), ext, rest);
  }

  /** An image file name does not start with `images/`. */
  lemma ImageFileNoDir(n: nat, ext: string, rest: string)
    ensures !StartsWith(ImageFile(n, ext) + rest, "images/")
  {
    var s := ImageFile(n, ext) + rest;
    assert s[2] == 'g';
    if |s| >= 7 {
      assert s[..7][2] == s[2];
    }
  }

  /** A text whose first character is not `i` does not start with `images/`. */
  lemma NotImagesStart(rest: string)
    requires rest != [] && rest[0] != 'i'
    ensures !StartsWith(rest, "images/")
  {
    if |rest| >= 7 {
      assert rest[..7][0] == rest[0];
    }
  }

  /** The optional group takes exactly the directory written before a name that does not start `images/`. */
  lemma ImageDirOf(dir: string, rest: string)
    requires dir == "" || dir == "images/"
    requires !StartsWith(rest, "images/")
    ensures ImageDir(dir + rest) == dir
  {
    if dir == "" {
      assert dir + rest == rest;
    } else {
      assert (dir + rest)[..7] == dir;
    }
  }

  // ---------------------------------------------------------------------------
  // The match of each pattern on the references the service writes

  lemma MarkerMatchOf(d: string, b: string, offset: int)
    requires |d| > 0 && AllDigits(d)
    ensures MarkerMatch("<!-- Page " + (d + (" -->" + b)), offset) == Some(Match(14 + |d|, ShiftedMarker(d, offset)))
  {
    var s := "<!-- Page " + (d + (" -->" + b));
    assert s[10..] == d + (" -->" + b);
    DigitRunOf(d, " -->" + b);
    assert (d + (" -->" + b))[|d|..] == " -->" + b;
    assert s[10..10 + |d|] == d;
  }

  lemma MatchMarker(page: nat, b: string, offset: int)
    ensures MatchesWith(PageMarker(offset), Marker(page) + b, |Marker(page)|, Marker(page + offset))
  {
    var d := NatToString(page);
    assert Marker(page) + b == "<!-- Page " + (d + (" -->" + b)) && |Marker(page)| == 14 + |d|;
    MarkerMatchOf(d, b, offset);
    assert ShiftedMarker(d, offset) == Marker(page + offset) by {
      NatToStringRoundTrip(page);
    }
  }

  lemma ImageRefMatchOf(s: string, open: string, dir: string, rest: string, close: char, prefix: string)
    requires StartsWith(s, open) && s[|open|..] == dir + rest
    requires ImageDir(dir + rest) == dir
    ensures ImageRefMatch(s, open, close, prefix) == ImageRefAfterDir(open, dir, rest, close, prefix)
  {
    assert s[|open| + |dir|..] == rest;
  }

  lemma ImageRefAfterDirOf(open: string, dir: string, rest: string, close: char, prefix: string, n: nat)
    requires ImageNameLen(rest) == Some(n) && n < |rest| && rest[n] == close
    ensures ImageRefAfterDir(open, dir, rest, close, prefix).Some?
    ensures ImageRefAfterDir(open, dir, rest, close, prefix).value.len == |open| + |dir| + n + 1
    ensures ImageRefAfterDir(open, dir, rest, close, prefix).value.replacement == PrefixedRef(open, dir, prefix, rest[..n], close)
  {
  }

  lemma MatchMarkdownImage(dir: string, n: nat, ext: string, b: string, prefix: string)
    requires dir == "" || dir == "images/"
    requires IsExtension(ext)
    ensures MatchesWith(MarkdownImage(prefix), "](" + dir + ImageFile(n, ext) + ")" + b,
                        |"](" + dir + ImageFile(n, ext) + ")"|, "](" + dir + prefix + ImageFile(n, ext) + ")")
  {
    var name := ImageFile(n, ext);
    var s := "](" + dir + name + ")" + b;
    var rest := name + (")" + b);
    assert s[..2] == "](";
    assert s[2..] == dir + rest;
    ImageFileNoDir(n, ext, ")" + b);
    ImageDirOf(dir, rest);
    ImageFileLen(n, ext, ")" + b);
    assert rest[..|name|] == name;
    assert rest[|name|] == ')';
    ImageRefMatchOf(s, "](", dir, rest, ')', prefix);
    ImageRefAfterDirOf("](", dir, rest, ')', prefix, |name|);
  }

  lemma MatchHtmlImage(dir: string, n: nat, ext: string, b: string, prefix: string)
    requires dir == "" || dir == "images/"
    requires IsExtension(ext)
    ensures MatchesWith(HtmlImage(prefix), "src=\"" + dir + ImageFile(n, ext) + "\"" + b,
                        |"src=\"" + dir + ImageFile(n, ext) + "\""|, "src=\"" + dir + prefix + ImageFile(n, ext) + "\"")
  {
    var name := ImageFile(n, ext);
    var s := "src=\"" + dir + name + "\"" + b;
    var rest := name + ("\"" + b);
    assert s[..5] == "src=\"";
    assert s[5..] == dir + rest;
    ImageFileNoDir(n, ext, "\"" + b);
    ImageDirOf(dir, rest);
    ImageFileLen(n, ext, "\"" + b);
    assert rest[..|name|] == name;
    assert rest[|name|] == '"';
    ImageRefMatchOf(s, "src=\"", dir, rest, '"', prefix);
    ImageRefAfterDirOf("src=\"", dir, rest, '"', prefix, |name|);
  }

  lemma TableRefMatchOf(d: string, b: string, prefix: string)
    requires |d| > 0 && AllDigits(d)
    ensures TableRefMatch("[tbl-" + (d + ("]" + b)), prefix).Some?
    ensures TableRefMatch("[tbl-" + (d + ("]" + b)), prefix).value.len == 6 + |d|
    ensures TableRefMatch("[tbl-" + (d + ("]" + b)), prefix).value.replacement == "[" + prefix + "tbl-" + d + "]"
  {
    var t := d + ("]" + b);
    var s := "[tbl-" + t;
    assert StartsWith(s, "[tbl-") by { assert s[..5] == "[tbl-"; }
    assert s[5..] == t;
    DigitRunOf(d, "]" + b);
    assert |s| == 6 + |d| + |b|;
    assert s[5 + |d|] == t[|d|] == ']';
    assert s[1..5 + |d|] == "tbl-" + d by {
      assert s[1..5] == "tbl-" && s[5..5 + |d|] == t[..|d|] == d;
      assert s[1..5 + |d|] == s[1..5] + s[5..5 + |d|];
    }
  }

  lemma MatchTableRef(n: nat, b: string, prefix: string)
    ensures MatchesWith(TableRef(prefix), "[tbl-" + NatToString(n) + "]" + b,
                        |"[tbl-" + NatToString(n) + "]"|, "[" + prefix + "tbl-" + NatToString(n) + "]")
  {
    var d := NatToString(n);
    assert "[tbl-" + d + "]" + b == "[tbl-" + (d + ("]" + b));
    TableRefMatchOf(d, b, prefix);
  }

  /** The storage rewrite matches a bare image link and puts `images/` before the name. */
  lemma MatchImagesLink(n: nat, ext: string, b: string)
    requires IsExtension(ext)
    ensures MatchesWith(ImagesLink, "](" + ImageFile(n, ext) + ")" + b,
                        |"](" + ImageFile(n, ext) + ")"|, "](images/" + ImageFile(n, ext) + ")")
  {
    var name := ImageFile(n, ext);
    var s := "](" + name + ")" + b;
    var rest := name + (")" + b);
    assert s[..2] == "](";
    assert s[2..] == rest;
    ImageFileLen(n, ext, ")" + b);
    assert rest[..|name|] == name;
    assert rest[|name|] == ')';
    ImageRefAfterDirOf("](", "", rest, ')', "images/", |name|);
    assert PrefixedRef("](", "", "images/", name, ')') == "](images/" + name + ")";
  }

  /** A link whose target does not start with `img-` is not rewritten: `images/img-1.png` and `chunk00_img-1.png` among them. */
  lemma NoMatchImagesLink(rest: string)
    requires !StartsWith(rest, "img-")
    ensures MatchAt(ImagesLink, "](" + rest).None?
  {
    var s := "](" + rest;
    assert s[..2] == "](";
    assert s[2..] == rest;
  }

  /** A prefixed name is not an image name, whether or not `images/` stands before it. */
  lemma NoMatchPrefixedImage(dir: string, rest: string, prefix: string)
    requires dir == "" || dir == "images/"
    requires rest != [] && rest[0] != 'i'
    ensures MatchAt(MarkdownImage(prefix), "](" + dir + rest).None?
  {
    var s := "](" + dir + rest;
    assert s[..2] == "](";
    assert s[2..] == dir + rest;
    NotImagesStart(rest);
    ImageDirOf(dir, rest);
    assert s[2 + |dir|..] == rest;
    assert !StartsWith(rest, "img-") by {
      if |rest| >= 4 {
        assert rest[..4][0] == rest[0];
      }
    }
    assert ImageNameLen(rest).None?;
  }


  /**
   * One substitution applied to `a + t + b`, where its match covers exactly
   * `t`, no match starts in `a` (the pattern's `j`-th literal character
   * occurs neither in `a` nor in the first `j` characters of `t`) and `b`
   * does not contain the pattern's literal.
   */
  lemma SubOneMatch(p: Pattern, a: string, t: string, b: string, j: nat, replacement: string)
    requires j < |Needle(p)| && j <= |t| && Needle(p)[j] !in a && Needle(p)[j] !in t[..j]
    requires !Contains(b, Needle(p))
    requires MatchesWith(p, t + b, |t|, replacement)
    ensures Sub(p, a + t + b) == a + replacement + b
  {
    assert Sub(p, a + t + b) == a + Sub(p, t + b) by {
      assert a + t + b == a + (t + b);
      PrefixLacks(t, b, j, Needle(p)[j]);
      SubSkip(p, a, t + b, j);
    }
    assert Sub(p, t + b) == replacement + b by {
      SubAfterMatch(p, t + b, |t|, replacement);
      assert (t + b)[|t|..] == b;
      SubAbsent(p, b);
    }
    AppendAssoc(a, replacement, b);
  }

  lemma PrefixLacks(t: string, b: string, j: nat, c: char)
    requires j <= |t| && c !in t[..j]
    ensures forall i :: 0 <= i < j && i < |t + b| ==> (t + b)[i] != c
  {
    forall i | 0 <= i < j && i < |t + b|
      ensures (t + b)[i] != c
    {
      assert (t + b)[i] == t[..j][i];
    }
  }

  /** A substitution whose pattern's `i`-th literal character does not occur leaves the text alone. */
  lemma SubLacking(p: Pattern, s: string, i: nat)
    requires i < |Needle(p)| && Needle(p)[i] !in s
    ensures Sub(p, s) == s
  {
    AbsentCharNotContained(s, Needle(p), i);
    SubAbsent(p, s);
  }

  lemma NotInParts(c: char, a: string, t: string, b: string)
    requires c !in a && c !in t && c !in b
    ensures c !in a + t + b
  {
  }

  /** Where the pattern does not match, the first character is copied. */
  lemma SubNoMatch(p: Pattern, s: string)
    requires s != [] && MatchAt(p, s).None?
    ensures Sub(p, s) == [s[0]] + Sub(p, s[1..])
  {
  }
}
