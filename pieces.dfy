/**
 * The markdown the OCR service writes, read as a sequence of pieces: plain
 * text, page markers, markdown image links `![alt](target)`, HTML image tags
 * `<img ... src="target" ...>` and table references `[tbl-N]`. One
 * substitution of `Patterns` maps such a text piece by piece (SubRender),
 * which covers any number of markers and references, side by side.
 */
module Pieces {
  import opened Wrappers
  import opened Text
  import opened Patterns

  /**
   * A piece of markdown. A reference records the directory before its file
   * name and the prefix a merge has put there, `""` while it has none.
   */
  datatype Piece =
    | Words(text: string)
    | PageMark(page: int)
    | MdImage(alt: string, dir: string, prefix: string, n: nat, ext: string)
    | HtmlImg(attrs: string, dir: string, prefix: string, n: nat, ext: string, tail: string)
    | TableCite(prefix: string, n: nat)

  /** Where a reference points: the directory, the prefix, then the service's file name. */
  function Target(dir: string, prefix: string, n: nat, ext: string): string
  {
    dir + prefix + ImageFile(n, ext)
  }

  /** The `](target)` that ends a markdown image link. */
  function LinkEnd(target: string): string
  {
    "](" + target + ")"
  }

  /** The `src="target"` attribute of an HTML image tag. */
  function SrcAttr(target: string): string
  {
    "src=\"" + target + "\""
  }

  /** The text of a piece. */
  function Show(x: Piece): string
  {
    match x
    case Words(t) => t
    case PageMark(k) => Marker(k)
    case MdImage(alt, dir, pre, n, ext) => "![" + alt + LinkEnd(Target(dir, pre, n, ext))
    case HtmlImg(attrs, dir, pre, n, ext, tail) => "<img " + attrs + SrcAttr(Target(dir, pre, n, ext)) + (tail + ">")
    case TableCite(pre, n) => "[" + pre + "tbl-" + NatToString(n) + "]"
  }

  /** The text of a sequence of pieces. */
  function Render(ps: seq<Piece>): string
    decreases |ps|
  {
    if ps == [] then "" else Show(ps[0]) + Render(ps[1..])
  }

  /** A prefix a merge may put before a file name: none, or one that starts neither a file name nor `tbl-`. */
  predicate PrefixOk(pre: string)
  {
    pre == "" || (Plain(pre) && pre[0] != 'i' && pre[0] != 't')
  }

  predicate DirOk(dir: string) { dir == "" || dir == "images/" }

  /**
   * The conditions on a piece's own parts: the alternative text of an image
   * and the attributes around its `src` hold none of the characters the
   * patterns hang on, and the alternative text does not itself read as a
   * table reference. Plain text is constrained only by what follows it
   * (`Fits`).
   */
  predicate WellFormed(x: Piece)
  {
    match x
    case Words(_) => true
    case PageMark(_) => true
    case MdImage(alt, dir, pre, _, ext) => Plain(alt) && !StartsWith(alt, "tbl-") && DirOk(dir) && PrefixOk(pre) && IsExtension(ext)
    case HtmlImg(attrs, dir, pre, _, ext, tail) => Plain(attrs) && DirOk(dir) && PrefixOk(pre) && IsExtension(ext) && Plain(tail)
    case TableCite(pre, _) => PrefixOk(pre)
  }

  /** The literal start of one of the patterns begins here: `<!-- Page `, `](`, `src="` or `[tbl-`. */
  predicate Opens(s: string)
  {
    StartsWith(s, "<!-- Page ") || StartsWith(s, "](") || StartsWith(s, "src=\"") || StartsWith(s, "[tbl-")
  }

  /** No pattern's literal start begins inside `w`, reading on into `t`. */
  predicate ClearIn(w: string, t: string)
  {
    forall j :: 0 <= j < |w| ==> !Opens((w + t)[j..])
  }

  /** The first character of a piece that is not plain text. */
  function Opening(x: Piece): char
    requires !x.Words?
  {
    match x
    case PageMark(_) => '<'
    case MdImage(_, _, _, _, _) => '!'
    case HtmlImg(_, _, _, _, _, _) => '<'
    case TableCite(_, _) => '['
  }

  /** The start of a text made of pieces: its leading plain text, then the first character of the next piece, if any. */
  function Lead(ps: seq<Piece>): string
    decreases |ps|
  {
    if ps == [] then ""
    else if ps[0].Words? then ps[0].text + Lead(ps[1..])
    else [Opening(ps[0])]
  }

  /**
   * A piece fits before a text starting with `lead`: plain text opens no
   * pattern, also across into what follows, and a table reference is not
   * followed by `(`, which would make its `]` open a link end.
   */
  predicate Fits(x: Piece, lead: string)
  {
    match x
    case Words(w) => ClearIn(w, lead)
    case TableCite(_, _) => lead == [] || lead[0] != '('
    case _ => true
  }

  /** The pieces the model covers: each well formed, and each fitting before the text that follows it. */
  predicate AllWellFormed(ps: seq<Piece>)
    decreases |ps|
  {
    ps == [] || (WellFormed(ps[0]) && Fits(ps[0], Lead(ps[1..])) && AllWellFormed(ps[1..]))
  }

  /** The substitutions whose replacement puts a prefix in keep to prefixes a merge may write. */
  predicate PatternOk(p: Pattern)
  {
    match p
    case MarkdownImage(pre) => PrefixOk(pre)
    case HtmlImage(pre) => PrefixOk(pre)
    case TableRef(pre) => PrefixOk(pre)
    case _ => true
  }

  /**
   * What one substitution does to a piece: the marker pattern shifts a marker
   * with a page number, the image and table patterns prefix a reference that
   * has no prefix yet, and the storage rewrite moves a bare image link under
   * `images/`. Every other piece stays as it is.
   */
  function Pass(p: Pattern, x: Piece): Piece
  {
    match p
    case PageMarker(offset) => if x.PageMark? && x.page >= 0 then PageMark(x.page + offset) else x
    case MarkdownImage(pre) => if x.MdImage? && x.prefix == "" then MdImage(x.alt, x.dir, pre, x.n, x.ext) else x
    case HtmlImage(pre) => if x.HtmlImg? && x.prefix == "" then HtmlImg(x.attrs, x.dir, pre, x.n, x.ext, x.tail) else x
    case TableRef(pre) => if x.TableCite? && x.prefix == "" then TableCite(pre, x.n) else x
    case ImagesLink => if x.MdImage? && x.dir == "" && x.prefix == "" then MdImage(x.alt, "images/", "", x.n, x.ext) else x
  }

  function PassAll(p: Pattern, ps: seq<Piece>): (r: seq<Piece>)
    ensures |r| == |ps|
    decreases |ps|
  {
    if ps == [] then [] else [Pass(p, ps[0])] + PassAll(p, ps[1..])
  }

  // ---------------------------------------------------------------------------
  // What follows a piece

  lemma ImageFileChars(n: nat, ext: string)
    requires IsExtension(ext)
    ensures Plain(ImageFile(n, ext)) && ImageFile(n, ext)[0] == 'i'
    ensures IsLower(ImageFile(n, ext)[|ImageFile(n, ext)| - 1])
  {
    ImageFilePlain(n, ext);
    var f := ImageFile(n, ext);
    assert f == "img-" + NatToString(n) + "." + ext;
    assert f[|f| - 1] == ext[|ext| - 1];
  }

  lemma TargetChars(dir: string, pre: string, n: nat, ext: string)
    requires DirOk(dir) && PrefixOk(pre) && IsExtension(ext)
    ensures var t := Target(dir, pre, n, ext);
      Plain(t) && t != [] && IsLower(t[|t| - 1])
  {
    ImageFileChars(n, ext);
    var f := ImageFile(n, ext);
    var t := Target(dir, pre, n, ext);
    assert t == (dir + pre) + f;
    assert t[|t| - 1] == f[|f| - 1];
  }

  lemma MdImageShape(x: Piece)
    requires x.MdImage? && WellFormed(x)
    ensures var s := Show(x);
      |s| >= 4 && s[0] == '!' && s[1] == '[' && s[|s| - 1] == ')' && '<' !in s && '"' !in s
  {
    var t := Target(x.dir, x.prefix, x.n, x.ext);
    TargetChars(x.dir, x.prefix, x.n, x.ext);
    var s := Show(x);
    var h := "![" + x.alt + "](";
    assert s == h + t + ")";
    assert s[0] == h[0] && s[1] == h[1];
  }

  lemma HtmlImgShape(x: Piece)
    requires x.HtmlImg? && WellFormed(x)
    ensures var s := Show(x);
      |s| >= 4 && s[..4] == "<img" && ']' !in s && '[' !in s && '<' !in s[1..]
  {
    var t := Target(x.dir, x.prefix, x.n, x.ext);
    TargetChars(x.dir, x.prefix, x.n, x.ext);
    var s := Show(x);
    assert s == "<" + ("img " + x.attrs + "src=\"" + t + "\"" + x.tail + ">");
    assert s[1..] == "img " + x.attrs + "src=\"" + t + "\"" + x.tail + ">";
  }

  lemma TableCiteShape(x: Piece)
    requires x.TableCite? && WellFormed(x)
    ensures var s := Show(x);
      |s| >= 4 && s[0] == '[' && s[|s| - 1] == ']' && (forall i :: 0 <= i < |s| ==> s[i] != '"' && s[i] != '<' && s[i] != '(')
  {
    var d := NatToString(x.n);
    assert forall i :: 0 <= i < |d| ==> IsDigit(d[i]);
  }

  lemma MarkerEnds(k: int)
    ensures var s := Marker(k); |s| > 0 && s[0] == '<' && s[|s| - 1] == '>'
  {
  }

  /** A piece that is not plain text starts with its opening, and an image link's `!` is followed by `[`. */
  lemma ShowOpening(x: Piece)
    requires !x.Words? && WellFormed(x)
    ensures var s := Show(x);
      s != [] && s[0] == Opening(x) && (x.MdImage? ==> |s| > 1 && s[1] == '[')
  {
    match x
    case PageMark(k) => MarkerEnds(k);
    case MdImage(_, _, _, _, _) => MdImageShape(x);
    case HtmlImg(_, _, _, _, _, _) =>
      HtmlImgShape(x);
      assert Show(x)[..4][0] == '<';
    case TableCite(_, _) => TableCiteShape(x);
  }

  /** The characters a piece other than plain text opens with. */
  predicate Stop(c: char) { c == '<' || c == '!' || c == '[' }

  /**
   * A text made of pieces starts with its lead. Whatever follows the lead
   * comes after the opening of a piece other than plain text, and after a
   * `!` comes `[`.
   */
  lemma {:induction false} RenderLead(ps: seq<Piece>)
    requires AllWellFormed(ps)
    ensures StartsWith(Render(ps), Lead(ps))
    ensures var r, l := Render(ps), Lead(ps);
      |r| > |l| ==> l != [] && Stop(l[|l| - 1]) && (l[|l| - 1] == '!' ==> r[|l|] == '[')
    decreases |ps|
  {
    if ps != [] {
      var rest := ps[1..];
      if ps[0].Words? {
        RenderLead(rest);
        LeadAfterWords(ps[0].text, Render(rest), Lead(rest));
      } else {
        ShowOpening(ps[0]);
        var s := Show(ps[0]);
        assert Render(ps) == s + Render(rest);
        assert (s + Render(rest))[..1] == [s[0]];
        if ps[0].MdImage? {
          assert (s + Render(rest))[1] == s[1];
        }
      }
    }
  }

  lemma LeadAfterWords(w: string, r: string, l: string)
    requires StartsWith(r, l)
    requires |r| > |l| ==> l != [] && Stop(l[|l| - 1]) && (l[|l| - 1] == '!' ==> r[|l|] == '[')
    ensures StartsWith(w + r, w + l)
    ensures var r', l' := w + r, w + l;
      |r'| > |l'| ==> l' != [] && Stop(l'[|l'| - 1]) && (l'[|l'| - 1] == '!' ==> r'[|l'|] == '[')
  {
    assert (w + r)[..|w + l|] == w + r[..|l|];
    if |r| > |l| {
      assert (w + l)[|w + l| - 1] == l[|l| - 1];
      assert (w + r)[|w + l|] == r[|l|];
    }
  }

  /**
   * Past its first character, a literal start holds no opening of a piece,
   * except a `!` that is not followed by `[`.
   */
  predicate Tame(n: string)
  {
    forall i :: 0 < i < |n| ==> !Stop(n[i]) || (n[i] == '!' && i + 1 < |n| && n[i + 1] != '[')
  }

  lemma LiteralsTame()
    ensures Tame("<!-- Page ") && Tame("](") && Tame("src=\"") && Tame("[tbl-")
  {
    forall i | 0 < i < 2 ensures !Stop("]("[i]) { assert i == 1; }
    forall i | 0 < i < 5 ensures !Stop("src=\""[i]) { assert i == 1 || i == 2 || i == 3 || i == 4; }
    forall i | 0 < i < 5 ensures !Stop("[tbl-"[i]) { assert i == 1 || i == 2 || i == 3 || i == 4; }
  }

  /**
   * The patterns' literal starts are tame. So a literal start that begins
   * in `u` cannot run on past an opening by which `u` ends.
   */
  lemma OpensWithin(u: string, s: string)
    requires !Opens(u) && |u| <= |s| && s[..|u|] == u
    requires |s| > |u| ==> |u| >= 2 && Stop(u[|u| - 1]) && (u[|u| - 1] == '!' ==> s[|u|] == '[')
    ensures !Opens(s)
  {
    if |s| > |u| {
      LiteralsTame();
      TameRunOn(u, s, "<!-- Page ");
      TameRunOn(u, s, "](");
      TameRunOn(u, s, "src=\"");
      TameRunOn(u, s, "[tbl-");
    } else {
      assert s == s[..|u|];
    }
  }

  /** A tame literal start that `u` does not show is not shown by `s` either, when `u` ends by an opening. */
  lemma TameRunOn(u: string, s: string, n: string)
    requires |u| < |s| && s[..|u|] == u && !StartsWith(u, n) && Tame(n)
    requires |u| >= 2 && Stop(u[|u| - 1]) && (u[|u| - 1] == '!' ==> s[|u|] == '[')
    ensures !StartsWith(s, n)
  {
    var k := |u| - 1;
    assert s[..|u|][k] == s[k];
    if |n| <= |u| {
      assert u[..|n|] == s[..|n|];
    } else if |n| <= |s| {
      assert s[..|n|][k] == s[k];
      assert s[..|n|][k + 1] == s[k + 1];
    }
  }

  /** Plain text clear up to the lead of what follows is clear in all of it. */
  lemma ClearOnward(w: string, lead: string, t: string)
    requires ClearIn(w, lead) && StartsWith(t, lead)
    requires |t| > |lead| ==> lead != [] && Stop(lead[|lead| - 1]) && (lead[|lead| - 1] == '!' ==> t[|lead|] == '[')
    ensures ClearIn(w, t)
  {
    forall j | 0 <= j < |w|
      ensures !Opens((w + t)[j..])
    {
      var u := (w + lead)[j..];
      var s := (w + t)[j..];
      assert s[..|u|] == u by {
        assert t[..|lead|] == lead;
        forall i | 0 <= i < |u| ensures s[i] == u[i] {
          if j + i >= |w| {
            assert s[i] == t[j + i - |w|] && u[i] == lead[j + i - |w|];
          }
        }
      }
      if |s| > |u| {
        assert u[|u| - 1] == lead[|lead| - 1];
        assert s[|u|] == t[|lead|];
      }
      OpensWithin(u, s);
    }
  }

  /** What follows a table reference does not start with `(`, when its lead does not. */
  lemma NoParenOnward(lead: string, t: string)
    requires lead == [] || lead[0] != '('
    requires StartsWith(t, lead) && (|t| > |lead| ==> lead != [])
    ensures t == [] || t[0] != '('
  {
    if lead != [] {
      assert t[..|lead|][0] == t[0];
    }
  }

  // ---------------------------------------------------------------------------
  // Copying where no match can start, and replacing where one does

  /** The position of the literal character that no copied text holds: `"` for the `src` pattern, else the first. */
  function KeyIndex(p: Pattern): (j: nat)
    ensures j < |Needle(p)|
  {
    if p.HtmlImage? then 4 else 0
  }

  /**
   * A text lacking the pattern's key character is copied, whatever follows:
   * no match can start in it, and for the `src` pattern it does not end
   * partway into a `src="`.
   */
  lemma {:induction false} Inert(p: Pattern, s: string, t: string)
    requires Needle(p)[KeyIndex(p)] !in s
    requires p.HtmlImage? && s != [] ==> s[|s| - 1] !in "src="
    ensures Sub(p, s + t) == s + Sub(p, t)
    decreases |s|
  {
    if s != [] {
      InertHead(p, s, t);
      CopyHead(p, s, t);
      if |s| > 1 {
        assert s[1..][|s| - 2] == s[|s| - 1];
      }
      Inert(p, s[1..], t);
      HeadRest(s, Sub(p, t));
    } else {
      assert s + t == t;
    }
  }

  lemma InertHead(p: Pattern, s: string, t: string)
    requires s != [] && Needle(p)[KeyIndex(p)] !in s
    requires p.HtmlImage? ==> s[|s| - 1] !in "src="
    ensures !StartsWith(s + t, Needle(p))
  {
    var u := s + t;
    if |u| >= |Needle(p)| {
      if p.HtmlImage? {
        if |s| >= 5 {
          assert u[..5][4] == s[4];
        } else {
          assert u[..5][|s| - 1] == s[|s| - 1];
          assert "src=\""[..4] == "src=";
          assert u[..5][..4][|s| - 1] == s[|s| - 1];
        }
      } else {
        assert u[..|Needle(p)|][0] == s[0];
      }
    }
  }

  /** Plain text in which no pattern's literal start begins, reading on into what follows, is copied. */
  lemma {:induction false} WordsCopied(p: Pattern, w: string, t: string)
    requires ClearIn(w, t)
    ensures Sub(p, w + t) == w + Sub(p, t)
    decreases |w|
  {
    if w != [] {
      ClearHead(p, w, t);
      CopyHead(p, w, t);
      ClearTail(w, t);
      WordsCopied(p, w[1..], t);
      HeadRest(w, Sub(p, t));
    } else {
      assert w + t == t;
    }
  }

  lemma ClearHead(p: Pattern, w: string, t: string)
    requires w != [] && ClearIn(w, t)
    ensures !StartsWith(w + t, Needle(p))
  {
    assert (w + t)[0..] == w + t;
  }

  lemma ClearTail(w: string, t: string)
    requires w != [] && ClearIn(w, t)
    ensures ClearIn(w[1..], t)
  {
    forall j | 0 <= j < |w[1..]| ensures !Opens((w[1..] + t)[j..]) {
      assert (w[1..] + t)[j..] == (w + t)[j + 1..];
    }
  }

  lemma CopyHead(p: Pattern, s: string, t: string)
    requires s != [] && !StartsWith(s + t, Needle(p))
    ensures Sub(p, s + t) == [s[0]] + Sub(p, s[1..] + t)
  {
    SubCopies(p, s + t);
    assert (s + t)[1..] == s[1..] + t;
  }

  /** A match covering exactly `u` is replaced, and the scan goes on with what follows. */
  lemma MatchedThen(p: Pattern, u: string, t: string, replacement: string)
    requires MatchesWith(p, u + t, |u|, replacement)
    ensures Sub(p, u + t) == replacement + Sub(p, t)
  {
    calc {
      Sub(p, u + t);
      { SubAfterMatch(p, u + t, |u|, replacement); }
      replacement + Sub(p, (u + t)[|u|..]);
      { assert (u + t)[|u|..] == t; }
      replacement + Sub(p, t);
    }
  }

  /** Where no match starts, the first character is copied and the scan goes on with the rest of `s`. */
  lemma UnmatchedThen(p: Pattern, s: string, t: string)
    requires s != [] && MatchAt(p, s + t).None?
    ensures Sub(p, s + t) == [s[0]] + Sub(p, s[1..] + t)
  {
    calc {
      Sub(p, s + t);
      { SubNoMatch(p, s + t); }
      [(s + t)[0]] + Sub(p, (s + t)[1..]);
      { assert (s + t)[1..] == s[1..] + t; }
      [s[0]] + Sub(p, s[1..] + t);
    }
  }

  lemma HeadRest(m: string, x: string)
    requires m != []
    ensures [m[0]] + (m[1..] + x) == m + x
  {
    assert m == [m[0]] + m[1..];
  }

  /** A text at whose start no match begins, and whose rest lacks the key character, is copied. */
  lemma FirstCopied(p: Pattern, m: string, t: string)
    requires m != [] && MatchAt(p, m + t).None?
    requires Needle(p)[KeyIndex(p)] !in m[1..] && (p.HtmlImage? ==> m[|m| - 1] !in "src=")
    ensures Sub(p, m + t) == m + Sub(p, t)
  {
    UnmatchedThen(p, m, t);
    assert m[1..] != [] ==> m[1..][|m[1..]| - 1] == m[|m| - 1];
    Inert(p, m[1..], t);
    HeadRest(m, Sub(p, t));
  }

  /** A text that does not start with the pattern's literal start is not a match. */
  lemma NotStartNoMatch(p: Pattern, s: string)
    requires !StartsWith(s, Needle(p))
    ensures MatchAt(p, s).None?
  {
  }

  // ---------------------------------------------------------------------------
  // Page markers

  lemma MarkShifted(k: nat, t: string, offset: int)
    ensures Sub(PageMarker(offset), Marker(k) + t) == Marker(k + offset) + Sub(PageMarker(offset), t)
  {
    MatchMarker(k, t, offset);
    MatchedThen(PageMarker(offset), Marker(k), t, Marker(k + offset));
  }

  lemma MarkerTail(k: int)
    ensures '<' !in Marker(k)[1..]
  {
    var d := IntToString(k);
    assert forall i :: 0 <= i < |d| ==> IsDigit(d[i]) || d[i] == '-';
    assert Marker(k)[1..] == "!-- Page " + d + " -->";
  }

  /** A marker with a negative number is not one the pattern reads, having no digit after `Page `. */
  lemma NegativeMarkerKept(k: int, t: string, offset: int)
    requires k < 0
    ensures MatchAt(PageMarker(offset), Marker(k) + t).None?
  {
    var s := Marker(k) + t;
    assert s == "<!-- Page " + ("-" + NatToString(-k) + " -->" + t);
    assert s[10..] == "-" + NatToString(-k) + " -->" + t;
    assert s[10] == '-';
  }

  lemma NegativeMarkCopied(k: int, t: string, offset: int)
    requires k < 0
    ensures Sub(PageMarker(offset), Marker(k) + t) == Marker(k) + Sub(PageMarker(offset), t)
  {
    NegativeMarkerKept(k, t, offset);
    MarkerTail(k);
    FirstCopied(PageMarker(offset), Marker(k), t);
  }

  lemma MarkPiece(p: Pattern, k: int, t: string)
    ensures Sub(p, Marker(k) + t) == Show(Pass(p, PageMark(k))) + Sub(p, t)
  {
    if p.PageMarker? {
      if k >= 0 {
        MarkShifted(k, t, p.offset);
      } else {
        NegativeMarkCopied(k, t, p.offset);
      }
    } else {
      MarkerSafe(k);
      Inert(p, Marker(k), t);
    }
  }

  lemma WordsPiece(p: Pattern, w: string, t: string)
    requires ClearIn(w, t)
    ensures Sub(p, w + t) == Show(Pass(p, Words(w))) + Sub(p, t)
  {
    WordsCopied(p, w, t);
  }

  // ---------------------------------------------------------------------------
  // Markdown image links

  /** The link end of an image with no directory and no prefix yet is rewritten by either link pattern. */
  lemma LinkMatched(q: string, dir: string, n: nat, ext: string, t: string)
    requires DirOk(dir) && IsExtension(ext)
    ensures Sub(MarkdownImage(q), LinkEnd(Target(dir, "", n, ext)) + t)
         == LinkEnd(Target(dir, q, n, ext)) + Sub(MarkdownImage(q), t)
  {
    var name := ImageFile(n, ext);
    assert Target(dir, "", n, ext) == dir + name;
    assert LinkEnd(Target(dir, "", n, ext)) == "](" + dir + name + ")";
    assert LinkEnd(Target(dir, q, n, ext)) == "](" + dir + q + name + ")";
    MatchMarkdownImage(dir, n, ext, t, q);
    MatchedThen(MarkdownImage(q), "](" + dir + name + ")", t, "](" + dir + q + name + ")");
  }

  lemma BareLinkMoved(n: nat, ext: string, t: string)
    requires IsExtension(ext)
    ensures Sub(ImagesLink, LinkEnd(Target("", "", n, ext)) + t)
         == LinkEnd(Target("images/", "", n, ext)) + Sub(ImagesLink, t)
  {
    var name := ImageFile(n, ext);
    assert Target("", "", n, ext) == name;
    assert LinkEnd(Target("", "", n, ext)) == "](" + name + ")";
    assert LinkEnd(Target("images/", "", n, ext)) == "](images/" + name + ")";
    MatchImagesLink(n, ext, t);
    MatchedThen(ImagesLink, "](" + name + ")", t, "](images/" + name + ")");
  }

  /** A link end the pattern does not take is copied. */
  lemma LinkKept(p: Pattern, target: string, t: string)
    requires p.MarkdownImage? || p.ImagesLink?
    requires Plain(target) && MatchAt(p, LinkEnd(target) + t).None?
    ensures Sub(p, LinkEnd(target) + t) == LinkEnd(target) + Sub(p, t)
  {
    assert LinkEnd(target)[1..] == "(" + target + ")";
    FirstCopied(p, LinkEnd(target), t);
  }

  /** A target under `images/`, or behind a prefix, does not start with `img-`. */
  lemma TargetNoImg(dir: string, pre: string, n: nat, ext: string, t: string)
    requires DirOk(dir) && PrefixOk(pre) && IsExtension(ext)
    requires dir != "" || pre != ""
    ensures !StartsWith(Target(dir, pre, n, ext) + t, "img-")
  {
    var s := Target(dir, pre, n, ext) + t;
    ImageFileChars(n, ext);
    if dir != "" {
      assert s == "images/" + (pre + ImageFile(n, ext) + t);
      assert s[..4] == "imag";
    } else {
      assert s == pre + (ImageFile(n, ext) + t);
      assert s[0] == pre[0];
      if |s| >= 4 {
        assert s[..4][0] == s[0];
      }
    }
  }

  /** Whether a link pattern takes the link of an image: the merger's when it has no prefix, the storage's when it has no directory either. */
  predicate LinkTaken(p: Pattern, x: Piece)
    requires x.MdImage?
  {
    x.prefix == "" && (p.ImagesLink? ==> x.dir == "")
  }

  /** Neither link pattern takes a link end whose target has a prefix; the storage rewrite not one under `images/` either. */
  lemma LinkEndUntaken(p: Pattern, x: Piece, t: string)
    requires x.MdImage? && WellFormed(x) && PatternOk(p)
    requires p.MarkdownImage? || p.ImagesLink?
    requires !LinkTaken(p, x)
    ensures MatchAt(p, LinkEnd(Target(x.dir, x.prefix, x.n, x.ext)) + t).None?
  {
    var name := ImageFile(x.n, x.ext);
    var target := Target(x.dir, x.prefix, x.n, x.ext);
    ImageFileChars(x.n, x.ext);
    if p.MarkdownImage? {
      var rest := x.prefix + name + ")" + t;
      assert rest[0] == x.prefix[0];
      assert LinkEnd(target) + t == "](" + x.dir + rest;
      NoMatchPrefixedImage(x.dir, rest, p.prefix);
    } else {
      var rest := target + ")" + t;
      TargetNoImg(x.dir, x.prefix, x.n, x.ext, ")" + t);
      assert rest == target + (")" + t);
      assert LinkEnd(target) + t == "](" + rest;
      NoMatchImagesLink(rest);
    }
  }

  /** The link end of an image: rewritten when the pattern takes it, copied otherwise. */
  lemma LinkEndSub(p: Pattern, x: Piece, t: string)
    requires x.MdImage? && WellFormed(x) && PatternOk(p)
    requires p.MarkdownImage? || p.ImagesLink?
    ensures var y := Pass(p, x);
      Sub(p, LinkEnd(Target(x.dir, x.prefix, x.n, x.ext)) + t)
        == LinkEnd(Target(y.dir, y.prefix, y.n, y.ext)) + Sub(p, t)
  {
    if !LinkTaken(p, x) {
      TargetChars(x.dir, x.prefix, x.n, x.ext);
      LinkEndUntaken(p, x, t);
      LinkKept(p, Target(x.dir, x.prefix, x.n, x.ext), t);
    } else if p.MarkdownImage? {
      LinkMatched(p.prefix, x.dir, x.n, x.ext, t);
    } else {
      BareLinkMoved(x.n, x.ext, t);
    }
  }

  lemma MdImageLinked(p: Pattern, x: Piece, t: string)
    requires x.MdImage? && WellFormed(x) && PatternOk(p)
    requires p.MarkdownImage? || p.ImagesLink?
    ensures Sub(p, Show(x) + t) == Show(Pass(p, x)) + Sub(p, t)
  {
    var y := Pass(p, x);
    var head := "![" + x.alt;
    var e := LinkEnd(Target(x.dir, x.prefix, x.n, x.ext));
    var e' := LinkEnd(Target(y.dir, y.prefix, y.n, y.ext));
    calc {
      Sub(p, Show(x) + t);
      { Assoc3(head, e, t); }
      Sub(p, head + (e + t));
      { SubSkip(p, head, e + t, 0); }
      head + Sub(p, e + t);
      { LinkEndSub(p, x, t); }
      head + (e' + Sub(p, t));
      { assert Show(y) == head + e'; }
      Show(y) + Sub(p, t);
    }
  }

  lemma AltNotTable(alt: string, rest: string)
    requires Plain(alt) && !StartsWith(alt, "tbl-")
    requires rest != [] && rest[0] == ']'
    ensures !StartsWith("[" + (alt + rest), "[tbl-")
  {
    var s := "[" + (alt + rest);
    if |alt| >= 4 {
      assert s[1..5] == alt[..4];
    } else {
      assert s[1 + |alt|] == ']';
    }
  }

  /** The table pattern copies an image link: its `[` is followed by text that is not `tbl-`. */
  lemma MdImageCited(p: Pattern, x: Piece, t: string)
    requires x.MdImage? && WellFormed(x) && p.TableRef?
    ensures Sub(p, Show(x) + t) == Show(x) + Sub(p, t)
  {
    var e := LinkEnd(Target(x.dir, x.prefix, x.n, x.ext));
    var body := x.alt + e;
    TargetChars(x.dir, x.prefix, x.n, x.ext);
    calc {
      Sub(p, Show(x) + t);
      { BangOpen(x.alt, e, t); SubSkip(p, "!", "[" + body + t, 0); }
      "!" + Sub(p, "[" + body + t);
      { AltCopied(p, x.alt, e, t); }
      "!" + ("[" + body + Sub(p, t));
      { BangOpen(x.alt, e, Sub(p, t)); }
      Show(x) + Sub(p, t);
    }
  }

  lemma AltCopied(p: Pattern, alt: string, e: string, t: string)
    requires p.TableRef? && Plain(alt) && !StartsWith(alt, "tbl-")
    requires e != [] && e[0] == ']' && '[' !in e
    ensures Sub(p, "[" + (alt + e) + t) == "[" + (alt + e) + Sub(p, t)
  {
    var m := "[" + (alt + e);
    assert m + t == "[" + (alt + (e + t));
    AltNotTable(alt, e + t);
    NotStartNoMatch(p, m + t);
    assert m[1..] == alt + e;
    FirstCopied(p, m, t);
  }

  lemma MdImagePiece(p: Pattern, x: Piece, t: string)
    requires x.MdImage? && WellFormed(x) && PatternOk(p)
    ensures Sub(p, Show(x) + t) == Show(Pass(p, x)) + Sub(p, t)
  {
    match p
    case PageMarker(_) => MdImageShape(x); Inert(p, Show(x), t);
    case HtmlImage(_) => MdImageShape(x); Inert(p, Show(x), t);
    case MarkdownImage(_) => MdImageLinked(p, x, t);
    case ImagesLink => MdImageLinked(p, x, t);
    case TableRef(_) => MdImageCited(p, x, t);
  }

  // ---------------------------------------------------------------------------
  // HTML image tags

  /** A prefixed name in a `src` attribute is not an image name, whether or not `images/` stands before it. */
  lemma NoMatchPrefixedSrc(dir: string, rest: string, prefix: string)
    requires DirOk(dir)
    requires rest != [] && rest[0] != 'i'
    ensures MatchAt(HtmlImage(prefix), "src=\"" + dir + rest).None?
  {
    var s := "src=\"" + dir + rest;
    assert s[..5] == "src=\"";
    assert s[5..] == dir + rest;
    NotImagesStart(rest);
    ImageDirOf(dir, rest);
    assert s[5 + |dir|..] == rest;
    assert !StartsWith(rest, "img-") by {
      if |rest| >= 4 {
        assert rest[..4][0] == rest[0];
      }
    }
  }

  /** No `src="` starts in a text that ends in a letter, holds no `"` and is followed by `"`. */
  lemma QuoteAhead(s: string, rest: string)
    requires '"' !in s && s != [] && IsLower(s[|s| - 1])
    requires rest != [] && rest[0] == '"'
    ensures !StartsWith(s + rest, "src=\"")
  {
    var u := s + rest;
    if |u| >= 5 {
      if |s| >= 5 {
        assert u[..5][4] == s[4];
      } else if |s| == 4 {
        assert u[..5][3] == s[3];
      } else {
        assert u[..5][|s|] == rest[0];
      }
    }
  }

  /**
   * No `src="` starts inside a text without `"` that ends in a letter and is
   * followed by `"`: the quote comes too early, or after a letter where the
   * pattern wants `=`.
   */
  lemma {:induction false} SubBeforeQuote(p: Pattern, s: string, rest: string)
    requires p.HtmlImage?
    requires '"' !in s && (s == [] || IsLower(s[|s| - 1]))
    requires rest != [] && rest[0] == '"'
    ensures Sub(p, s + rest) == s + Sub(p, rest)
    decreases |s|
  {
    if s == [] {
      assert s + rest == rest;
    } else {
      var tail := s[1..];
      calc {
        Sub(p, s + rest);
        { QuoteAhead(s, rest); CopyHead(p, s, rest); }
        [s[0]] + Sub(p, tail + rest);
        { assert tail == [] || tail[|tail| - 1] == s[|s| - 1]; SubBeforeQuote(p, tail, rest); }
        [s[0]] + (tail + Sub(p, rest));
        { HeadRest(s, Sub(p, rest)); }
        s + Sub(p, rest);
      }
    }
  }

  lemma SrcMatched(q: string, dir: string, n: nat, ext: string, rest: string)
    requires DirOk(dir) && IsExtension(ext)
    ensures Sub(HtmlImage(q), SrcAttr(Target(dir, "", n, ext)) + rest)
         == SrcAttr(Target(dir, q, n, ext)) + Sub(HtmlImage(q), rest)
  {
    var name := ImageFile(n, ext);
    assert Target(dir, "", n, ext) == dir + name;
    assert SrcAttr(Target(dir, "", n, ext)) == "src=\"" + dir + name + "\"";
    assert SrcAttr(Target(dir, q, n, ext)) == "src=\"" + dir + q + name + "\"";
    MatchHtmlImage(dir, n, ext, rest, q);
    MatchedThen(HtmlImage(q), "src=\"" + dir + name + "\"", rest, "src=\"" + dir + q + name + "\"");
  }

  lemma SrcKept(q: string, dir: string, pre: string, n: nat, ext: string, rest: string)
    requires DirOk(dir) && PrefixOk(pre) && pre != "" && IsExtension(ext)
    ensures Sub(HtmlImage(q), SrcAttr(Target(dir, pre, n, ext)) + rest)
         == SrcAttr(Target(dir, pre, n, ext)) + Sub(HtmlImage(q), rest)
  {
    var p := HtmlImage(q);
    var target := Target(dir, pre, n, ext);
    var s := SrcAttr(target);
    TargetChars(dir, pre, n, ext);
    calc {
      Sub(p, s + rest);
      { PrefixedSrcUnmatched(q, dir, pre, n, ext, rest); UnmatchedThen(p, s, rest); }
      [s[0]] + Sub(p, s[1..] + rest);
      { SrcParts(target, rest); SubSkip(p, "rc=\"", target + ("\"" + rest), 0); }
      [s[0]] + ("rc=\"" + Sub(p, target + ("\"" + rest)));
      { SubBeforeQuote(p, target, "\"" + rest); }
      [s[0]] + ("rc=\"" + (target + Sub(p, "\"" + rest)));
      { QuoteCopied(p, rest); }
      [s[0]] + ("rc=\"" + (target + ("\"" + Sub(p, rest))));
      { SrcParts(target, Sub(p, rest)); }
      s + Sub(p, rest);
    }
  }

  lemma PrefixedSrcUnmatched(q: string, dir: string, pre: string, n: nat, ext: string, rest: string)
    requires DirOk(dir) && PrefixOk(pre) && pre != "" && IsExtension(ext)
    ensures SrcAttr(Target(dir, pre, n, ext)) != []
    ensures MatchAt(HtmlImage(q), SrcAttr(Target(dir, pre, n, ext)) + rest).None?
  {
    assert SrcAttr(Target(dir, pre, n, ext)) + rest == "src=\"" + dir + (pre + ImageFile(n, ext) + "\"" + rest);
    NoMatchPrefixedSrc(dir, pre + ImageFile(n, ext) + "\"" + rest, q);
  }

  /** How an attribute `src="target"` splits around its first character. */
  lemma SrcParts(target: string, x: string)
    ensures var s := SrcAttr(target);
      s != [] && s[1..] + x == "rc=\"" + (target + ("\"" + x))
      && [s[0]] + ("rc=\"" + (target + ("\"" + x))) == s + x
  {
    var s := SrcAttr(target);
    assert s == [s[0]] + ("rc=\"" + (target + "\""));
  }

  lemma QuoteCopied(p: Pattern, rest: string)
    requires p.HtmlImage?
    ensures Sub(p, "\"" + rest) == "\"" + Sub(p, rest)
  {
    assert !StartsWith("\"" + rest, "src=\"");
    CopyHead(p, "\"", rest);
    assert ("\"")[1..] + rest == rest;
  }

  /** The `src` pattern skips `<img attrs `, reads the attribute, then copies the rest of the tag. */
  lemma HtmlImgTagged(p: Pattern, x: Piece, t: string)
    requires x.HtmlImg? && WellFormed(x) && p.HtmlImage? && PrefixOk(p.prefix)
    ensures Sub(p, Show(x) + t) == Show(Pass(p, x)) + Sub(p, t)
  {
    var y := Pass(p, x);
    var head := "<img " + x.attrs;
    var a := SrcAttr(Target(x.dir, x.prefix, x.n, x.ext));
    var a' := SrcAttr(Target(y.dir, y.prefix, y.n, y.ext));
    var close := x.tail + ">";
    calc {
      Sub(p, Show(x) + t);
      { TagParts(x, t); }
      Sub(p, head + (a + (close + t)));
      { SrcHeadSkipped(p, head, Target(x.dir, x.prefix, x.n, x.ext), close + t); }
      head + Sub(p, a + (close + t));
      { if x.prefix == "" { SrcMatched(p.prefix, x.dir, x.n, x.ext, close + t); }
        else { SrcKept(p.prefix, x.dir, x.prefix, x.n, x.ext, close + t); } }
      head + (a' + Sub(p, close + t));
      { Inert(p, close, t); }
      head + (a' + (close + Sub(p, t)));
      { TagParts(y, Sub(p, t)); }
      Show(y) + Sub(p, t);
    }
  }

  /** How a rendered `<img>` tag splits into its head, its `src` attribute and its close. */
  lemma TagParts(x: Piece, t: string)
    requires x.HtmlImg?
    ensures Show(x) + t == ("<img " + x.attrs) + (SrcAttr(Target(x.dir, x.prefix, x.n, x.ext)) + ((x.tail + ">") + t))
  {
  }

  /** The `src` pattern copies the start of a tag: a match would need a `"` in it or among the `src=` that follows. */
  lemma SrcHeadSkipped(p: Pattern, head: string, target: string, r: string)
    requires p.HtmlImage? && '"' !in head
    ensures Sub(p, head + (SrcAttr(target) + r)) == head + Sub(p, SrcAttr(target) + r)
  {
    var b := SrcAttr(target) + r;
    assert Needle(p)[4] == '"';
    assert b == "src=" + ("\"" + target + "\"" + r);
    assert forall i :: 0 <= i < 4 ==> b[i] == "src="[i];
    SubSkip(p, head, b, 4);
  }

  lemma HtmlImgPiece(p: Pattern, x: Piece, t: string)
    requires x.HtmlImg? && WellFormed(x) && PatternOk(p)
    ensures Sub(p, Show(x) + t) == Show(Pass(p, x)) + Sub(p, t)
  {
    match p
    case MarkdownImage(_) => HtmlImgShape(x); Inert(p, Show(x), t);
    case ImagesLink => HtmlImgShape(x); Inert(p, Show(x), t);
    case TableRef(_) => HtmlImgShape(x); Inert(p, Show(x), t);
    case PageMarker(_) => HtmlImgCopied(p, x, t);
    case HtmlImage(_) => HtmlImgTagged(p, x, t);
  }

  /** The marker pattern copies an image tag: its `<` starts `<img`, not `<!--`. */
  lemma HtmlImgCopied(p: Pattern, x: Piece, t: string)
    requires x.HtmlImg? && WellFormed(x) && p.PageMarker?
    ensures Sub(p, Show(x) + t) == Show(x) + Sub(p, t)
  {
    var s := Show(x);
    HtmlImgShape(x);
    assert !StartsWith(s + t, "<!-- Page ") by { assert (s + t)[1] == s[..4][1]; }
    NotStartNoMatch(p, s + t);
    FirstCopied(p, s, t);
  }

  // ---------------------------------------------------------------------------
  // Table references

  /** The link patterns copy a table reference: its `]` is not followed by `(`. */
  lemma TableCiteClosed(p: Pattern, body: string, t: string)
    requires ']' !in body && (p.MarkdownImage? || p.ImagesLink?) && (t == [] || t[0] != '(')
    ensures Sub(p, body + "]" + t) == body + "]" + Sub(p, t)
  {
    calc {
      Sub(p, body + "]" + t);
      { Assoc3(body, "]", t); SubSkip(p, body, "]" + t, 0); }
      body + Sub(p, "]" + t);
      { BracketNotLink(p, t); CopyHead(p, "]", t); OneTail(']', t); }
      body + ("]" + Sub(p, t));
    }
  }

  lemma Assoc3(a: string, b: string, c: string)
    ensures a + b + c == a + (b + c)
  {
  }

  lemma OneTail(c: char, t: string)
    ensures [c][1..] + t == t
  {
  }

  /** An image link's text, cut after its `!`. */
  lemma BangOpen(alt: string, e: string, t: string)
    ensures "![" + alt + e + t == "!" + ("[" + (alt + e) + t)
    ensures "![" + alt + e == "!" + ("[" + (alt + e))
  {
  }

  lemma BracketNotLink(p: Pattern, t: string)
    requires (p.MarkdownImage? || p.ImagesLink?) && (t == [] || t[0] != '(')
    ensures !StartsWith("]" + t, Needle(p))
  {
    if |"]" + t| >= 2 {
      assert ("]" + t)[1] == t[0];
    }
  }

  lemma TableCiteMatched(q: string, n: nat, t: string)
    ensures Sub(TableRef(q), Show(TableCite("", n)) + t) == Show(TableCite(q, n)) + Sub(TableRef(q), t)
  {
    var d := NatToString(n);
    assert Show(TableCite("", n)) == "[tbl-" + d + "]";
    assert Show(TableCite(q, n)) == "[" + q + "tbl-" + d + "]";
    MatchTableRef(n, t, q);
    MatchedThen(TableRef(q), "[tbl-" + d + "]", t, "[" + q + "tbl-" + d + "]");
  }

  /** A reference that already has a prefix is not one the table pattern reads. */
  lemma TableCiteKept(q: string, pre: string, n: nat, t: string)
    requires PrefixOk(pre) && pre != ""
    ensures Sub(TableRef(q), Show(TableCite(pre, n)) + t) == Show(TableCite(pre, n)) + Sub(TableRef(q), t)
  {
    var p := TableRef(q);
    var d := NatToString(n);
    var s := Show(TableCite(pre, n));
    var body := pre + "tbl-" + d + "]";
    assert s == "[" + body;
    assert !StartsWith(s + t, "[tbl-") by { assert (s + t)[1] == pre[0]; }
    NotStartNoMatch(p, s + t);
    assert s[1..] == body;
    assert forall i :: 0 <= i < |d| ==> IsDigit(d[i]);
    FirstCopied(p, s, t);
  }

  lemma TableCitePiece(p: Pattern, x: Piece, t: string)
    requires x.TableCite? && WellFormed(x) && PatternOk(p) && (t == [] || t[0] != '(')
    ensures Sub(p, Show(x) + t) == Show(Pass(p, x)) + Sub(p, t)
  {
    match p
    case PageMarker(_) => TableCiteShape(x); Inert(p, Show(x), t);
    case HtmlImage(_) => TableCiteShape(x); Inert(p, Show(x), t);
    case MarkdownImage(_) => TableCiteLinked(p, x, t);
    case ImagesLink => TableCiteLinked(p, x, t);
    case TableRef(q) =>
      if x.prefix == "" {
        TableCiteMatched(q, x.n, t);
      } else {
        TableCiteKept(q, x.prefix, x.n, t);
      }
  }

  lemma TableCiteLinked(p: Pattern, x: Piece, t: string)
    requires x.TableCite? && WellFormed(x) && (p.MarkdownImage? || p.ImagesLink?) && (t == [] || t[0] != '(')
    ensures Sub(p, Show(x) + t) == Show(x) + Sub(p, t)
  {
    var d := NatToString(x.n);
    assert forall i :: 0 <= i < |d| ==> IsDigit(d[i]);
    var body := "[" + x.prefix + "tbl-" + d;
    assert Show(x) == body + "]";
    TableCiteClosed(p, body, t);
  }

  // ---------------------------------------------------------------------------
  // A substitution over a whole text

  lemma SubPiece(p: Pattern, x: Piece, t: string)
    requires WellFormed(x) && PatternOk(p) && (x.Words? ==> ClearIn(x.text, t)) && (x.TableCite? ==> t == [] || t[0] != '(')
    ensures Sub(p, Show(x) + t) == Show(Pass(p, x)) + Sub(p, t)
  {
    match x
    case Words(w) => WordsPiece(p, w, t);
    case PageMark(k) => MarkPiece(p, k, t);
    case MdImage(_, _, _, _, _) => MdImagePiece(p, x, t);
    case HtmlImg(_, _, _, _, _, _) => HtmlImgPiece(p, x, t);
    case TableCite(_, _) => TableCitePiece(p, x, t);
  }

  /** A substitution keeps the pieces well formed. */
  lemma PassWellFormed(p: Pattern, x: Piece)
    requires WellFormed(x) && PatternOk(p)
    ensures WellFormed(Pass(p, x))
  {
  }

  /** A substitution keeps the lead of a text: plain text and the openings of the other pieces stay. */
  lemma {:induction false} LeadPass(p: Pattern, ps: seq<Piece>)
    ensures Lead(PassAll(p, ps)) == Lead(ps)
    decreases |ps|
  {
    if ps != [] {
      var r := PassAll(p, ps);
      assert r[0] == Pass(p, ps[0]) && r[1..] == PassAll(p, ps[1..]);
      if ps[0].Words? {
        LeadPass(p, ps[1..]);
      }
    }
  }

  lemma {:induction false} PassAllWellFormed(p: Pattern, ps: seq<Piece>)
    requires AllWellFormed(ps) && PatternOk(p)
    ensures AllWellFormed(PassAll(p, ps))
    decreases |ps|
  {
    if ps != [] {
      PassWellFormed(p, ps[0]);
      PassAllWellFormed(p, ps[1..]);
      LeadPass(p, ps[1..]);
      var r := PassAll(p, ps);
      assert r[0] == Pass(p, ps[0]) && r[1..] == PassAll(p, ps[1..]);
    }
  }

  /**
   * `re.sub` over a text made of well-formed pieces maps it piece by piece:
   * every marker, every reference, and the text between them, in order.
   */
  lemma {:induction false} SubRender(p: Pattern, ps: seq<Piece>)
    requires AllWellFormed(ps) && PatternOk(p)
    ensures Sub(p, Render(ps)) == Render(PassAll(p, ps))
    decreases |ps|
  {
    if ps != [] {
      var x, rest := ps[0], ps[1..];
      RenderLead(rest);
      if x.Words? {
        ClearOnward(x.text, Lead(rest), Render(rest));
      } else if x.TableCite? {
        NoParenOnward(Lead(rest), Render(rest));
      }
      SubPiece(p, x, Render(rest));
      SubRender(p, rest);
      var r := PassAll(p, ps);
      assert r[0] == Pass(p, x) && r[1..] == PassAll(p, rest);
    }
  }

  // ---------------------------------------------------------------------------
  // Texts that are well formed

  /** Text without `<`, `[`, `]` and `"`: it may hold parentheses. */
  predicate Prose(s: string)
  {
    '<' !in s && ']' !in s && '[' !in s && '"' !in s
  }

  /** Prose is clear before anything without `"`. */
  lemma PlainClear(a: string, t: string)
    requires Prose(a) && '"' !in t
    ensures ClearIn(a, t)
  {
    forall j | 0 <= j < |a|
      ensures !Opens((a + t)[j..])
    {
      var s := (a + t)[j..];
      assert s[0] == a[j];
      if |s| >= 5 {
        assert s[..5][4] == s[4];
        if j + 4 < |a| {
          assert s[4] == a[j + 4];
        } else {
          assert s[4] == t[j + 4 - |a|];
        }
      }
    }
  }

  /** One piece other than plain text between two proses is well formed, unless a table reference is followed by `(`. */
  lemma PlainAround(a: string, x: Piece, b: string)
    requires Prose(a) && Prose(b) && WellFormed(x) && !x.Words? && (x.TableCite? ==> b == [] || b[0] != '(')
    ensures AllWellFormed([Words(a), x, Words(b)])
  {
    var ps := [Words(a), x, Words(b)];
    assert ps[1..] == [x, Words(b)] && ps[1..][1..] == [Words(b)] && [Words(b)][1..] == [];
    PlainClear(a, [Opening(x)]);
    PlainClear(b, []);
    assert Lead([Words(b)]) == b + Lead([]);
    assert Lead([x, Words(b)]) == [Opening(x)];
    assert AllWellFormed([Words(b)]);
    assert Fits(x, b);
    assert AllWellFormed([x, Words(b)]);
  }

  /** Prose with a parenthesised figure reference, then an image link, is well formed. */
  lemma FigureAfterProse()
    ensures AllWellFormed([Words("results (see Fig. 1)\n\n"), MdImage("Figure 1", "", "", 1, "jpeg"), Words("\n")])
  {
    FigureParts();
    PlainAround("results (see Fig. 1)\n\n", MdImage("Figure 1", "", "", 1, "jpeg"), "\n");
  }

  lemma FigureParts()
    ensures Prose("results (see Fig. 1)\n\n") && Prose("\n") && WellFormed(MdImage("Figure 1", "", "", 1, "jpeg"))
  {
    FigureText();
    FigureImage();
  }

  lemma FigureText()
    ensures Prose("results (see Fig. 1)\n\n")
  {
  }

  lemma FigureImage()
    ensures Plain("Figure 1") && !StartsWith("Figure 1", "tbl-") && IsExtension("jpeg")
  {
    assert "Figure 1"[..4][0] == 'F';
    forall i | 0 <= i < 4 ensures IsLower("jpeg"[i]) { assert i == 0 || i == 1 || i == 2 || i == 3; }
  }

  /** A line break is clear before anything. */
  lemma NewlineClear(t: string)
    ensures ClearIn("\n", t)
  {
    assert ("\n" + t)[0..][0] == '\n';
  }

  /** Plain text clear before a lead stays clear when a line break and more follow that lead: no literal start holds a line break. */
  lemma NewlineOnward(w: string, l: string, m: string)
    requires ClearIn(w, l)
    ensures ClearIn(w, l + "\n" + m)
  {
    forall j | 0 <= j < |w|
      ensures !Opens((w + (l + "\n" + m))[j..])
    {
      var u := (w + l)[j..];
      var s := (w + (l + "\n" + m))[j..];
      assert s == u + "\n" + m;
      BreakStops(u, m, "<!-- Page ");
      BreakStops(u, m, "](");
      BreakStops(u, m, "src=\"");
      BreakStops(u, m, "[tbl-");
    }
  }

  lemma BreakStops(u: string, m: string, n: string)
    requires '\n' !in n && !StartsWith(u, n)
    ensures !StartsWith(u + "\n" + m, n)
  {
    var s := u + "\n" + m;
    if |n| <= |u| {
      assert u[..|n|] == s[..|n|];
    } else if |n| <= |s| {
      assert s[..|n|][|u|] == s[|u|] == '\n';
    }
  }

  /** The lead of two texts joined by a line break: the first one's, and the rest only when the first is all plain text. */
  lemma {:induction false} LeadJoin(xs: seq<Piece>, ys: seq<Piece>)
    ensures var l := Lead(xs + [Words("\n")] + ys);
      l == Lead(xs) || l == Lead(xs) + "\n" + Lead(ys)
    decreases |xs|
  {
    var zs := xs + [Words("\n")] + ys;
    if xs == [] {
      assert zs == [Words("\n")] + ys && zs[1..] == ys;
    } else {
      assert zs[0] == xs[0] && zs[1..] == xs[1..] + [Words("\n")] + ys;
      LeadJoin(xs[1..], ys);
    }
  }

  /** Two well-formed texts joined by a line break are well formed. */
  lemma {:induction false} NewlineJoin(xs: seq<Piece>, ys: seq<Piece>)
    requires AllWellFormed(xs) && AllWellFormed(ys)
    ensures AllWellFormed(xs + [Words("\n")] + ys)
    decreases |xs|
  {
    var zs := xs + [Words("\n")] + ys;
    if xs == [] {
      assert zs == [Words("\n")] + ys && zs[1..] == ys;
      NewlineClear(Lead(ys));
    } else {
      var x := xs[0];
      assert zs[0] == x && zs[1..] == xs[1..] + [Words("\n")] + ys;
      NewlineJoin(xs[1..], ys);
      LeadJoin(xs[1..], ys);
      var l := Lead(xs[1..]);
      if Lead(zs[1..]) != l {
        if x.Words? {
          NewlineOnward(x.text, l, Lead(ys));
        } else if x.TableCite? && l != [] {
          assert (l + "\n" + Lead(ys))[0] == l[0];
        }
      }
    }
  }

  // ---------------------------------------------------------------------------
  // One piece between two plain texts

  /** The text of a piece between two plain texts. */
  lemma Between(a: string, x: Piece, b: string)
    ensures Render([Words(a), x, Words(b)]) == a + Show(x) + b
  {
    assert [Words(a), x, Words(b)][1..] == [x, Words(b)];
    assert [x, Words(b)][1..] == [Words(b)];
    assert [Words(b)][1..] == [];
    assert Render([Words(b)]) == b;
    assert Render([x, Words(b)]) == Show(x) + b;
  }


  lemma MdImageText(a: string, alt: string, dir: string, pre: string, n: nat, ext: string, b: string)
    ensures a + Show(MdImage(alt, dir, pre, n, ext)) + b == a + "![" + alt + "](" + dir + pre + ImageFile(n, ext) + ")" + b
  {
    LinkText(a, alt, dir, pre, ImageFile(n, ext), b);
  }

  lemma BareMdImageText(a: string, alt: string, dir: string, n: nat, ext: string, b: string)
    ensures a + Show(MdImage(alt, dir, "", n, ext)) + b == a + "![" + alt + "](" + dir + ImageFile(n, ext) + ")" + b
  {
    LinkText(a, alt, dir, "", ImageFile(n, ext), b);
    NoPrefix(dir, ImageFile(n, ext));
  }

  lemma LinkText(a: string, alt: string, dir: string, pre: string, f: string, b: string)
    ensures a + ("![" + alt + LinkEnd(dir + pre + f)) + b == a + "![" + alt + "](" + dir + pre + f + ")" + b
  {
  }

  lemma NoPrefix(dir: string, f: string)
    ensures dir + "" + f == dir + f
  {
  }

  lemma HtmlImgText(a: string, attrs: string, dir: string, pre: string, n: nat, ext: string, tail: string, b: string)
    ensures a + Show(HtmlImg(attrs, dir, pre, n, ext, tail)) + b
         == a + "<img " + attrs + "src=\"" + dir + pre + ImageFile(n, ext) + "\"" + tail + ">" + b
  {
    TagText(a, attrs, dir, pre, ImageFile(n, ext), tail, b);
  }

  lemma BareHtmlImgText(a: string, attrs: string, dir: string, n: nat, ext: string, tail: string, b: string)
    ensures a + Show(HtmlImg(attrs, dir, "", n, ext, tail)) + b
         == a + "<img " + attrs + "src=\"" + dir + ImageFile(n, ext) + "\"" + tail + ">" + b
  {
    TagText(a, attrs, dir, "", ImageFile(n, ext), tail, b);
    NoPrefix(dir, ImageFile(n, ext));
  }

  lemma TagText(a: string, attrs: string, dir: string, pre: string, f: string, tail: string, b: string)
    ensures a + ("<img " + attrs + SrcAttr(dir + pre + f) + (tail + ">")) + b
         == a + "<img " + attrs + "src=\"" + dir + pre + f + "\"" + tail + ">" + b
  {
  }

  lemma TableCiteText(a: string, pre: string, n: nat, b: string)
    ensures a + Show(TableCite(pre, n)) + b == a + "[" + pre + "tbl-" + NatToString(n) + "]" + b
  {
    CiteText(a, pre, NatToString(n), b);
  }

  lemma BareTableCiteText(a: string, n: nat, b: string)
    ensures a + Show(TableCite("", n)) + b == a + "[tbl-" + NatToString(n) + "]" + b
  {
    CiteText(a, "", NatToString(n), b);
  }

  lemma CiteText(a: string, pre: string, d: string, b: string)
    ensures a + ("[" + pre + "tbl-" + d + "]") + b == a + "[" + pre + "tbl-" + d + "]" + b
    ensures a + ("[" + "" + "tbl-" + d + "]") + b == a + "[tbl-" + d + "]" + b
  {
  }

  lemma PlainMdImageText(a: string, alt: string, n: nat, ext: string, b: string)
    ensures a + Show(MdImage(alt, "", "", n, ext)) + b == a + "![" + alt + "](" + ImageFile(n, ext) + ")" + b
  {
    PlainLinkText(a, alt, ImageFile(n, ext), b);
  }

  lemma PlainLinkText(a: string, alt: string, f: string, b: string)
    ensures a + ("![" + alt + LinkEnd("" + "" + f)) + b == a + "![" + alt + "](" + f + ")" + b
  {
  }

  lemma PassThree(p: Pattern, a: string, x: Piece, b: string)
    ensures PassAll(p, [Words(a), x, Words(b)]) == [Pass(p, Words(a)), Pass(p, x), Pass(p, Words(b))]
  {
    assert [Words(a), x, Words(b)][1..] == [x, Words(b)];
    assert [x, Words(b)][1..] == [Words(b)];
    assert [Words(b)][1..] == [];
    assert PassAll(p, [Words(b)]) == [Pass(p, Words(b))];
    assert PassAll(p, [x, Words(b)]) == [Pass(p, x), Pass(p, Words(b))];
  }

  lemma MovedMdImageText(a: string, alt: string, n: nat, ext: string, b: string)
    ensures a + Show(MdImage(alt, "images/", "", n, ext)) + b == a + "![" + alt + "](images/" + ImageFile(n, ext) + ")" + b
  {
    MovedLinkText(a, alt, ImageFile(n, ext), b);
  }

  lemma MovedLinkText(a: string, alt: string, f: string, b: string)
    ensures a + ("![" + alt + LinkEnd("images/" + "" + f)) + b == a + "![" + alt + "](images/" + f + ")" + b
  {
  }

  /** Rendering distributes over concatenation. */
  lemma {:induction false} RenderConcat(xs: seq<Piece>, ys: seq<Piece>)
    ensures Render(xs + ys) == Render(xs) + Render(ys)
    decreases |xs|
  {
    if xs == [] {
      assert xs + ys == ys;
    } else {
      assert (xs + ys)[0] == xs[0] && (xs + ys)[1..] == xs[1..] + ys;
      RenderConcat(xs[1..], ys);
    }
  }
}
