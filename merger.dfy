/**
 * Merging the OCR results of the chunks of one document into one result
 * (`ChunkMerger`): page markers are renumbered so that they run on across
 * chunks, image and table references and keys get a per-chunk prefix, and a
 * provenance comment is written before the text of every chunk.
 */
module Merger {
  import opened Wrappers
  import opened Text
  import opened Chunker
  import opened OcrClient
  import opened Patterns
  import opened Pieces

  /** An OCR result together with the chunk it was produced from. */
  datatype ChunkOcrResult = ChunkOcrResult(chunk: PdfChunk, result: OcrResult)

  /**
   * `_process_markdown`: the four substitutions, in the order the source
   * applies them. Text holding none of the characters the patterns need
   * passes through unchanged.
   */
  function ProcessMarkdown(markdown: string, pageOffset: int, chunkPrefix: string): (r: string)
    ensures Plain(markdown) ==> r == markdown
  {
    var renumbered := Sub(PageMarker(pageOffset), markdown);
    var linked := Sub(MarkdownImage(chunkPrefix), renumbered);
    var tagged := Sub(HtmlImage(chunkPrefix), linked);
    var r := Sub(TableRef(chunkPrefix), tagged);
    if Plain(markdown) then
      PlainUnchanged(PageMarker(pageOffset), markdown);
      PlainUnchanged(MarkdownImage(chunkPrefix), markdown);
      PlainUnchanged(HtmlImage(chunkPrefix), markdown);
      PlainUnchanged(TableRef(chunkPrefix), markdown);
      r
    else r
  }

  lemma PlainUnchanged(p: Pattern, s: string)
    requires Plain(s)
    ensures Sub(p, s) == s
  {
    PlainNoNeedle(p, s);
    SubAbsent(p, s);
  }

  // ---------------------------------------------------------------------------
  // What `_process_markdown` does to a text

  /** A page marker is shifted by the page offset; the text around it is kept. */
  lemma MarkerRenumbered(a: string, page: nat, b: string, pageOffset: int, chunkPrefix: string)
    requires Plain(a) && Plain(b)
    ensures ProcessMarkdown(a + Marker(page) + b, pageOffset, chunkPrefix) == a + Marker(page + pageOffset) + b
  {
    MatchMarker(page, b, pageOffset);
    PlainNoNeedle(PageMarker(pageOffset), b);
    SubOneMatch(PageMarker(pageOffset), a, Marker(page), b, 0, Marker(page + pageOffset));
    var s := a + Marker(page + pageOffset) + b;
    MarkerSafe(page + pageOffset);
    SubLacking(MarkdownImage(chunkPrefix), s, 0);
    SubLacking(HtmlImage(chunkPrefix), s, 4);
    SubLacking(TableRef(chunkPrefix), s, 0);
  }

  /** The separator the parser puts before a page is a page marker between plain text. */
  lemma SeparatorShape(index: int)
    ensures PageSeparator(index) == "\n\n---\n" + Marker(index + 1) + "\n\n"
  {
  }

  /** The separator the parser puts before a page is renumbered like a marker. */
  lemma SeparatorRenumbered(index: nat, pageOffset: int, chunkPrefix: string)
    ensures ProcessMarkdown(PageSeparator(index), pageOffset, chunkPrefix) == PageSeparator(index + pageOffset)
  {
    SeparatorShape(index);
    SeparatorShape(index + pageOffset);
    assert index + pageOffset + 1 == index + 1 + pageOffset;
    MarkerRenumbered("\n\n---\n", index + 1, "\n\n", pageOffset, chunkPrefix);
  }

  // ---------------------------------------------------------------------------
  // What `_process_markdown` does to markdown made of pieces

  /**
   * What the processing of a chunk should do to one piece of its markdown:
   * a page marker moves on by the page offset, an image link, an image tag
   * or a table reference without a prefix gets the chunk prefix, and
   * everything else stays as it is.
   */
  function Renumber(x: Piece, pageOffset: int, chunkPrefix: string): Piece
  {
    match x
    case Words(_) => x
    case PageMark(k) => if k >= 0 then PageMark(k + pageOffset) else x
    case MdImage(alt, dir, pre, n, ext) => if pre == "" then MdImage(alt, dir, chunkPrefix, n, ext) else x
    case HtmlImg(attrs, dir, pre, n, ext, tail) => if pre == "" then HtmlImg(attrs, dir, chunkPrefix, n, ext, tail) else x
    case TableCite(pre, n) => if pre == "" then TableCite(chunkPrefix, n) else x
  }

  function RenumberAll(ps: seq<Piece>, pageOffset: int, chunkPrefix: string): (r: seq<Piece>)
    ensures |r| == |ps|
  {
    seq(|ps|, i requires 0 <= i < |ps| => Renumber(ps[i], pageOffset, chunkPrefix))
  }

  /** The four substitutions, one after the other, do to a piece what `Renumber` says. */
  lemma PassesRenumber(x: Piece, pageOffset: int, chunkPrefix: string)
    ensures Pass(TableRef(chunkPrefix), Pass(HtmlImage(chunkPrefix), Pass(MarkdownImage(chunkPrefix), Pass(PageMarker(pageOffset), x))))
         == Renumber(x, pageOffset, chunkPrefix)
  {
  }

  lemma {:induction false} PassesRenumberAll(ps: seq<Piece>, pageOffset: int, chunkPrefix: string)
    ensures PassAll(TableRef(chunkPrefix), PassAll(HtmlImage(chunkPrefix), PassAll(MarkdownImage(chunkPrefix), PassAll(PageMarker(pageOffset), ps))))
         == RenumberAll(ps, pageOffset, chunkPrefix)
    decreases |ps|
  {
    if ps != [] {
      PassesRenumberAll(ps[1..], pageOffset, chunkPrefix);
      PassesRenumber(ps[0], pageOffset, chunkPrefix);
      var r := RenumberAll(ps, pageOffset, chunkPrefix);
      assert r == [r[0]] + RenumberAll(ps[1..], pageOffset, chunkPrefix);
    }
  }

  /**
   * `_process_markdown` maps well-formed markdown piece by piece: every page
   * marker, every image link and tag and every table reference is treated
   * as `Renumber` says, wherever it stands and however many there are.
   */
  lemma ProcessMarkdownPieces(ps: seq<Piece>, pageOffset: int, chunkPrefix: string)
    requires AllWellFormed(ps) && PrefixOk(chunkPrefix)
    ensures ProcessMarkdown(Render(ps), pageOffset, chunkPrefix) == Render(RenumberAll(ps, pageOffset, chunkPrefix))
  {
    var ps1 := PassAll(PageMarker(pageOffset), ps);
    var ps2 := PassAll(MarkdownImage(chunkPrefix), ps1);
    var ps3 := PassAll(HtmlImage(chunkPrefix), ps2);
    SubRender(PageMarker(pageOffset), ps);
    PassAllWellFormed(PageMarker(pageOffset), ps);
    SubRender(MarkdownImage(chunkPrefix), ps1);
    PassAllWellFormed(MarkdownImage(chunkPrefix), ps1);
    SubRender(HtmlImage(chunkPrefix), ps2);
    PassAllWellFormed(HtmlImage(chunkPrefix), ps2);
    SubRender(TableRef(chunkPrefix), ps3);
    PassesRenumberAll(ps, pageOffset, chunkPrefix);
  }

  /** Renumbering keeps pieces well formed. */
  lemma RenumberWellFormed(ps: seq<Piece>, pageOffset: int, chunkPrefix: string)
    requires AllWellFormed(ps) && PrefixOk(chunkPrefix)
    ensures AllWellFormed(RenumberAll(ps, pageOffset, chunkPrefix))
  {
    var ps1 := PassAll(PageMarker(pageOffset), ps);
    var ps2 := PassAll(MarkdownImage(chunkPrefix), ps1);
    var ps3 := PassAll(HtmlImage(chunkPrefix), ps2);
    PassAllWellFormed(PageMarker(pageOffset), ps);
    PassAllWellFormed(MarkdownImage(chunkPrefix), ps1);
    PassAllWellFormed(HtmlImage(chunkPrefix), ps2);
    PassAllWellFormed(TableRef(chunkPrefix), ps3);
    PassesRenumberAll(ps, pageOffset, chunkPrefix);
  }

  /**
   * Processing a chunk's markdown a second time, with no further page
   * offset, changes nothing: every reference already carries a prefix, so
   * none is prefixed twice.
   */
  lemma ProcessMarkdownOnce(ps: seq<Piece>, pageOffset: int, chunkPrefix: string, otherPrefix: string)
    requires AllWellFormed(ps) && PrefixOk(chunkPrefix) && chunkPrefix != "" && PrefixOk(otherPrefix)
    ensures var once := ProcessMarkdown(Render(ps), pageOffset, chunkPrefix);
      ProcessMarkdown(once, 0, otherPrefix) == once
  {
    var qs := RenumberAll(ps, pageOffset, chunkPrefix);
    calc {
      ProcessMarkdown(ProcessMarkdown(Render(ps), pageOffset, chunkPrefix), 0, otherPrefix);
      { ProcessMarkdownPieces(ps, pageOffset, chunkPrefix); }
      ProcessMarkdown(Render(qs), 0, otherPrefix);
      { RenumberWellFormed(ps, pageOffset, chunkPrefix); ProcessMarkdownPieces(qs, 0, otherPrefix); }
      Render(RenumberAll(qs, 0, otherPrefix));
      { RenumberTwice(ps, pageOffset, chunkPrefix, otherPrefix); }
      Render(qs);
      { ProcessMarkdownPieces(ps, pageOffset, chunkPrefix); }
      ProcessMarkdown(Render(ps), pageOffset, chunkPrefix);
    }
  }

  /** What has been renumbered once carries prefixes, and renumbering it with no offset changes nothing. */
  lemma RenumberTwice(ps: seq<Piece>, pageOffset: int, chunkPrefix: string, otherPrefix: string)
    requires chunkPrefix != ""
    ensures var qs := RenumberAll(ps, pageOffset, chunkPrefix);
      RenumberAll(qs, 0, otherPrefix) == qs
  {
  }

  /** `_process_markdown` on one piece between two plain texts. */
  lemma ProcessBetween(a: string, x: Piece, b: string, pageOffset: int, chunkPrefix: string)
    requires Plain(a) && WellFormed(x) && !x.Words? && Plain(b) && PrefixOk(chunkPrefix)
    ensures ProcessMarkdown(a + Show(x) + b, pageOffset, chunkPrefix) == a + Show(Renumber(x, pageOffset, chunkPrefix)) + b
  {
    PlainAround(a, x, b);
    var ps := [Words(a), x, Words(b)];
    var y := Renumber(x, pageOffset, chunkPrefix);
    calc {
      ProcessMarkdown(a + Show(x) + b, pageOffset, chunkPrefix);
      { Between(a, x, b); }
      ProcessMarkdown(Render(ps), pageOffset, chunkPrefix);
      { ProcessMarkdownPieces(ps, pageOffset, chunkPrefix); }
      Render(RenumberAll(ps, pageOffset, chunkPrefix));
      { RenumberThree(a, x, b, pageOffset, chunkPrefix); }
      Render([Words(a), y, Words(b)]);
      { Between(a, y, b); }
      a + Show(y) + b;
    }
  }

  lemma RenumberThree(a: string, x: Piece, b: string, pageOffset: int, chunkPrefix: string)
    ensures RenumberAll([Words(a), x, Words(b)], pageOffset, chunkPrefix) == [Words(a), Renumber(x, pageOffset, chunkPrefix), Words(b)]
  {
  }

  /** A markdown image link `![alt](img-N.ext)` gets the chunk prefix before its file name, after any `images/`. */
  lemma MarkdownImagePrefixed(a: string, alt: string, dir: string, n: nat, ext: string, b: string,
                              pageOffset: int, chunkPrefix: string)
    requires Plain(a) && Plain(b) && Plain(alt) && !StartsWith(alt, "tbl-")
    requires DirOk(dir) && IsExtension(ext) && PrefixOk(chunkPrefix)
    ensures ProcessMarkdown(a + "![" + alt + "](" + dir + ImageFile(n, ext) + ")" + b, pageOffset, chunkPrefix)
         == a + "![" + alt + "](" + dir + chunkPrefix + ImageFile(n, ext) + ")" + b
  {
    var x := MdImage(alt, dir, "", n, ext);
    calc {
      ProcessMarkdown(a + "![" + alt + "](" + dir + ImageFile(n, ext) + ")" + b, pageOffset, chunkPrefix);
      { BareMdImageText(a, alt, dir, n, ext, b); }
      ProcessMarkdown(a + Show(x) + b, pageOffset, chunkPrefix);
      { ProcessBetween(a, x, b, pageOffset, chunkPrefix); }
      a + Show(MdImage(alt, dir, chunkPrefix, n, ext)) + b;
      { MdImageText(a, alt, dir, chunkPrefix, n, ext, b); }
      a + "![" + alt + "](" + dir + chunkPrefix + ImageFile(n, ext) + ")" + b;
    }
  }

  /** An HTML image tag `<img ... src="img-N.ext" ...>` gets the chunk prefix the same way. */
  lemma HtmlImagePrefixed(a: string, attrs: string, dir: string, n: nat, ext: string, tail: string, b: string,
                          pageOffset: int, chunkPrefix: string)
    requires Plain(a) && Plain(b) && Plain(attrs) && Plain(tail)
    requires DirOk(dir) && IsExtension(ext) && PrefixOk(chunkPrefix)
    ensures ProcessMarkdown(a + "<img " + attrs + "src=\"" + dir + ImageFile(n, ext) + "\"" + tail + ">" + b, pageOffset, chunkPrefix)
         == a + "<img " + attrs + "src=\"" + dir + chunkPrefix + ImageFile(n, ext) + "\"" + tail + ">" + b
  {
    var x := HtmlImg(attrs, dir, "", n, ext, tail);
    calc {
      ProcessMarkdown(a + "<img " + attrs + "src=\"" + dir + ImageFile(n, ext) + "\"" + tail + ">" + b, pageOffset, chunkPrefix);
      { BareHtmlImgText(a, attrs, dir, n, ext, tail, b); }
      ProcessMarkdown(a + Show(x) + b, pageOffset, chunkPrefix);
      { ProcessBetween(a, x, b, pageOffset, chunkPrefix); }
      a + Show(HtmlImg(attrs, dir, chunkPrefix, n, ext, tail)) + b;
      { HtmlImgText(a, attrs, dir, chunkPrefix, n, ext, tail, b); }
      a + "<img " + attrs + "src=\"" + dir + chunkPrefix + ImageFile(n, ext) + "\"" + tail + ">" + b;
    }
  }

  /** A table reference `[tbl-N]` becomes `[<prefix>tbl-N]`. */
  lemma TableRefPrefixed(a: string, n: nat, b: string, pageOffset: int, chunkPrefix: string)
    requires Plain(a) && Plain(b) && PrefixOk(chunkPrefix)
    ensures ProcessMarkdown(a + "[tbl-" + NatToString(n) + "]" + b, pageOffset, chunkPrefix)
         == a + "[" + chunkPrefix + "tbl-" + NatToString(n) + "]" + b
  {
    var x := TableCite("", n);
    calc {
      ProcessMarkdown(a + "[tbl-" + NatToString(n) + "]" + b, pageOffset, chunkPrefix);
      { BareTableCiteText(a, n, b); }
      ProcessMarkdown(a + Show(x) + b, pageOffset, chunkPrefix);
      { ProcessBetween(a, x, b, pageOffset, chunkPrefix); }
      a + Show(TableCite(chunkPrefix, n)) + b;
      { TableCiteText(a, chunkPrefix, n, b); }
      a + "[" + chunkPrefix + "tbl-" + NatToString(n) + "]" + b;
    }
  }

  /** An image link that already carries a prefix is left as it is: the prefix is put in once. */
  lemma MarkdownImagePrefixedOnce(a: string, alt: string, dir: string, n: nat, ext: string, b: string,
                                  pageOffset: int, chunkPrefix: string, otherPrefix: string)
    requires Plain(a) && Plain(b) && Plain(alt) && !StartsWith(alt, "tbl-")
    requires DirOk(dir) && IsExtension(ext) && PrefixOk(chunkPrefix) && chunkPrefix != "" && PrefixOk(otherPrefix)
    ensures var s := a + "![" + alt + "](" + dir + chunkPrefix + ImageFile(n, ext) + ")" + b;
      ProcessMarkdown(s, pageOffset, otherPrefix) == s
  {
    MdImageText(a, alt, dir, chunkPrefix, n, ext, b);
    ProcessBetween(a, MdImage(alt, dir, chunkPrefix, n, ext), b, pageOffset, otherPrefix);
  }

  /** An image tag whose `src` already carries a prefix is left as it is. */
  lemma HtmlImagePrefixedOnce(a: string, attrs: string, dir: string, n: nat, ext: string, tail: string, b: string,
                              pageOffset: int, chunkPrefix: string, otherPrefix: string)
    requires Plain(a) && Plain(b) && Plain(attrs) && Plain(tail)
    requires DirOk(dir) && IsExtension(ext) && PrefixOk(chunkPrefix) && chunkPrefix != "" && PrefixOk(otherPrefix)
    ensures var s := a + "<img " + attrs + "src=\"" + dir + chunkPrefix + ImageFile(n, ext) + "\"" + tail + ">" + b;
      ProcessMarkdown(s, pageOffset, otherPrefix) == s
  {
    HtmlImgText(a, attrs, dir, chunkPrefix, n, ext, tail, b);
    ProcessBetween(a, HtmlImg(attrs, dir, chunkPrefix, n, ext, tail), b, pageOffset, otherPrefix);
  }

  /** A table reference that already carries a prefix is left as it is. */
  lemma TableRefPrefixedOnce(a: string, n: nat, b: string, pageOffset: int, chunkPrefix: string, otherPrefix: string)
    requires Plain(a) && Plain(b) && PrefixOk(chunkPrefix) && chunkPrefix != "" && PrefixOk(otherPrefix)
    ensures var s := a + "[" + chunkPrefix + "tbl-" + NatToString(n) + "]" + b;
      ProcessMarkdown(s, pageOffset, otherPrefix) == s
  {
    TableCiteText(a, chunkPrefix, n, b);
    ProcessBetween(a, TableCite(chunkPrefix, n), b, pageOffset, otherPrefix);
  }

  // ---------------------------------------------------------------------------
  // A whole parsed result: pages joined by newlines, with separators

  function RenderEach(qs: seq<seq<Piece>>): (r: seq<string>)
    ensures |r| == |qs|
  {
    seq(|qs|, i requires 0 <= i < |qs| => Render(qs[i]))
  }

  function RenumberEach(qs: seq<seq<Piece>>, pageOffset: int, chunkPrefix: string): (r: seq<seq<Piece>>)
    ensures |r| == |qs|
  {
    seq(|qs|, i requires 0 <= i < |qs| => RenumberAll(qs[i], pageOffset, chunkPrefix))
  }

  /** The pieces of texts joined by newlines. */
  function JoinPieces(qs: seq<seq<Piece>>): seq<Piece>
    decreases |qs|
  {
    if qs == [] then [] else if |qs| == 1 then qs[0] else qs[0] + [Words("\n")] + JoinPieces(qs[1..])
  }

  predicate EachWellFormed(qs: seq<seq<Piece>>)
  {
    forall i :: 0 <= i < |qs| ==> AllWellFormed(qs[i])
  }

  lemma {:induction false} JoinPiecesRender(qs: seq<seq<Piece>>)
    ensures Render(JoinPieces(qs)) == Join(RenderEach(qs), "\n")
    decreases |qs|
  {
    var rs := RenderEach(qs);
    if |qs| > 1 {
      calc {
        Render(JoinPieces(qs));
        Render(qs[0] + [Words("\n")] + JoinPieces(qs[1..]));
        { RenderConcat(qs[0] + [Words("\n")], JoinPieces(qs[1..])); }
        Render(qs[0] + [Words("\n")]) + Render(JoinPieces(qs[1..]));
        { RenderConcat(qs[0], [Words("\n")]); assert Render([Words("\n")]) == "\n"; }
        Render(qs[0]) + "\n" + Render(JoinPieces(qs[1..]));
        { JoinPiecesRender(qs[1..]); }
        Render(qs[0]) + "\n" + Join(RenderEach(qs[1..]), "\n");
        { assert rs[1..] == RenderEach(qs[1..]); }
        rs[0] + "\n" + Join(rs[1..], "\n");
      }
    } else if |qs| == 1 {
      assert rs[0] == Render(qs[0]);
    }
  }

  lemma {:induction false} JoinPiecesWellFormed(qs: seq<seq<Piece>>)
    requires EachWellFormed(qs)
    ensures AllWellFormed(JoinPieces(qs))
    decreases |qs|
  {
    if |qs| > 1 {
      assert EachWellFormed(qs[1..]) by {
        forall i | 0 <= i < |qs[1..]| ensures AllWellFormed(qs[1..][i]) {
          assert qs[1..][i] == qs[i + 1];
        }
      }
      JoinPiecesWellFormed(qs[1..]);
      NewlineJoin(qs[0], JoinPieces(qs[1..]));
    } else if |qs| == 1 {
      assert AllWellFormed(qs[0]);
    }
  }

  lemma {:induction false} JoinPiecesRenumber(qs: seq<seq<Piece>>, pageOffset: int, chunkPrefix: string)
    ensures RenumberAll(JoinPieces(qs), pageOffset, chunkPrefix) == JoinPieces(RenumberEach(qs, pageOffset, chunkPrefix))
    decreases |qs|
  {
    if |qs| > 1 {
      JoinPiecesRenumber(qs[1..], pageOffset, chunkPrefix);
      var e := RenumberEach(qs, pageOffset, chunkPrefix);
      assert e[1..] == RenumberEach(qs[1..], pageOffset, chunkPrefix);
      var xs := qs[0] + [Words("\n")];
      var ys := JoinPieces(qs[1..]);
      RenumberConcat(xs, ys, pageOffset, chunkPrefix);
      RenumberConcat(qs[0], [Words("\n")], pageOffset, chunkPrefix);
    }
  }

  lemma RenumberConcat(xs: seq<Piece>, ys: seq<Piece>, pageOffset: int, chunkPrefix: string)
    ensures RenumberAll(xs + ys, pageOffset, chunkPrefix) == RenumberAll(xs, pageOffset, chunkPrefix) + RenumberAll(ys, pageOffset, chunkPrefix)
  {
  }

  /** Texts made of pieces and joined by newlines are processed text by text. */
  lemma ProcessJoined(qs: seq<seq<Piece>>, pageOffset: int, chunkPrefix: string)
    requires EachWellFormed(qs) && PrefixOk(chunkPrefix)
    ensures ProcessMarkdown(Join(RenderEach(qs), "\n"), pageOffset, chunkPrefix)
         == Join(RenderEach(RenumberEach(qs, pageOffset, chunkPrefix)), "\n")
  {
    JoinPiecesRender(qs);
    JoinPiecesWellFormed(qs);
    ProcessMarkdownPieces(JoinPieces(qs), pageOffset, chunkPrefix);
    JoinPiecesRenumber(qs, pageOffset, chunkPrefix);
    JoinPiecesRender(RenumberEach(qs, pageOffset, chunkPrefix));
  }

  /** The separator before a page, as pieces. */
  function SeparatorPieces(index: int): seq<Piece>
  {
    [Words("\n\n---\n"), PageMark(index + 1), Words("\n\n")]
  }

  /** The pieces of the parts `PageParts` produces, page by page. */
  function PagePieces(pages: seq<OcrPage>, pieces: seq<seq<Piece>>): seq<seq<Piece>>
    requires |pieces| == |pages|
  {
    if pages == [] then []
    else
      var n := |pages| - 1;
      PagePieces(pages[..n], pieces[..n]) + (if pages[n].index > 0 then [SeparatorPieces(pages[n].index)] else []) + [pieces[n]]
  }

  /**
   * The parts of a parsed result after processing: each separator names the
   * page `pageOffset` further on, and each page's text is renumbered.
   */
  function ShiftedParts(pages: seq<OcrPage>, pieces: seq<seq<Piece>>, pageOffset: int, chunkPrefix: string): seq<string>
    requires |pieces| == |pages|
  {
    if pages == [] then []
    else
      var n := |pages| - 1;
      ShiftedParts(pages[..n], pieces[..n], pageOffset, chunkPrefix)
        + (if pages[n].index > 0 then [PageSeparator(pages[n].index + pageOffset)] else [])
        + [Render(RenumberAll(pieces[n], pageOffset, chunkPrefix))]
  }

  /** Each page's text is what its pieces render to. */
  predicate PagesOf(pages: seq<OcrPage>, pieces: seq<seq<Piece>>)
  {
    |pieces| == |pages| && forall i :: 0 <= i < |pages| ==> AllWellFormed(pieces[i]) && Render(pieces[i]) == pages[i].markdown
  }

  lemma SeparatorPiecesRender(index: int, pageOffset: int, chunkPrefix: string)
    requires index > 0
    ensures AllWellFormed(SeparatorPieces(index))
    ensures Render(SeparatorPieces(index)) == PageSeparator(index)
    ensures Render(RenumberAll(SeparatorPieces(index), pageOffset, chunkPrefix)) == PageSeparator(index + pageOffset)
  {
    SeparatorShape(index);
    PlainAround("\n\n---\n", PageMark(index + 1), "\n\n");
    Between("\n\n---\n", PageMark(index + 1), "\n\n");
    calc {
      Render(RenumberAll(SeparatorPieces(index), pageOffset, chunkPrefix));
      { RenumberThree("\n\n---\n", PageMark(index + 1), "\n\n", pageOffset, chunkPrefix); }
      Render([Words("\n\n---\n"), PageMark(index + pageOffset + 1), Words("\n\n")]);
      { Between("\n\n---\n", PageMark(index + pageOffset + 1), "\n\n"); }
      "\n\n---\n" + Marker(index + pageOffset + 1) + "\n\n";
      { SeparatorShape(index + pageOffset); }
      PageSeparator(index + pageOffset);
    }
  }

  lemma PagesOfInit(pages: seq<OcrPage>, pieces: seq<seq<Piece>>)
    requires PagesOf(pages, pieces) && pages != []
    ensures PagesOf(pages[..|pages| - 1], pieces[..|pages| - 1])
  {
    var n := |pages| - 1;
    forall i | 0 <= i < n ensures AllWellFormed(pieces[..n][i]) && Render(pieces[..n][i]) == pages[..n][i].markdown {
      assert pieces[..n][i] == pieces[i] && pages[..n][i] == pages[i];
    }
  }

  /** The last page's pieces: its separator, if it has one, then its text. */
  function LastPieces(pages: seq<OcrPage>, pieces: seq<seq<Piece>>): seq<seq<Piece>>
    requires |pieces| == |pages| && pages != []
  {
    var n := |pages| - 1;
    (if pages[n].index > 0 then [SeparatorPieces(pages[n].index)] else []) + [pieces[n]]
  }

  lemma PagePiecesSplit(pages: seq<OcrPage>, pieces: seq<seq<Piece>>)
    requires |pieces| == |pages| && pages != []
    ensures PagePieces(pages, pieces) == PagePieces(pages[..|pages| - 1], pieces[..|pages| - 1]) + LastPieces(pages, pieces)
  {
  }

  lemma {:induction false} PagePiecesWellFormed(pages: seq<OcrPage>, pieces: seq<seq<Piece>>)
    requires PagesOf(pages, pieces)
    ensures EachWellFormed(PagePieces(pages, pieces))
    decreases |pages|
  {
    if pages != [] {
      var n := |pages| - 1;
      PagesOfInit(pages, pieces);
      PagePiecesWellFormed(pages[..n], pieces[..n]);
      if pages[n].index > 0 {
        SeparatorPiecesRender(pages[n].index, 0, "");
      }
      PagePiecesSplit(pages, pieces);
      EachConcatWellFormed(PagePieces(pages[..n], pieces[..n]), LastPieces(pages, pieces));
    }
  }

  lemma {:induction false} PagePiecesRender(pages: seq<OcrPage>, pieces: seq<seq<Piece>>)
    requires PagesOf(pages, pieces)
    ensures RenderEach(PagePieces(pages, pieces)) == PageParts(pages)
    decreases |pages|
  {
    if pages != [] {
      var n := |pages| - 1;
      PagesOfInit(pages, pieces);
      PagePiecesRender(pages[..n], pieces[..n]);
      LastPiecesRender(pages, pieces);
      PagePiecesSplit(pages, pieces);
      RenderEachConcat(PagePieces(pages[..n], pieces[..n]), LastPieces(pages, pieces));
    }
  }

  lemma LastPiecesRender(pages: seq<OcrPage>, pieces: seq<seq<Piece>>)
    requires PagesOf(pages, pieces) && pages != []
    ensures var n := |pages| - 1;
      RenderEach(LastPieces(pages, pieces)) == (if pages[n].index > 0 then [PageSeparator(pages[n].index)] else []) + [pages[n].markdown]
  {
    var n := |pages| - 1;
    if pages[n].index > 0 {
      SeparatorPiecesRender(pages[n].index, 0, "");
    }
    assert Render(pieces[n]) == pages[n].markdown;
  }

  lemma {:induction false} PagePiecesShifted(pages: seq<OcrPage>, pieces: seq<seq<Piece>>, pageOffset: int, chunkPrefix: string)
    requires |pieces| == |pages|
    ensures RenderEach(RenumberEach(PagePieces(pages, pieces), pageOffset, chunkPrefix)) == ShiftedParts(pages, pieces, pageOffset, chunkPrefix)
    decreases |pages|
  {
    if pages != [] {
      var n := |pages| - 1;
      PagePiecesShifted(pages[..n], pieces[..n], pageOffset, chunkPrefix);
      LastPiecesShifted(pages, pieces, pageOffset, chunkPrefix);
      PagePiecesSplit(pages, pieces);
      RenumberEachConcat(PagePieces(pages[..n], pieces[..n]), LastPieces(pages, pieces), pageOffset, chunkPrefix);
      RenderEachConcat(RenumberEach(PagePieces(pages[..n], pieces[..n]), pageOffset, chunkPrefix),
                       RenumberEach(LastPieces(pages, pieces), pageOffset, chunkPrefix));
    }
  }

  lemma LastPiecesShifted(pages: seq<OcrPage>, pieces: seq<seq<Piece>>, pageOffset: int, chunkPrefix: string)
    requires |pieces| == |pages| && pages != []
    ensures var n := |pages| - 1;
      RenderEach(RenumberEach(LastPieces(pages, pieces), pageOffset, chunkPrefix))
        == (if pages[n].index > 0 then [PageSeparator(pages[n].index + pageOffset)] else [])
           + [Render(RenumberAll(pieces[n], pageOffset, chunkPrefix))]
  {
    var n := |pages| - 1;
    if pages[n].index > 0 {
      SeparatorPiecesRender(pages[n].index, pageOffset, chunkPrefix);
    }
  }

  lemma EachConcatWellFormed(xs: seq<seq<Piece>>, ys: seq<seq<Piece>>)
    requires EachWellFormed(xs) && EachWellFormed(ys)
    ensures EachWellFormed(xs + ys)
  {
    var q := xs + ys;
    forall i | 0 <= i < |q| ensures AllWellFormed(q[i]) {
      if i < |xs| { assert q[i] == xs[i]; } else { assert q[i] == ys[i - |xs|]; }
    }
  }

  lemma RenderEachConcat(xs: seq<seq<Piece>>, ys: seq<seq<Piece>>)
    ensures RenderEach(xs + ys) == RenderEach(xs) + RenderEach(ys)
  {
  }

  lemma RenumberEachConcat(xs: seq<seq<Piece>>, ys: seq<seq<Piece>>, pageOffset: int, chunkPrefix: string)
    ensures RenumberEach(xs + ys, pageOffset, chunkPrefix) == RenumberEach(xs, pageOffset, chunkPrefix) + RenumberEach(ys, pageOffset, chunkPrefix)
  {
  }

  /**
   * A parsed OCR result, processed as a chunk of a merge: every page
   * separator is renumbered by the page offset, and every page's markers and
   * references are treated as `Renumber` says.
   */
  lemma ParsedRenumbered(pages: seq<OcrPage>, pieces: seq<seq<Piece>>, pageOffset: int, chunkPrefix: string)
    requires PagesOf(pages, pieces) && PrefixOk(chunkPrefix)
    ensures ProcessMarkdown(Join(PageParts(pages), "\n"), pageOffset, chunkPrefix)
         == Join(ShiftedParts(pages, pieces, pageOffset, chunkPrefix), "\n")
  {
    PagePiecesWellFormed(pages, pieces);
    PagePiecesRender(pages, pieces);
    PagePiecesShifted(pages, pieces, pageOffset, chunkPrefix);
    ProcessJoined(PagePieces(pages, pieces), pageOffset, chunkPrefix);
  }

  // ---------------------------------------------------------------------------
  // Chunk prefixes

  /** `f"chunk{chunk_index:02d}_"`. */
  function ChunkPrefix(chunkIndex: int): string
  {
    "chunk" + ZeroPad(chunkIndex, 2) + "_"
  }

  lemma ChunkPrefixPlain(chunkIndex: int)
    ensures Plain(ChunkPrefix(chunkIndex))
    ensures ChunkPrefix(chunkIndex) != [] && ChunkPrefix(chunkIndex)[0] == 'c'
  {
    var z := ZeroPad(chunkIndex, 2);
    assert Plain(z) by {
      ZeroPadSign(chunkIndex, 2);
      assert forall k :: 0 <= k < |z| ==> IsDigit(z[k]) || z[k] == '-' by {
        if chunkIndex < 0 {
          assert forall k :: 1 <= k < |z| ==> z[k] == z[1..][k - 1];
        }
      }
    }
    NotInParts('<', "chunk", z, "_");
    NotInParts(']', "chunk", z, "_");
    NotInParts('(', "chunk", z, "_");
    NotInParts('"', "chunk", z, "_");
    NotInParts('[', "chunk", z, "_");
  }

  /** The chunk prefix is one a merge may write. */
  lemma ChunkPrefixOk(chunkIndex: int)
    ensures PrefixOk(ChunkPrefix(chunkIndex)) && ChunkPrefix(chunkIndex) != ""
  {
    ChunkPrefixPlain(chunkIndex);
  }

  /** A prefixed key tells which chunk it came from and which key it had there. */
  lemma ChunkPrefixInjective(i: int, j: int, a: string, b: string)
    requires ChunkPrefix(i) + a == ChunkPrefix(j) + b
    ensures i == j && a == b
  {
    var zi := ZeroPad(i, 2);
    var zj := ZeroPad(j, 2);
    ChunkPrefixTail(i, a);
    ChunkPrefixTail(j, b);
    ZeroPadNoUnderscore(i, 2);
    ZeroPadNoUnderscore(j, 2);
    SplitAtFirst(zi, a, zj, b, '_');
    ZeroPadInjective(i, j, 2);
  }

  lemma ChunkPrefixTail(i: int, a: string)
    ensures (ChunkPrefix(i) + a)[5..] == ZeroPad(i, 2) + ['_'] + a
  {
  }

  // ---------------------------------------------------------------------------
  // The merged result

  /** `if x:` on an optional string: present and non-empty. */
  predicate Truthy(s: Option<string>) { s.Some? && s.value != "" }

  function MergedHeader(count: int): string
  {
    "<!-- Merged from " + IntToString(count) + " chunks -->\n"
  }

  /** The provenance comment before a chunk's text, with its section title when it has one. */
  function ChunkHeader(c: PdfChunk, count: int): string
  {
    "\n\n<!-- Chunk " + IntToString(c.chunkIndex + 1) + " of " + IntToString(count)
      + " (original pages " + IntToString(c.startPage + 1) + "-" + IntToString(c.endPage) + ") -->\n"
      + (if Truthy(c.title) then "<!-- Section: " + c.title.value + " -->\n" else "")
  }

  /** The pages reported by all the given chunk results together. */
  function SumPages(rs: seq<ChunkOcrResult>): int
  {
    if rs == [] then 0 else SumPages(rs[..|rs| - 1]) + rs[|rs| - 1].result.pagesProcessed
  }

  /** The text of one chunk in the merged document: its header, then its markdown renumbered by `pageOffset`. */
  function ChunkText(c: ChunkOcrResult, count: int, pageOffset: int): string
  {
    ChunkHeader(c.chunk, count) + ProcessMarkdown(c.result.markdown, pageOffset, ChunkPrefix(c.chunk.chunkIndex))
  }

  /** The chunk texts in order, each renumbered by the pages of the chunks before it. */
  function MergedBody(rs: seq<ChunkOcrResult>, count: int): string
  {
    if rs == [] then ""
    else
      var init := rs[..|rs| - 1];
      MergedBody(init, count) + ChunkText(rs[|rs| - 1], count, SumPages(init))
  }

  /** Every key of `m` with `prefix` put in front of it. */
  function Rekey<V>(m: map<string, V>, prefix: string): map<string, V>
  {
    PrefixCancels(prefix);
    map k | k in m :: prefix + k := m[k]
  }

  lemma PrefixCancels(prefix: string)
    ensures forall a: string, b: string :: prefix + a == prefix + b ==> a == b
  {
    forall a: string, b: string | prefix + a == prefix + b
      ensures a == b
    {
      assert a == (prefix + a)[|prefix|..];
      assert b == (prefix + b)[|prefix|..];
    }
  }

  function ImagesOf(r: OcrResult): map<string, seq<byte>> { r.images }

  function TablesOf(r: OcrResult): map<string, string> { r.tables }

  /** The chunks' maps under their chunk prefixes; a later chunk's entry replaces an earlier one. */
  function PrefixedUnion<V>(rs: seq<ChunkOcrResult>, part: OcrResult -> map<string, V>): map<string, V>
  {
    if rs == [] then map[]
    else
      var last := rs[|rs| - 1];
      PrefixedUnion(rs[..|rs| - 1], part) + Rekey(part(last.result), ChunkPrefix(last.chunk.chunkIndex))
  }

  function SumSizes<V>(rs: seq<ChunkOcrResult>, part: OcrResult -> map<string, V>): nat
  {
    if rs == [] then 0 else SumSizes(rs[..|rs| - 1], part) + |part(rs[|rs| - 1].result)|
  }

  /** The result the merge builds for any number of chunk results other than one. */
  function Merged(rs: seq<ChunkOcrResult>, sourceFile: Option<string>): OcrResult
  {
    OcrResult(
      MergedHeader(|rs|) + MergedBody(rs, |rs|),
      PrefixedUnion(rs, ImagesOf),
      SumPages(rs),
      sourceFile,
      PrefixedUnion(rs, TablesOf))
  }

  predicate DistinctChunks(rs: seq<ChunkOcrResult>)
  {
    forall i, j :: 0 <= i < j < |rs| ==> rs[i].chunk.chunkIndex != rs[j].chunk.chunkIndex
  }

  // ---------------------------------------------------------------------------
  // Facts about the merged result

  /** The merged text holds every chunk's text in chunk order, renumbered by the pages of the chunks before it. */
  lemma {:induction false} ChunkPlacement(rs: seq<ChunkOcrResult>, count: int, j: nat)
    requires j < |rs|
    ensures StartsWith(MergedBody(rs, count), MergedBody(rs[..j], count) + ChunkText(rs[j], count, SumPages(rs[..j])))
    decreases |rs|
  {
    var init := rs[..|rs| - 1];
    var last := ChunkText(rs[|rs| - 1], count, SumPages(init));
    if j == |rs| - 1 {
      assert init == rs[..j];
      StartsWithSelf(MergedBody(rs, count));
    } else {
      ChunkPlacement(init, count, j);
      assert init[..j] == rs[..j] && init[j] == rs[j];
      StartsWithExtend(MergedBody(init, count), MergedBody(rs[..j], count) + ChunkText(rs[j], count, SumPages(rs[..j])), last);
    }
  }

  lemma StartsWithSelf(s: string)
    ensures StartsWith(s, s)
  {
    assert s[..|s|] == s;
  }

  lemma StartsWithExtend(s: string, p: string, t: string)
    requires StartsWith(s, p)
    ensures StartsWith(s + t, p)
  {
    assert (s + t)[..|p|] == s[..|p|];
  }

  lemma RekeyedKey<V>(m: map<string, V>, prefix: string, k: string)
    ensures k in Rekey(m, prefix) <==> StartsWith(k, prefix) && k[|prefix|..] in m
    ensures k in Rekey(m, prefix) ==> Rekey(m, prefix)[k] == m[k[|prefix|..]]
  {
    if StartsWith(k, prefix) && k[|prefix|..] in m {
      assert k == prefix + k[|prefix|..];
    }
  }

  /** Every merged key is some chunk's key under that chunk's prefix, and every such key is merged. */
  lemma {:induction false} PrefixedUnionKeys<V>(rs: seq<ChunkOcrResult>, part: OcrResult -> map<string, V>, k: string)
    ensures k in PrefixedUnion(rs, part) <==>
      exists j :: 0 <= j < |rs| && StartsWith(k, ChunkPrefix(rs[j].chunk.chunkIndex))
                  && k[|ChunkPrefix(rs[j].chunk.chunkIndex)|..] in part(rs[j].result)
    decreases |rs|
  {
    if rs != [] {
      var init := rs[..|rs| - 1];
      var last := rs[|rs| - 1];
      PrefixedUnionKeys(init, part, k);
      RekeyedKey(part(last.result), ChunkPrefix(last.chunk.chunkIndex), k);
      if k in PrefixedUnion(init, part) {
        var j :| 0 <= j < |init| && StartsWith(k, ChunkPrefix(init[j].chunk.chunkIndex))
                  && k[|ChunkPrefix(init[j].chunk.chunkIndex)|..] in part(init[j].result);
        assert init[j] == rs[j];
      }
      if exists j :: 0 <= j < |rs| && StartsWith(k, ChunkPrefix(rs[j].chunk.chunkIndex))
                  && k[|ChunkPrefix(rs[j].chunk.chunkIndex)|..] in part(rs[j].result) {
        var j :| 0 <= j < |rs| && StartsWith(k, ChunkPrefix(rs[j].chunk.chunkIndex))
                  && k[|ChunkPrefix(rs[j].chunk.chunkIndex)|..] in part(rs[j].result);
        if j < |rs| - 1 {
          assert init[j] == rs[j];
        }
      }
    }
  }

  /** With distinct chunk indices no entry is lost or overwritten: each is found under its prefixed key. */
  lemma {:induction false} PrefixedUnionLookup<V>(rs: seq<ChunkOcrResult>, part: OcrResult -> map<string, V>, j: nat, key: string)
    requires DistinctChunks(rs)
    requires j < |rs| && key in part(rs[j].result)
    ensures ChunkPrefix(rs[j].chunk.chunkIndex) + key in PrefixedUnion(rs, part)
    ensures PrefixedUnion(rs, part)[ChunkPrefix(rs[j].chunk.chunkIndex) + key] == part(rs[j].result)[key]
    decreases |rs|
  {
    var init := rs[..|rs| - 1];
    var last := rs[|rs| - 1];
    var k := ChunkPrefix(rs[j].chunk.chunkIndex) + key;
    var lastPrefix := ChunkPrefix(last.chunk.chunkIndex);
    RekeyedKey(part(last.result), lastPrefix, k);
    if j == |rs| - 1 {
      assert k[|lastPrefix|..] == key;
    } else {
      assert init[j] == rs[j];
      DistinctInit(rs);
      PrefixedUnionLookup(init, part, j, key);
      assert rs[j].chunk.chunkIndex != last.chunk.chunkIndex;
      OtherPrefixAbsent(rs[j].chunk.chunkIndex, last.chunk.chunkIndex, key, part(last.result));
    }
  }

  lemma DistinctInit(rs: seq<ChunkOcrResult>)
    requires DistinctChunks(rs) && rs != []
    ensures DistinctChunks(rs[..|rs| - 1])
  {
    var init := rs[..|rs| - 1];
    forall a, b | 0 <= a < b < |init| ensures init[a].chunk.chunkIndex != init[b].chunk.chunkIndex {
      assert init[a] == rs[a] && init[b] == rs[b];
    }
  }

  /** A key under one chunk's prefix is no key of another chunk's prefixed map. */
  lemma OtherPrefixAbsent<V>(i: int, other: int, key: string, m: map<string, V>)
    requires i != other
    ensures ChunkPrefix(i) + key !in Rekey(m, ChunkPrefix(other))
  {
    var k := ChunkPrefix(i) + key;
    var lastPrefix := ChunkPrefix(other);
    RekeyedKey(m, lastPrefix, k);
    if StartsWith(k, lastPrefix) {
      var rest := k[|lastPrefix|..];
      PrefixRest(k, lastPrefix);
      ChunkPrefixInjective(i, other, key, rest);
    }
  }

  lemma PrefixRest(k: string, prefix: string)
    requires StartsWith(k, prefix)
    ensures k == prefix + k[|prefix|..]
  {
  }

  lemma RekeySameKey(prefix: string, a: string, b: string)
    requires prefix + a == prefix + b
    ensures a == b
  {
    assert a == (prefix + a)[|prefix|..];
  }

  /** Storing one more entry and then prefixing is prefixing and then storing under the prefixed key. */
  lemma RekeyAdd<V>(m: map<string, V>, k: string, v: V, prefix: string)
    ensures Rekey(m[k := v], prefix) == Rekey(m, prefix)[prefix + k := v]
  {
    var lhs := Rekey(m[k := v], prefix);
    var rhs := Rekey(m, prefix)[prefix + k := v];
    forall x | x in lhs
      ensures x in rhs && lhs[x] == rhs[x]
    {
      RekeyedKey(m[k := v], prefix, x);
      RekeyedKey(m, prefix, x);
      assert x == prefix + x[|prefix|..];
    }
    forall x | x in rhs
      ensures x in lhs
    {
      RekeyedKey(m[k := v], prefix, x);
      RekeyedKey(m, prefix, x);
      if x == prefix + k {
        assert x[|prefix|..] == k;
      }
    }
  }

  lemma {:induction false} RekeySize<V>(m: map<string, V>, prefix: string)
    ensures |Rekey(m, prefix)| == |m|
    decreases |m|
  {
    if |m| > 0 {
      var k :| k in m;
      var rest := m - {k};
      RekeySize(rest, prefix);
      assert m == rest[k := m[k]];
      RekeyAdd(rest, k, m[k], prefix);
      assert prefix + k !in Rekey(rest, prefix) by {
        RekeyedKey(rest, prefix, prefix + k);
        assert (prefix + k)[|prefix|..] == k;
      }
    }
  }

  /** No key of the chunks so far carries the prefix of a chunk index none of them has. */
  lemma PrefixedUnionDisjoint<V>(init: seq<ChunkOcrResult>, part: OcrResult -> map<string, V>, m: map<string, V>, index: int)
    requires forall j :: 0 <= j < |init| ==> init[j].chunk.chunkIndex != index
    ensures PrefixedUnion(init, part).Keys * Rekey(m, ChunkPrefix(index)).Keys == {}
  {
    var earlier := PrefixedUnion(init, part);
    var added := Rekey(m, ChunkPrefix(index));
    forall k | k in earlier.Keys && k in added.Keys
      ensures false
    {
      PrefixedUnionKeys(init, part, k);
      var j :| 0 <= j < |init| && StartsWith(k, ChunkPrefix(init[j].chunk.chunkIndex))
                && k[|ChunkPrefix(init[j].chunk.chunkIndex)|..] in part(init[j].result);
      RekeyedKey(m, ChunkPrefix(index), k);
      TwoPrefixes(init[j].chunk.chunkIndex, index, k);
    }
  }

  /** A key carries the prefix of at most one chunk index. */
  lemma TwoPrefixes(i: int, j: int, k: string)
    requires StartsWith(k, ChunkPrefix(i)) && StartsWith(k, ChunkPrefix(j))
    ensures i == j
  {
    var p := ChunkPrefix(i);
    var q := ChunkPrefix(j);
    assert k == p + k[|p|..];
    assert k == q + k[|q|..];
    ChunkPrefixInjective(i, j, k[|p|..], k[|q|..]);
  }

  /** With distinct chunk indices the merged map has exactly as many entries as the chunks' maps together. */
  lemma {:induction false} PrefixedUnionSize<V>(rs: seq<ChunkOcrResult>, part: OcrResult -> map<string, V>)
    requires DistinctChunks(rs)
    ensures |PrefixedUnion(rs, part)| == SumSizes(rs, part)
    decreases |rs|
  {
    if rs != [] {
      var init := rs[..|rs| - 1];
      var last := rs[|rs| - 1];
      var earlier := PrefixedUnion(init, part);
      var added := Rekey(part(last.result), ChunkPrefix(last.chunk.chunkIndex));
      assert DistinctChunks(init) by {
        forall i, j | 0 <= i < j < |init|
          ensures init[i].chunk.chunkIndex != init[j].chunk.chunkIndex
        {
          assert init[i] == rs[i] && init[j] == rs[j];
        }
      }
      PrefixedUnionSize(init, part);
      RekeySize(part(last.result), ChunkPrefix(last.chunk.chunkIndex));
      assert forall j :: 0 <= j < |init| ==> init[j].chunk.chunkIndex != last.chunk.chunkIndex by {
        forall j | 0 <= j < |init|
          ensures init[j].chunk.chunkIndex != last.chunk.chunkIndex
        {
          assert init[j] == rs[j];
        }
      }
      PrefixedUnionDisjoint(init, part, part(last.result), last.chunk.chunkIndex);
      assert (earlier + added).Keys == earlier.Keys + added.Keys;
      UnionSize(earlier, added);
    }
  }

  lemma UnionSize<V>(a: map<string, V>, b: map<string, V>)
    requires a.Keys * b.Keys == {}
    ensures |a + b| == |a| + |b|
  {
    assert (a + b).Keys == a.Keys + b.Keys;
    assert |(a + b).Keys| == |a + b|;
  }

  // ---------------------------------------------------------------------------
  // The merge

  function Concat(parts: seq<string>): string
  {
    if parts == [] then "" else Concat(parts[..|parts| - 1]) + parts[|parts| - 1]
  }

  /** The loop over a chunk's map: every entry is stored under the prefixed key. */
  method AddPrefixed<V>(into: map<string, V>, items: map<string, V>, prefix: string) returns (r: map<string, V>)
    ensures r == into + Rekey(items, prefix)
  {
    r := into;
    var todo := items.Keys;
    while todo != {}
      invariant todo <= items.Keys
      invariant r == into + Rekey(items - todo, prefix)
      decreases |todo|
    {
      var k :| k in todo;
      assert into + Rekey(items - (todo - {k}), prefix) == r[prefix + k := items[k]] by {
        MapMinusStep(items, todo, k);
        RekeyAdd(items - todo, k, items[k], prefix);
        UnionUpdate(into, Rekey(items - todo, prefix), prefix + k, items[k]);
      }
      r := r[prefix + k := items[k]];
      todo := todo - {k};
    }
    assert items - todo == items;
  }

  lemma MapMinusStep<V>(items: map<string, V>, todo: set<string>, k: string)
    requires k in todo && todo <= items.Keys
    ensures items - (todo - {k}) == (items - todo)[k := items[k]]
  {
  }

  lemma UnionUpdate<V>(a: map<string, V>, b: map<string, V>, x: string, v: V)
    ensures (a + b)[x := v] == a + b[x := v]
  {
  }

  /** One pass of the merge loop adds one chunk's text, pages and entries. */
  lemma MergeStep(rs: seq<ChunkOcrResult>, i: nat, count: int)
    requires i < |rs|
    ensures MergedBody(rs[..i + 1], count) == MergedBody(rs[..i], count) + ChunkText(rs[i], count, SumPages(rs[..i]))
    ensures SumPages(rs[..i + 1]) == SumPages(rs[..i]) + rs[i].result.pagesProcessed
    ensures PrefixedUnion(rs[..i + 1], ImagesOf)
         == PrefixedUnion(rs[..i], ImagesOf) + Rekey(rs[i].result.images, ChunkPrefix(rs[i].chunk.chunkIndex))
    ensures PrefixedUnion(rs[..i + 1], TablesOf)
         == PrefixedUnion(rs[..i], TablesOf) + Rekey(rs[i].result.tables, ChunkPrefix(rs[i].chunk.chunkIndex))
  {
    assert rs[..i + 1][..i] == rs[..i];
  }

  lemma ConcatAppend(parts: seq<string>, x: string)
    ensures Concat(parts + [x]) == Concat(parts) + x
  {
    assert (parts + [x])[..|parts|] == parts;
  }

  /** `ChunkMerger.merge`. */
  method Merge(chunkResults: seq<ChunkOcrResult>, sourceFile: Option<string>) returns (r: OcrResult)
    ensures |chunkResults| == 1 && Truthy(sourceFile) ==> r == chunkResults[0].result.(sourceFile := sourceFile)
    ensures |chunkResults| == 1 && !Truthy(sourceFile) ==> r == chunkResults[0].result
    ensures |chunkResults| != 1 ==> r == Merged(chunkResults, sourceFile)
  {
    if |chunkResults| == 1 {
      var result := chunkResults[0].result;
      if Truthy(sourceFile) {
        return OcrResult(result.markdown, result.images, result.pagesProcessed, sourceFile, result.tables);
      }
      return result;
    }
    var count := |chunkResults|;
    var parts: seq<string> := [MergedHeader(count)];
    var images: map<string, seq<byte>> := map[];
    var tables: map<string, string> := map[];
    var totalPages := 0;
    var pageOffset := 0;
    assert Concat(parts) == MergedHeader(count) + MergedBody(chunkResults[..0], count) by {
      ConcatAppend([], MergedHeader(count));
    }
    for i := 0 to count
      invariant Concat(parts) == MergedHeader(count) + MergedBody(chunkResults[..i], count)
      invariant images == PrefixedUnion(chunkResults[..i], ImagesOf)
      invariant tables == PrefixedUnion(chunkResults[..i], TablesOf)
      invariant pageOffset == SumPages(chunkResults[..i]) && totalPages == pageOffset
    {
      var chunk := chunkResults[i].chunk;
      var result := chunkResults[i].result;
      var chunkPrefix := ChunkPrefix(chunk.chunkIndex);
      var chunkHeader := ChunkHeader(chunk, count);
      ConcatAppend(parts, chunkHeader);
      parts := parts + [chunkHeader];
      var processed := ProcessMarkdown(result.markdown, pageOffset, chunkPrefix);
      ConcatAppend(parts, processed);
      parts := parts + [processed];
      images := AddPrefixed(images, result.images, chunkPrefix);
      tables := AddPrefixed(tables, result.tables, chunkPrefix);
      MergeStep(chunkResults, i, count);
      assert Concat(parts) == MergedHeader(count) + MergedBody(chunkResults[..i + 1], count) by {
        assert chunkHeader + processed == ChunkText(chunkResults[i], count, pageOffset);
        AppendAssoc(MergedHeader(count) + MergedBody(chunkResults[..i], count), chunkHeader, processed);
        AppendAssoc(MergedHeader(count), MergedBody(chunkResults[..i], count), chunkHeader + processed);
      }
      pageOffset := pageOffset + result.pagesProcessed;
      totalPages := totalPages + result.pagesProcessed;
    }
    assert chunkResults[..count] == chunkResults;
    r := OcrResult(Concat(parts), images, totalPages, sourceFile, tables);
  }
}
