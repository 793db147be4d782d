/**
 * The Zotero storage of OCR results (`zotero_storage.py`): finding an earlier
 * conversion among an item's children, the names under which a result is
 * stored, the rewrites made to the markdown before it is saved, the
 * truncation of the note and the markdown-to-HTML conversion of its text.
 * Zotero calls, files and clocks are outside the model: a children listing
 * is an input (`Err` when the call raises), and so is the conversion time.
 */
module Storage {
  import opened Wrappers
  import opened Text
  import opened Patterns
  import opened OcrClient
  import opened Pieces

  /** Marks the attachments this program creates. */
  const OCR_ATTACHMENT_MARKER: string := "[Mistral-OCR]"

  /** Longest note text stored as it is (500 KB, under Zotero's limit of about 1 MB). */
  const MAX_NOTE_SIZE: nat := 500000

  /** A child record of a Zotero item, as far as it is read; a field the record lacks reads as "". */
  datatype Child = Child(key: string, itemType: string, title: string, contentType: string, filename: string, note: string)

  // ---------------------------------------------------------------------------
  // Finding an earlier conversion

  predicate IsOcrAttachment(c: Child)
  {
    c.itemType == "attachment" && Contains(c.title, OCR_ATTACHMENT_MARKER)
  }

  /** The first child the predicate accepts, if any. */
  function FindFirst(cs: seq<Child>, wanted: Child -> bool): (r: Option<Child>)
    ensures r.None? <==> forall i :: 0 <= i < |cs| ==> !wanted(cs[i])
    ensures r.Some? ==> exists i :: 0 <= i < |cs| && cs[i] == r.value && wanted(cs[i])
                                   && forall j :: 0 <= j < i ==> !wanted(cs[j])
  {
    if cs == [] then None
    else if wanted(cs[0]) then Some(cs[0])
    else
      var r := FindFirst(cs[1..], wanted);
      assert forall i :: 1 <= i < |cs| ==> cs[i] == cs[1..][i - 1];
      r
  }

  /** `get_ocr_attachment`: the first OCR attachment among the children, none when the listing fails. */
  method GetOcrAttachment(listing: Result<seq<Child>, string>) returns (r: Option<Child>)
    ensures r == if listing.Ok? then FindFirst(listing.value, IsOcrAttachment) else None
  {
    if listing.Err? {
      return None;
    }
    var children := listing.value;
    var i := 0;
    while i < |children|
      invariant 0 <= i <= |children|
      invariant FindFirst(children[i..], IsOcrAttachment) == FindFirst(children, IsOcrAttachment)
    {
      var child := children[i];
      assert children[i..][1..] == children[i + 1..];
      if child.itemType == "attachment" {
        var title := child.title;
        if Contains(title, OCR_ATTACHMENT_MARKER) {
          return Some(child);
        }
      }
      i := i + 1;
    }
    return None;
  }

  /** `has_ocr_attachment` and `has_ocr_conversion`, which are the same test. */
  method HasOcrAttachment(listing: Result<seq<Child>, string>) returns (b: bool)
    ensures b <==> listing.Ok? && exists i :: 0 <= i < |listing.value| && IsOcrAttachment(listing.value[i])
  {
    var r := GetOcrAttachment(listing);
    b := r.Some?;
  }

  // ---------------------------------------------------------------------------
  // Names

  /** `name.rfind(c)`, none when `c` does not occur. */
  function LastIndex(s: string, c: char): (r: Option<nat>)
    ensures r.None? <==> c !in s
    ensures r.Some? ==> r.value < |s| && s[r.value] == c && c !in s[r.value + 1..]
  {
    if s == [] then None
    else if s[|s| - 1] == c then Some(|s| - 1)
    else
      var r := LastIndex(s[..|s| - 1], c);
      assert r.Some? ==> s[r.value + 1..] == s[..|s| - 1][r.value + 1..] + [s[|s| - 1]];
      assert r.None? ==> s == s[..|s| - 1] + [s[|s| - 1]];
      r
  }

  /** `Path.stem` (Python 3.12): the name without its last suffix; a leading or trailing dot is no suffix. */
  function Stem(name: string): (r: string)
    ensures |r| <= |name| && r == name[..|r|]
  {
    var i := LastIndex(name, '.');
    if i.Some? && 0 < i.value < |name| - 1 then name[..i.value] else name
  }

  /** `Path(pdf_filename).stem if pdf_filename else item_key`. */
  function BaseName(pdfFilename: Option<string>, itemKey: string): (r: string)
    ensures pdfFilename.Some? && pdfFilename.value != "" ==> '/' !in r && |r| <= |PathName(pdfFilename.value)| && r == PathName(pdfFilename.value)[..|r|]
    ensures pdfFilename.None? || pdfFilename.value == "" ==> r == itemKey
  {
    if pdfFilename.Some? && pdfFilename.value != "" then Stem(PathName(pdfFilename.value)) else itemKey
  }

  function MarkdownFilename(baseName: string): string
  {
    baseName + "_ocr.md"
  }

  function AttachmentTitle(baseName: string): string
  {
    OCR_ATTACHMENT_MARKER + " " + baseName
  }

  lemma {:induction false} LastIndexAfter(a: string, c: char, ext: string)
    requires c !in ext
    ensures LastIndex(a + [c] + ext, c) == Some(|a|)
  {
    var s := a + [c] + ext;
    assert s[|a|] == c && s[|a| + 1..] == ext;
  }

  /** A file name loses exactly its last extension to `stem`. */
  lemma StemDropsExtension(n: string, ext: string)
    requires n != "" && ext != "" && '.' !in ext
    ensures Stem(n + "." + ext) == n
  {
    LastIndexAfter(n, '.', ext);
    assert (n + "." + ext)[..|n|] == n;
  }

  /** The last component of a path given with a directory is the file's name. */
  lemma PathNameOfFile(dir: string, file: string)
    requires '/' !in file && file != "" && file != "."
    requires dir == "" || dir[|dir| - 1] == '/'
    ensures PathName(dir + file) == file
  {
    if dir == "" {
      assert dir + file == file;
    } else {
      var d := dir[..|dir| - 1];
      assert dir + file == d + ['/'] + file;
      SplitConcat(d, file, '/');
    }
  }

  /**
   * A PDF stored from `dir/n.pdf` is saved as `n_ocr.md` under the title
   * `[Mistral-OCR] n`; one stored without a file name is named after the item.
   */
  lemma StoredNames(dir: string, n: string, itemKey: string)
    requires '/' !in n && n != ""
    requires dir == "" || dir[|dir| - 1] == '/'
    ensures MarkdownFilename(BaseName(Some(dir + n + ".pdf"), itemKey)) == n + "_ocr.md"
    ensures AttachmentTitle(BaseName(Some(dir + n + ".pdf"), itemKey)) == "[Mistral-OCR] " + n
    ensures MarkdownFilename(BaseName(None, itemKey)) == itemKey + "_ocr.md"
  {
    BaseNameOfPdf(dir, n, itemKey);
  }

  lemma BaseNameOfPdf(dir: string, n: string, itemKey: string)
    requires '/' !in n && n != ""
    requires dir == "" || dir[|dir| - 1] == '/'
    ensures BaseName(Some(dir + n + ".pdf"), itemKey) == n
  {
    var file := n + ".pdf";
    assert file != "" && file != "." by {
      assert file[|file| - 1] == 'f';
    }
    assert '/' !in file;
    assert dir + n + ".pdf" == dir + file;
    PathNameOfFile(dir, file);
    assert file == n + "." + "pdf";
    StemDropsExtension(n, "pdf");
  }

  /** An attachment carrying the title this storage gives is recognised as an earlier conversion. */
  lemma StoredAttachmentFound(cs: seq<Child>, i: nat, baseName: string)
    requires i < |cs| && cs[i].itemType == "attachment" && cs[i].title == AttachmentTitle(baseName)
    ensures FindFirst(cs, IsOcrAttachment).Some?
  {
    TitleMarked(baseName);
    assert IsOcrAttachment(cs[i]);
  }

  // ---------------------------------------------------------------------------
  // The stored markdown

  /** `result.source_file or 'Unknown'`. */
  function SourceLabel(sourceFile: Option<string>): string
  {
    if sourceFile.Some? && sourceFile.value != "" then sourceFile.value else "Unknown"
  }

  /** The lines of the comment put before the stored markdown; `converted` is the ISO time of the conversion. */
  function HeaderLines(sourceFile: Option<string>, pages: int, converted: string): seq<string>
  {
    ["<!--", "Mistral OCR Conversion", "Source: " + SourceLabel(sourceFile), "Pages: " + IntToString(pages),
     "Converted: " + converted, "-->", ""]
  }

  /** The comment itself: its lines, each ended by a line break. */
  function MetadataHeader(sourceFile: Option<string>, pages: int, converted: string): string
  {
    Terminated(HeaderLines(sourceFile, pages, converted))
  }

  /** Lines, each followed by a line break. */
  function Terminated(lines: seq<string>): string
  {
    if lines == [] then "" else lines[0] + "\n" + Terminated(lines[1..])
  }

  lemma {:induction false} SplitTerminated(lines: seq<string>, body: string)
    requires forall i :: 0 <= i < |lines| ==> '\n' !in lines[i]
    ensures Split(Terminated(lines) + body, '\n') == lines + Split(body, '\n')
  {
    if lines != [] {
      calc {
        Split(Terminated(lines) + body, '\n');
        == { assert Terminated(lines) + body == lines[0] + ['\n'] + (Terminated(lines[1..]) + body); }
        Split(lines[0] + ['\n'] + (Terminated(lines[1..]) + body), '\n');
        == { SplitConcat(lines[0], Terminated(lines[1..]) + body, '\n'); }
        Split(lines[0], '\n') + Split(Terminated(lines[1..]) + body, '\n');
        == { SplitTerminated(lines[1..], body); }
        [lines[0]] + (lines[1..] + Split(body, '\n'));
        == { assert [lines[0]] + lines[1..] == lines; }
        lines + Split(body, '\n');
      }
    } else {
      assert Terminated(lines) + body == body;
    }
  }

  lemma IntToStringOneLine(i: int)
    ensures '\n' !in IntToString(i)
  {
    var d := if i < 0 then NatToString(-i) else NatToString(i);
    assert forall k :: 0 <= k < |d| ==> IsDigit(d[k]);
  }

  /**
   * The stored file reads as the seven header lines, the source, page count and
   * time among them, and then the lines of the markdown, unchanged.
   */
  lemma StoredLines(sourceFile: Option<string>, pages: int, converted: string, body: string)
    requires '\n' !in SourceLabel(sourceFile) && '\n' !in converted
    ensures Split(MetadataHeader(sourceFile, pages, converted) + body, '\n')
            == HeaderLines(sourceFile, pages, converted) + Split(body, '\n')
  {
    IntToStringOneLine(pages);
    SplitTerminated(HeaderLines(sourceFile, pages, converted), body);
  }

  /** Image links move under `images/`, when the result has images; text without a link end `](` is untouched. */
  function RewriteImagePaths(markdown: string, images: map<string, seq<byte>>): (r: string)
    ensures !Contains(markdown, "](") ==> r == markdown
  {
    if |images| > 0 then
      if !Contains(markdown, "](") then
        SubAbsent(ImagesLink, markdown);
        Sub(ImagesLink, markdown)
      else Sub(ImagesLink, markdown)
    else markdown
  }

  /**
   * Over markdown made of pieces the rewrite maps piece by piece: when the
   * result has images, every image link without a directory or prefix moves
   * under `images/`, wherever it stands and however many there are.
   */
  lemma RewritePieces(ps: seq<Piece>, images: map<string, seq<byte>>)
    requires AllWellFormed(ps)
    ensures RewriteImagePaths(Render(ps), images) == Render(if |images| > 0 then PassAll(ImagesLink, ps) else ps)
  {
    if |images| > 0 {
      SubRender(ImagesLink, ps);
    }
  }

  lemma {:induction false} MovedTwice(ps: seq<Piece>)
    ensures PassAll(ImagesLink, PassAll(ImagesLink, ps)) == PassAll(ImagesLink, ps)
    decreases |ps|
  {
    if ps != [] {
      MovedTwice(ps[1..]);
      var r := PassAll(ImagesLink, ps);
      assert r[1..] == PassAll(ImagesLink, ps[1..]);
      assert PassAll(ImagesLink, r) == [Pass(ImagesLink, r[0])] + PassAll(ImagesLink, r[1..]);
    }
  }

  /** Rewriting a rewritten text changes nothing more. */
  lemma RewriteOnce(ps: seq<Piece>, images: map<string, seq<byte>>)
    requires AllWellFormed(ps)
    ensures RewriteImagePaths(RewriteImagePaths(Render(ps), images), images) == RewriteImagePaths(Render(ps), images)
  {
    if |images| > 0 {
      var qs := PassAll(ImagesLink, ps);
      calc {
        RewriteImagePaths(RewriteImagePaths(Render(ps), images), images);
        { RewritePieces(ps, images); }
        RewriteImagePaths(Render(qs), images);
        { PassAllWellFormed(ImagesLink, ps); RewritePieces(qs, images); }
        Render(PassAll(ImagesLink, qs));
        { MovedTwice(ps); }
        Render(qs);
        { RewritePieces(ps, images); }
        RewriteImagePaths(Render(ps), images);
      }
    }
  }

  lemma RewriteBetween(a: string, x: Piece, b: string, images: map<string, seq<byte>>)
    requires Plain(a) && WellFormed(x) && !x.Words? && Plain(b)
    ensures RewriteImagePaths(a + Show(x) + b, images) == a + Show(if |images| > 0 then Pass(ImagesLink, x) else x) + b
  {
    PlainAround(a, x, b);
    var ps := [Words(a), x, Words(b)];
    var y := if |images| > 0 then Pass(ImagesLink, x) else x;
    calc {
      RewriteImagePaths(a + Show(x) + b, images);
      { Between(a, x, b); }
      RewriteImagePaths(Render(ps), images);
      { RewritePieces(ps, images); }
      Render(if |images| > 0 then PassAll(ImagesLink, ps) else ps);
      { PassThree(ImagesLink, a, x, b); }
      Render([Words(a), y, Words(b)]);
      { Between(a, y, b); }
      a + Show(y) + b;
    }
  }

  /** An image link `![alt](img-N.ext)` is moved under `images/` exactly when the result has images. */
  lemma RewriteBareLink(a: string, alt: string, n: nat, ext: string, b: string, images: map<string, seq<byte>>)
    requires Plain(a) && Plain(b) && Plain(alt) && !StartsWith(alt, "tbl-") && IsExtension(ext)
    ensures RewriteImagePaths(a + "![" + alt + "](" + ImageFile(n, ext) + ")" + b, images)
            == if |images| > 0 then a + "![" + alt + "](images/" + ImageFile(n, ext) + ")" + b
               else a + "![" + alt + "](" + ImageFile(n, ext) + ")" + b
  {
    var x := MdImage(alt, "", "", n, ext);
    PlainMdImageText(a, alt, n, ext, b);
    RewriteBetween(a, x, b, images);
    MovedMdImageText(a, alt, n, ext, b);
  }

  /**
   * A link already under `images/`, or one whose file name carries a chunk
   * prefix, is left alone.
   */
  lemma RewriteKeepsOtherLink(a: string, alt: string, dir: string, pre: string, n: nat, ext: string, b: string,
                              images: map<string, seq<byte>>)
    requires Plain(a) && Plain(b) && Plain(alt) && !StartsWith(alt, "tbl-") && IsExtension(ext)
    requires DirOk(dir) && PrefixOk(pre) && (dir != "" || pre != "")
    ensures var s := a + "![" + alt + "](" + dir + pre + ImageFile(n, ext) + ")" + b;
      RewriteImagePaths(s, images) == s
  {
    MdImageText(a, alt, dir, pre, n, ext, b);
    RewriteBetween(a, MdImage(alt, dir, pre, n, ext), b, images);
  }

  /** The link `[id](id)` the service writes for a table. */
  function TableLink(id: string): string
  {
    "[" + id + "](" + id + ")"
  }

  /** What replaces a table link: the table, set apart by blank lines. */
  function TableBlock(content: string): string
  {
    "\n\n" + content + "\n\n"
  }

  /** The tables, in the order given, each replacing every literal link to it in turn. */
  function InlineAll(markdown: string, tables: map<string, string>, order: seq<string>): string
    requires forall i :: 0 <= i < |order| ==> order[i] in tables
    decreases |order|
  {
    if order == [] then markdown
    else InlineAll(Replace(markdown, TableLink(order[0]), TableBlock(tables[order[0]])), tables, order[1..])
  }

  /**
   * The table inlining of `store_ocr_result`; `order` is the dictionary's
   * iteration order, which is the order the tables were parsed in.
   */
  method InlineTables(markdown: string, tables: map<string, string>, order: seq<string>) returns (r: string)
    requires IterationOrder(order, tables)
    ensures r == InlineAll(markdown, tables, order)
    ensures forall ps: seq<Part> {:trigger RenderParts(ps)} :: markdown == RenderParts(ps) && AllPartsOk(ps) && TablesOk(tables) ==>
              r == RenderParts(InlinedParts(ps, tables, order))
              && forall i :: 0 <= i < |ps| && ps[i].LinkTo? && ps[i].id in tables ==>
                   InlinedParts(ps, tables, order)[i] == Prose(TableBlock(tables[ps[i].id]))
  {
    r := markdown;
    for i := 0 to |order|
      invariant InlineAll(r, tables, order[i..]) == InlineAll(markdown, tables, order)
    {
      assert order[i..][1..] == order[i + 1..];
      var id := order[i];
      r := Replace(r, TableLink(id), TableBlock(tables[id]));
    }
    assert order[|order|..] == [];
    forall ps: seq<Part> | markdown == RenderParts(ps) && AllPartsOk(ps) && TablesOk(tables)
      ensures r == RenderParts(InlinedParts(ps, tables, order))
    {
      InlineEveryTable(ps, tables, order);
    }
  }

  /** Table ids and contents with no bracket in them, as the service writes them. */
  predicate Bracketless(tables: map<string, string>)
  {
    forall k :: k in tables ==> '[' !in k && ']' !in k && '[' !in tables[k]
  }

  /** A text without `[` holds no table link, so inlining leaves it alone. */
  lemma {:induction false} InlineAllAbsent(markdown: string, tables: map<string, string>, order: seq<string>)
    requires forall i :: 0 <= i < |order| ==> order[i] in tables
    requires '[' !in markdown
    ensures InlineAll(markdown, tables, order) == markdown
    decreases |order|
  {
    if order != [] {
      AbsentCharNotContained(markdown, TableLink(order[0]), 0);
      ReplaceAbsent(markdown, TableLink(order[0]), TableBlock(tables[order[0]]));
      InlineAllAbsent(markdown, tables, order[1..]);
    }
  }

  /** The link to one table never starts the link to another. */
  lemma LinkStartsNoOther(id: string, k: string, b: string)
    requires ']' !in id && ']' !in k && k != id
    ensures !StartsWith(TableLink(id) + b, TableLink(k))
  {
    var s := TableLink(id) + b;
    var l := TableLink(k);
    if |k| < |id| {
      assert s[1 + |k|] == id[|k|] && l[1 + |k|] == ']';
      NotStartsWithAt(s, l, 1 + |k|);
    } else if |k| > |id| {
      assert s[1 + |id|] == ']' && l[1 + |id|] == k[|id|];
      NotStartsWithAt(s, l, 1 + |id|);
    } else {
      var j := FirstDiff(k, id);
      assert s[1 + j] == id[j] && l[1 + j] == k[j];
      NotStartsWithAt(s, l, 1 + j);
    }
  }

  /** Replacing the link to another table leaves a text with one table link alone. */
  lemma ReplaceOtherLink(a: string, id: string, b: string, k: string, rep: string)
    requires '[' !in a && '[' !in b && '[' !in id && ']' !in id && ']' !in k && k != id
    ensures Replace(a + TableLink(id) + b, TableLink(k), rep) == a + TableLink(id) + b
  {
    var s := TableLink(id) + b;
    var tail := id + "](" + id + ")" + b;
    assert s == "[" + tail;
    assert a + TableLink(id) + b == a + s;
    ReplaceSkip(a, s, TableLink(k), rep);
    LinkStartsNoOther(id, k, b);
    assert s[1..] == tail;
    AbsentCharNotContained(tail, TableLink(k), 0);
    ReplaceAbsent(tail, TableLink(k), rep);
  }

  /**
   * A link to a table, among text without brackets, is replaced by the table
   * once the table's turn comes, whatever the other tables are.
   */
  lemma {:induction false} InlineAllOne(a: string, id: string, b: string, tables: map<string, string>, order: seq<string>)
    requires forall i :: 0 <= i < |order| ==> order[i] in tables
    requires Bracketless(tables) && id in order
    requires '[' !in a && '[' !in b
    ensures InlineAll(a + TableLink(id) + b, tables, order) == a + TableBlock(tables[id]) + b
    decreases |order|
  {
    var k := order[0];
    var s := a + TableLink(id) + b;
    if k == id {
      assert TableLink(id)[0] == '[';
      ReplaceOnce(a, TableLink(id), b, TableBlock(tables[id]));
      assert '[' !in a + TableBlock(tables[id]) + b;
      InlineAllAbsent(a + TableBlock(tables[id]) + b, tables, order[1..]);
    } else {
      ReplaceOtherLink(a, id, b, k, TableBlock(tables[k]));
      assert id in order[1..] by {
        var i :| 0 <= i < |order| && order[i] == id;
        assert order[1..][i - 1] == id;
      }
      InlineAllOne(a, id, b, tables, order[1..]);
    }
  }

  // ---------------------------------------------------------------------------
  // Inlining every table of a result

  /** The order a dictionary iterates in: every key once. */
  predicate IterationOrder(order: seq<string>, tables: map<string, string>)
  {
    && (forall i, j :: 0 <= i < j < |order| ==> order[i] != order[j])
    && (forall i :: 0 <= i < |order| ==> order[i] in tables)
    && (forall k :: k in tables ==> k in order)
  }

  /** Text that holds none of the characters of a markdown link. */
  predicate LinkFree(s: string)
  {
    '[' !in s && ']' !in s && '(' !in s && ')' !in s
  }

  /** Table ids the links can be told apart by, and contents that hold no link. */
  predicate TablesOk(tables: map<string, string>)
  {
    forall k :: k in tables ==> LinkFree(k) && '[' !in tables[k]
  }

  /**
   * Markdown as the table inlining sees it: text without `[`, links
   * `[id](id)` to a table, and other links `[label](target)`.
   */
  datatype Part = Prose(text: string) | LinkTo(id: string) | OtherLink(caption: string, target: string)

  function ShowPart(x: Part): string
  {
    match x
    case Prose(t) => t
    case LinkTo(id) => TableLink(id)
    case OtherLink(caption, target) => "[" + caption + "](" + target + ")"
  }

  function RenderParts(ps: seq<Part>): string
    decreases |ps|
  {
    if ps == [] then "" else ShowPart(ps[0]) + RenderParts(ps[1..])
  }

  predicate PartOk(x: Part)
  {
    match x
    case Prose(t) => '[' !in t
    case LinkTo(id) => LinkFree(id)
    case OtherLink(caption, target) => LinkFree(caption) && LinkFree(target) && caption != target
  }

  predicate AllPartsOk(ps: seq<Part>)
  {
    forall i :: 0 <= i < |ps| ==> PartOk(ps[i])
  }

  /** What inlining the tables whose ids are in `done` makes of a part. */
  function InlinedPart(x: Part, tables: map<string, string>, done: seq<string>): Part
  {
    if x.LinkTo? && x.id in done && x.id in tables then Prose(TableBlock(tables[x.id])) else x
  }

  function InlinedParts(ps: seq<Part>, tables: map<string, string>, done: seq<string>): (r: seq<Part>)
    ensures |r| == |ps|
  {
    seq(|ps|, i requires 0 <= i < |ps| => InlinedPart(ps[i], tables, done))
  }

  /** Where the searched-for string does not start, `replace` copies one character. */
  lemma ReplaceUnmatched(s: string, pat: string, rep: string)
    requires |pat| > 0 && s != [] && !StartsWith(s, pat)
    ensures Replace(s, pat, rep) == [s[0]] + Replace(s[1..], pat, rep)
  {
  }

  lemma ReplaceMatched(pat: string, t: string, rep: string)
    requires |pat| > 0
    ensures Replace(pat + t, pat, rep) == rep + Replace(t, pat, rep)
  {
    assert (pat + t)[..|pat|] == pat && (pat + t)[|pat|..] == t;
  }

  /** Two different texts without `c`, after the same start, cannot both lead up to a `c`. */
  lemma DiffersAfter(w: string, x: string, y: string, c: char, rest: string, more: string)
    requires x != y && c !in x && c !in y
    ensures !StartsWith(w + x + [c] + rest, w + y + [c] + more)
  {
    var s := w + x + [c] + rest;
    var p := w + y + [c] + more;
    var o := |w|;
    if |y| < |x| {
      assert s[o + |y|] == x[|y|] && p[o + |y|] == c;
      NotStartsWithAt(s, p, o + |y|);
    } else if |y| > |x| {
      assert s[o + |x|] == c && p[o + |x|] == y[|x|];
      NotStartsWithAt(s, p, o + |x|);
    } else {
      var j := FirstDiff(x, y);
      assert s[o + j] == x[j] && p[o + j] == y[j];
      NotStartsWithAt(s, p, o + j);
    }
  }

  /** A link, cut after its caption. */
  lemma CaptionShape(a: string, b: string, t: string)
    ensures "[" + a + "](" + b + ")" + t == "[" + a + [']'] + ("(" + b + ")" + t)
  {
  }

  /** A link, cut after its target. */
  lemma TargetShape(a: string, b: string, t: string)
    ensures "[" + a + "](" + b + ")" + t == "[" + a + "](" + b + [')'] + t
  {
  }

  /** No part but the link to `k` itself starts that link. */
  lemma PartNotLink(x: Part, k: string, t: string)
    requires PartOk(x) && LinkFree(k) && x != LinkTo(k) && ShowPart(x) != []
    ensures !StartsWith(ShowPart(x) + t, TableLink(k))
  {
    match x
    case Prose(w) =>
      assert (ShowPart(x) + t)[0] == w[0];
      NotStartsWithAt(ShowPart(x) + t, TableLink(k), 0);
    case LinkTo(id) =>
      CaptionShape(id, id, t);
      CaptionShape(k, k, "");
      DiffersAfter("[", id, k, ']', "(" + id + ")" + t, "(" + k + ")" + "");
    case OtherLink(caption, target) =>
      if caption != k {
        CaptionShape(caption, target, t);
        CaptionShape(k, k, "");
        DiffersAfter("[", caption, k, ']', "(" + target + ")" + t, "(" + k + ")" + "");
      } else {
        TargetShape(k, target, t);
        TargetShape(k, k, "");
        DiffersAfter("[" + k + "](", target, k, ')', t, "");
      }
  }

  /** The characters after the first of a part that is not the link to `k` hold no `[`. */
  lemma PartTail(x: Part)
    requires PartOk(x) && !x.LinkTo? && ShowPart(x) != []
    ensures '[' !in ShowPart(x)[1..]
  {
    match x
    case Prose(w) =>
    case OtherLink(caption, target) =>
      assert ShowPart(x)[1..] == caption + "](" + target + ")";
  }

  lemma LinkTail(id: string)
    requires LinkFree(id)
    ensures '[' !in TableLink(id)[1..]
  {
    assert TableLink(id)[1..] == id + "](" + id + ")";
  }

  /** `replace` of the link to table `k` in one part, followed by any text. */
  lemma ReplacePart(x: Part, k: string, block: string, t: string)
    requires PartOk(x) && LinkFree(k)
    ensures Replace(ShowPart(x) + t, TableLink(k), block)
         == (if x == LinkTo(k) then block else ShowPart(x)) + Replace(t, TableLink(k), block)
  {
    var pat := TableLink(k);
    var m := ShowPart(x);
    if x == LinkTo(k) {
      ReplaceMatched(pat, t, block);
    } else if m == [] {
      assert m + t == t;
    } else {
      PartNotLink(x, k, t);
      if x.LinkTo? { LinkTail(x.id); } else { PartTail(x); }
      ReplaceCopiesHead(m, t, pat, block);
    }
  }

  /** A text not starting what is searched for, whose first character alone could start it, is copied. */
  lemma ReplaceCopiesHead(m: string, t: string, pat: string, rep: string)
    requires |pat| > 0 && m != [] && !StartsWith(m + t, pat) && pat[0] !in m[1..]
    ensures Replace(m + t, pat, rep) == m + Replace(t, pat, rep)
  {
    calc {
      Replace(m + t, pat, rep);
      { ReplaceUnmatched(m + t, pat, rep); TailAfterHead(m, t); }
      [m[0]] + Replace(m[1..] + t, pat, rep);
      { ReplaceSkip(m[1..], t, pat, rep); }
      [m[0]] + (m[1..] + Replace(t, pat, rep));
      { HeadRest(m, Replace(t, pat, rep)); }
      m + Replace(t, pat, rep);
    }
  }

  lemma TailAfterHead(m: string, t: string)
    requires m != []
    ensures (m + t)[0] == m[0] && (m + t)[1..] == m[1..] + t
  {
  }

  /** `replace` of the link to one table, over a whole text made of parts. */
  lemma {:induction false} ReplaceParts(ps: seq<Part>, tables: map<string, string>, k: string)
    requires AllPartsOk(ps) && TablesOk(tables) && k in tables
    ensures Replace(RenderParts(ps), TableLink(k), TableBlock(tables[k])) == RenderParts(InlinedParts(ps, tables, [k]))
    decreases |ps|
  {
    var pat := TableLink(k);
    var block := TableBlock(tables[k]);
    if ps != [] {
      var x := ps[0];
      var rest := ps[1..];
      PartsTail(ps);
      calc {
        Replace(RenderParts(ps), pat, block);
        Replace(ShowPart(x) + RenderParts(rest), pat, block);
        { ReplacePart(x, k, block, RenderParts(rest)); }
        (if x == LinkTo(k) then block else ShowPart(x)) + Replace(RenderParts(rest), pat, block);
        { ReplaceParts(rest, tables, k); }
        ShowPart(InlinedPart(x, tables, [k])) + RenderParts(InlinedParts(rest, tables, [k]));
        { RenderCons(InlinedPart(x, tables, [k]), InlinedParts(rest, tables, [k])); }
        RenderParts([InlinedPart(x, tables, [k])] + InlinedParts(rest, tables, [k]));
        { InlinedCons(ps, tables, [k]); }
        RenderParts(InlinedParts(ps, tables, [k]));
      }
    } else {
      ReplaceAbsentEmpty(pat, block);
    }
  }

  lemma PartsTail(ps: seq<Part>)
    requires AllPartsOk(ps) && ps != []
    ensures AllPartsOk(ps[1..]) && PartOk(ps[0])
  {
    var rest := ps[1..];
    forall i | 0 <= i < |rest| ensures PartOk(rest[i]) { assert rest[i] == ps[i + 1]; }
  }

  lemma RenderCons(x: Part, rest: seq<Part>)
    ensures RenderParts([x] + rest) == ShowPart(x) + RenderParts(rest)
  {
    assert ([x] + rest)[1..] == rest;
  }

  lemma InlinedCons(ps: seq<Part>, tables: map<string, string>, done: seq<string>)
    requires ps != []
    ensures InlinedParts(ps, tables, done) == [InlinedPart(ps[0], tables, done)] + InlinedParts(ps[1..], tables, done)
  {
  }

  lemma ReplaceAbsentEmpty(pat: string, rep: string)
    requires |pat| > 0
    ensures Replace("", pat, rep) == ""
  {
  }

  /** What inlining once more after `k` leaves of the parts is what inlining `k` and then the rest leaves. */
  lemma InlinedStep(ps: seq<Part>, tables: map<string, string>, order: seq<string>)
    requires order != [] && order[0] in tables && TablesOk(tables)
    ensures InlinedParts(InlinedParts(ps, tables, [order[0]]), tables, order[1..]) == InlinedParts(ps, tables, order)
  {
    var k := order[0];
    forall i | 0 <= i < |ps|
      ensures InlinedPart(InlinedPart(ps[i], tables, [k]), tables, order[1..]) == InlinedPart(ps[i], tables, order)
    {
      var x := ps[i];
      if x.LinkTo? {
        assert x.id in order <==> x.id == k || x.id in order[1..] by {
          assert order == [k] + order[1..];
        }
      }
    }
  }

  lemma InlinedPartsOk(ps: seq<Part>, tables: map<string, string>, done: seq<string>)
    requires AllPartsOk(ps) && TablesOk(tables)
    ensures AllPartsOk(InlinedParts(ps, tables, done))
  {
  }

  /**
   * The tables, inlined in the given order, replace every link `[id](id)` to
   * one of them that the order names, and leave every other part of the text.
   */
  lemma {:induction false} InlineAllParts(ps: seq<Part>, tables: map<string, string>, order: seq<string>)
    requires forall i :: 0 <= i < |order| ==> order[i] in tables
    requires AllPartsOk(ps) && TablesOk(tables)
    ensures InlineAll(RenderParts(ps), tables, order) == RenderParts(InlinedParts(ps, tables, order))
    decreases |order|
  {
    if order == [] {
      assert InlinedParts(ps, tables, order) == ps;
    } else {
      var k := order[0];
      var ps1 := InlinedParts(ps, tables, [k]);
      ReplaceParts(ps, tables, k);
      InlinedPartsOk(ps, tables, [k]);
      InlineAllParts(ps1, tables, order[1..]);
      InlinedStep(ps, tables, order);
    }
  }

  /**
   * `store_ocr_result` inlines every table of the result: over the
   * dictionary's iteration order, each link `[id](id)` to a table becomes the
   * table between blank lines, and links to anything else stay.
   */
  lemma InlineEveryTable(ps: seq<Part>, tables: map<string, string>, order: seq<string>)
    requires IterationOrder(order, tables)
    requires AllPartsOk(ps) && TablesOk(tables)
    ensures var r := InlinedParts(ps, tables, order);
      && InlineAll(RenderParts(ps), tables, order) == RenderParts(r)
      && forall i :: 0 <= i < |ps| ==>
           r[i] == if ps[i].LinkTo? && ps[i].id in tables then Prose(TableBlock(tables[ps[i].id])) else ps[i]
  {
    InlineAllParts(ps, tables, order);
  }

  /** The markdown file a result is stored as, converted at time `converted`. */
  function StoredMarkdown(result: OcrResult, order: seq<string>, converted: string): string
    requires IterationOrder(order, result.tables)
  {
    MetadataHeader(result.sourceFile, result.pagesProcessed, converted)
    + InlineAll(RewriteImagePaths(result.markdown, result.images), result.tables, order)
  }

  /** What `store_ocr_result` writes: the names and the markdown, without the files and the Zotero item. */
  datatype Stored = Stored(markdownFilename: string, title: string, markdown: string)

  method StoreOcrResult(itemKey: string, result: OcrResult, pdfFilename: Option<string>, order: seq<string>, converted: string)
    returns (s: Stored)
    requires IterationOrder(order, result.tables)
    ensures s.markdownFilename == MarkdownFilename(BaseName(pdfFilename, itemKey))
    ensures s.title == AttachmentTitle(BaseName(pdfFilename, itemKey))
    ensures s.markdown == StoredMarkdown(result, order, converted)
  {
    var baseName := BaseName(pdfFilename, itemKey);
    var header := MetadataHeader(result.sourceFile, result.pagesProcessed, converted);
    var content := result.markdown;
    if |result.images| > 0 {
      content := Sub(ImagesLink, content);
    }
    content := InlineTables(content, result.tables, order);
    s := Stored(MarkdownFilename(baseName), AttachmentTitle(baseName), header + content);
  }

  // ---------------------------------------------------------------------------
  // The note

  function TruncationNotice(mdPath: string): string
  {
    "\n\n---\n*[Content truncated. Full version: " + mdPath + "]*"
  }

  /** The note text: the stored markdown, cut to its first 500000 characters and a notice when longer. */
  function TruncateNote(full: string, mdPath: string): (r: string)
    ensures |full| <= MAX_NOTE_SIZE ==> r == full
    ensures |full| > MAX_NOTE_SIZE ==>
              |r| == MAX_NOTE_SIZE + |TruncationNotice(mdPath)|
              && r[..MAX_NOTE_SIZE] == full[..MAX_NOTE_SIZE]
              && r[MAX_NOTE_SIZE..] == TruncationNotice(mdPath)
  {
    if |full| > MAX_NOTE_SIZE then
      var r := full[..MAX_NOTE_SIZE] + TruncationNotice(mdPath);
      assert r[..MAX_NOTE_SIZE] == full[..MAX_NOTE_SIZE];
      assert r[MAX_NOTE_SIZE..] == TruncationNotice(mdPath);
      r
    else full
  }

  /** A note is never longer than the limit and the notice. */
  lemma TruncateNoteBound(full: string, mdPath: string)
    ensures |TruncateNote(full, mdPath)| <= MAX_NOTE_SIZE + |TruncationNotice(mdPath)|
  {
  }

  /** The note's content: the title as a heading, then the HTML. */
  function NoteContent(title: string, html: string): string
  {
    "<h1>" + title + "</h1>\n" + html
  }

  // ---------------------------------------------------------------------------
  // Markdown to HTML

  /** A line that opens or closes a code block. */
  predicate IsFence(line: string)
  {
    StartsWith(line, "```")
  }

  /** `\*\*(.+?)\*\*` at the start of the text: the index of the closing `**`, if it matches. */
  function BoldAt(s: string): (r: Option<nat>)
    ensures r.Some? ==> 3 <= r.value && r.value + 2 <= |s|
  {
    if StartsWith(s, "**") && |s| > 2 && s[2] != '\n' then CloseFrom(s, 3) else None
  }

  /**
   * The first `**` at index `k` or later, the lazy `.+?` having taken every
   * character from index 2 up to it; `.` takes no line break.
   */
  function CloseFrom(s: string, k: nat): (r: Option<nat>)
    ensures r.Some? ==> k <= r.value && r.value + 2 <= |s|
    decreases |s| - k
  {
    if k >= |s| then None
    else if StartsWith(s[k..], "**") then Some(k)
    else if s[k] == '\n' then None
    else CloseFrom(s, k + 1)
  }

  /** `re.sub(r'\*\*(.+?)\*\*', r'<strong>\1</strong>', s)`. */
  function Bold(s: string): (r: string)
    ensures !Contains(s, "**") ==> r == s
    decreases |s|
  {
    if s == [] then []
    else
      match BoldAt(s)
      case Some(j) => "<strong>" + s[2..j] + "</strong>" + Bold(s[j + 2..])
      case None =>
        assert s == [s[0]] + s[1..];
        [s[0]] + Bold(s[1..])
  }

  /** The number of `#` a line starts with. */
  function Hashes(line: string): nat
    decreases |line|
  {
    if line != [] && line[0] == '#' then 1 + Hashes(line[1..]) else 0
  }

  /** The heading level of a line: one to four `#` and a space, else 0. */
  function HeadingLevel(line: string): nat
  {
    var n := Hashes(line);
    if 1 <= n <= 4 && n < |line| && line[n] == ' ' then n else 0
  }

  /** `<hN>text</hN>`. */
  function Heading(n: nat, text: string): string
    requires 1 <= n <= 4
  {
    var tag := "h" + [('0' as int + n) as char];
    "<" + tag + ">" + text + "</" + tag + ">"
  }

  lemma HeadingTags(t: string)
    ensures Heading(1, t) == "<h1>" + t + "</h1>" && Heading(2, t) == "<h2>" + t + "</h2>"
    ensures Heading(3, t) == "<h3>" + t + "</h3>" && Heading(4, t) == "<h4>" + t + "</h4>"
  {
  }

  /** Which of the heading prefixes a line starts with is given by its heading level. */
  lemma HeadingPrefixes(line: string)
    ensures StartsWith(line, "# ") <==> HeadingLevel(line) == 1
    ensures StartsWith(line, "## ") <==> HeadingLevel(line) == 2
    ensures StartsWith(line, "### ") <==> HeadingLevel(line) == 3
    ensures StartsWith(line, "#### ") <==> HeadingLevel(line) == 4
  {
    var n := Hashes(line);
    HashesRun(line);
    forall k: nat | 1 <= k <= 4
      ensures StartsWith(line, Run(k) + " ") <==> (n == k && k < |line| && line[k] == ' ')
    {
      RunPrefix(line, k);
    }
    assert Run(1) + " " == "# " && Run(2) + " " == "## " && Run(3) + " " == "### " && Run(4) + " " == "#### ";
  }

  /** A blank line holds no `**`. */
  lemma {:induction false} BlankHasNoBold(line: string)
    ensures IsBlank(line) ==> !Contains(line, "**")
    decreases |line|
  {
    if IsBlank(line) && line != [] {
      assert IsSpace(line[0]);
      NotStartsWithAt(line, "**", 0);
      assert IsBlank(line[1..]) by {
        forall i | 0 <= i < |line[1..]| ensures IsSpace(line[1..][i]) { assert line[1..][i] == line[i + 1]; }
      }
      BlankHasNoBold(line[1..]);
    }
  }

  /** `k` times `#`. */
  function Run(k: nat): string
  {
    seq(k, i => '#')
  }

  lemma HashesRun(line: string)
    ensures Hashes(line) <= |line|
    ensures forall i :: 0 <= i < Hashes(line) ==> line[i] == '#'
    ensures Hashes(line) < |line| ==> line[Hashes(line)] != '#'
    decreases |line|
  {
    if line != [] && line[0] == '#' {
      HashesRun(line[1..]);
    }
  }

  lemma RunPrefix(line: string, k: nat)
    requires 1 <= k
    requires Hashes(line) <= |line|
    requires forall i :: 0 <= i < Hashes(line) ==> line[i] == '#'
    requires Hashes(line) < |line| ==> line[Hashes(line)] != '#'
    ensures StartsWith(line, Run(k) + " ") <==> (Hashes(line) == k && k < |line| && line[k] == ' ')
  {
    var p := Run(k) + " ";
    if StartsWith(line, p) {
      assert forall i :: 0 <= i < k ==> line[i] == p[i];
      assert line[k] == p[k];
    }
  }

  /**
   * The HTML of a line outside a code block: a line of one to four `#` and a
   * space is a heading of that level, anything else a paragraph.
   */
  function LineHtml(line: string): (r: string)
    ensures var n := HeadingLevel(line);
            n > 0 ==> r == Heading(n, line[n + 1..])
    ensures HeadingLevel(line) == 0 ==> r == if IsBlank(line) then "<p></p>" else "<p>" + Bold(line) + "</p>"
  {
    HeadingPrefixes(line);
    BlankHasNoBold(line);
    HeadingTags(line[if HeadingLevel(line) > 0 then HeadingLevel(line) + 1 else 0..]);
    if StartsWith(line, "# ") then "<h1>" + line[2..] + "</h1>"
    else if StartsWith(line, "## ") then "<h2>" + line[3..] + "</h2>"
    else if StartsWith(line, "### ") then "<h3>" + line[4..] + "</h3>"
    else if StartsWith(line, "#### ") then "<h4>" + line[5..] + "</h4>"
    else if Contains(line, "**") then "<p>" + Bold(line) + "</p>"
    else if IsBlank(line) then "<p></p>"
    else "<p>" + line + "</p>"
  }

  /** The number of fence lines. */
  function FenceCount(lines: seq<string>): nat
  {
    if lines == [] then 0
    else FenceCount(lines[..|lines| - 1]) + (if IsFence(lines[|lines| - 1]) then 1 else 0)
  }

  /** Line `i` comes inside a code block: an odd number of fence lines precede it. */
  predicate InCodeAt(lines: seq<string>, i: nat)
    requires i <= |lines|
  {
    FenceCount(lines[..i]) % 2 == 1
  }

  /** What a line becomes: a fence opens or closes the block, a line inside it is copied. */
  function LineOut(line: string, inCode: bool): string
  {
    if IsFence(line) then (if inCode then "</pre>" else "<pre>")
    else if inCode then line
    else LineHtml(line)
  }

  /** The output lines: each input line converted on its own, knowing only whether it is in a code block. */
  function HtmlLines(lines: seq<string>): (r: seq<string>)
    ensures |r| == |lines|
  {
    seq(|lines|, i requires 0 <= i < |lines| => LineOut(lines[i], InCodeAt(lines, i)))
  }

  function HtmlOf(markdown: string): string
  {
    Join(HtmlLines(Split(markdown, '\n')), "\n")
  }

  /** The first `i` output lines are those of the first `i` input lines. */
  predicate ConvertedUpTo(htmlLines: seq<string>, lines: seq<string>, i: nat)
    requires i <= |lines|
  {
    |htmlLines| == i && forall j :: 0 <= j < i ==> htmlLines[j] == LineOut(lines[j], InCodeAt(lines, j))
  }

  lemma ConvertedStep(htmlLines: seq<string>, lines: seq<string>, i: nat, out: string)
    requires i < |lines| && ConvertedUpTo(htmlLines, lines, i)
    requires out == LineOut(lines[i], InCodeAt(lines, i))
    ensures ConvertedUpTo(htmlLines + [out], lines, i + 1)
  {
    var next := htmlLines + [out];
    forall j | 0 <= j < i + 1 ensures next[j] == LineOut(lines[j], InCodeAt(lines, j)) {
      if j < i { assert next[j] == htmlLines[j]; } else { assert next[j] == out; }
    }
  }

  /** Whether the next line is in a code block: the flag flips at each fence. */
  lemma InCodeStep(lines: seq<string>, i: nat)
    requires i < |lines|
    ensures InCodeAt(lines, i + 1) == (InCodeAt(lines, i) != IsFence(lines[i]))
  {
    assert lines[..i + 1][..i] == lines[..i] && lines[..i + 1][i] == lines[i];
  }

  /** `_markdown_to_html`: a pass over the lines with a flag for being inside a code block. */
  method MarkdownToHtml(markdown: string) returns (html: string)
    ensures html == HtmlOf(markdown)
  {
    var lines := Split(markdown, '\n');
    var htmlLines: seq<string> := [];
    var inCode := false;
    for i := 0 to |lines|
      invariant inCode == InCodeAt(lines, i)
      invariant ConvertedUpTo(htmlLines, lines, i)
    {
      var line := lines[i];
      InCodeStep(lines, i);
      if StartsWith(line, "```") {
        if inCode {
          ConvertedStep(htmlLines, lines, i, "</pre>");
          htmlLines := htmlLines + ["</pre>"];
          inCode := false;
        } else {
          ConvertedStep(htmlLines, lines, i, "<pre>");
          htmlLines := htmlLines + ["<pre>"];
          inCode := true;
        }
        continue;
      }
      if inCode {
        ConvertedStep(htmlLines, lines, i, line);
        htmlLines := htmlLines + [line];
        continue;
      }
      ConvertedStep(htmlLines, lines, i, LineHtml(line));
      htmlLines := htmlLines + [LineHtml(line)];
    }
    assert htmlLines == HtmlLines(lines);
    html := Join(htmlLines, "\n");
  }

  lemma HtmlLineAt(lines: seq<string>, i: nat)
    requires i < |lines|
    ensures HtmlLines(lines)[i] == LineOut(lines[i], InCodeAt(lines, i))
  {
  }

  lemma FenceCountStep(lines: seq<string>, k: nat)
    requires k < |lines|
    ensures FenceCount(lines[..k + 1]) == FenceCount(lines[..k]) + (if IsFence(lines[k]) then 1 else 0)
  {
    assert lines[..k + 1][..k] == lines[..k] && lines[..k + 1][k] == lines[k];
  }

  /** Past a fence at `open` and up to the next fence, the count of fences is one more than before it. */
  lemma {:induction false} FencesInBlock(lines: seq<string>, open: nat, k: nat)
    requires open < k <= |lines| && IsFence(lines[open])
    requires forall m :: open < m < k ==> !IsFence(lines[m])
    ensures FenceCount(lines[..k]) == FenceCount(lines[..open]) + 1
    decreases k - open
  {
    FenceCountStep(lines, k - 1);
    if k - 1 > open {
      FencesInBlock(lines, open, k - 1);
    }
  }

  lemma FenceOut(line: string, inCode: bool)
    requires IsFence(line)
    ensures LineOut(line, inCode) == if inCode then "</pre>" else "<pre>"
  {
  }

  lemma CodeOut(line: string)
    requires !IsFence(line)
    ensures LineOut(line, true) == line
  {
  }

  /** The lines strictly inside a code block are in it. */
  lemma InsideBlock(lines: seq<string>, open: nat, close: nat, m: nat)
    requires open < m < close < |lines|
    requires !InCodeAt(lines, open) && IsFence(lines[open])
    requires forall k :: open < k < close ==> !IsFence(lines[k])
    ensures InCodeAt(lines, m) && !IsFence(lines[m])
  {
    FencesInBlock(lines, open, m);
  }

  /** The fence closing a block is met inside it, and the line after it is outside. */
  lemma ClosingFence(lines: seq<string>, open: nat, close: nat)
    requires open < close < |lines|
    requires !InCodeAt(lines, open) && IsFence(lines[open]) && IsFence(lines[close])
    requires forall k :: open < k < close ==> !IsFence(lines[k])
    ensures InCodeAt(lines, close) && !InCodeAt(lines, close + 1)
  {
    FencesInBlock(lines, open, close);
    FenceCountStep(lines, close);
  }

  /**
   * A code block outside any other, from the fence at `open` to the fence at
   * `close`, is copied verbatim between `<pre>` and `</pre>`, and the line
   * after it is outside a block again.
   */
  lemma CodeBlockVerbatim(lines: seq<string>, open: nat, close: nat)
    requires open < close < |lines|
    requires !InCodeAt(lines, open) && IsFence(lines[open]) && IsFence(lines[close])
    requires forall m :: open < m < close ==> !IsFence(lines[m])
    ensures HtmlLines(lines)[open] == "<pre>"
    ensures forall m :: open < m < close ==> HtmlLines(lines)[m] == lines[m]
    ensures HtmlLines(lines)[close] == "</pre>"
    ensures !InCodeAt(lines, close + 1)
  {
    HtmlLineAt(lines, open);
    FenceOut(lines[open], false);
    forall m | open < m < close
      ensures HtmlLines(lines)[m] == lines[m]
    {
      InsideBlock(lines, open, close, m);
      HtmlLineAt(lines, m);
      CodeOut(lines[m]);
    }
    ClosingFence(lines, open, close);
    HtmlLineAt(lines, close);
    FenceOut(lines[close], true);
  }

  /** The four heading levels, checked before bold text: a heading keeps its `**` as it is. */
  lemma Headings(x: string)
    ensures LineHtml("# " + x) == "<h1>" + x + "</h1>"
    ensures LineHtml("## " + x) == "<h2>" + x + "</h2>"
    ensures LineHtml("### " + x) == "<h3>" + x + "</h3>"
    ensures LineHtml("#### " + x) == "<h4>" + x + "</h4>"
  {
    assert ("# " + x)[..2] == "# " && ("# " + x)[2..] == x;
    NotStartsWithAt("## " + x, "# ", 1);
    assert ("## " + x)[..3] == "## " && ("## " + x)[3..] == x;
    NotStartsWithAt("### " + x, "# ", 1);
    NotStartsWithAt("### " + x, "## ", 2);
    assert ("### " + x)[..4] == "### " && ("### " + x)[4..] == x;
    NotStartsWithAt("#### " + x, "# ", 1);
    NotStartsWithAt("#### " + x, "## ", 2);
    NotStartsWithAt("#### " + x, "### ", 3);
    assert ("#### " + x)[..5] == "#### " && ("#### " + x)[5..] == x;
  }

  /** Bold replacement copies a leading part without `*`. */
  lemma {:induction false} BoldSkip(a: string, t: string)
    requires '*' !in a
    ensures Bold(a + t) == a + Bold(t)
    decreases |a|
  {
    if a != [] {
      var s := a + t;
      NotStartsWithAt(s, "**", 0);
      assert s[1..] == a[1..] + t;
      BoldSkip(a[1..], t);
      assert [a[0]] + a[1..] == a;
    } else {
      assert a + t == t;
    }
  }

  lemma {:induction false} CloseFromFinds(x: string, b: string, k: nat)
    requires '*' !in x && '\n' !in x
    requires 2 <= k <= 2 + |x|
    ensures CloseFrom("**" + x + "**" + b, k) == Some(2 + |x|)
    decreases 2 + |x| - k
  {
    var s := "**" + x + "**" + b;
    if k < 2 + |x| {
      assert s[k] == x[k - 2];
      NotStartsWithAt(s[k..], "**", 0);
      CloseFromFinds(x, b, k + 1);
    } else {
      assert s[k..][..2] == "**";
    }
  }

  /** `**x**`, among text without `*`, becomes `<strong>x</strong>`. */
  lemma BoldPlain(a: string, x: string, b: string)
    requires '*' !in a && '*' !in x && '*' !in b
    requires x != [] && '\n' !in x
    ensures Bold(a + "**" + x + "**" + b) == a + "<strong>" + x + "</strong>" + b
  {
    var t := "**" + x + "**" + b;
    calc {
      Bold(a + "**" + x + "**" + b);
      == { assert a + "**" + x + "**" + b == a + t; BoldSkip(a, t); }
      a + Bold(t);
      == { BoldMatch(x, b); }
      a + ("<strong>" + x + "</strong>" + Bold(b));
      == { BoldSkip(b, []); assert b + [] == b; }
      a + ("<strong>" + x + "</strong>" + b);
    }
  }

  lemma BoldMatch(x: string, b: string)
    requires '*' !in x && x != [] && '\n' !in x
    ensures Bold("**" + x + "**" + b) == "<strong>" + x + "</strong>" + Bold(b)
  {
    var t := "**" + x + "**" + b;
    assert t[..2] == "**" && t[2] == x[0];
    CloseFromFinds(x, b, 3);
    assert t[2..2 + |x|] == x && t[2 + |x| + 2..] == b;
  }

  /** A line that starts with no `#` and holds `**` is a paragraph with its bold parts marked. */
  lemma ParagraphLine(line: string)
    requires line != [] && line[0] != '#' && Contains(line, "**")
    ensures LineHtml(line) == "<p>" + Bold(line) + "</p>"
  {
    NotStartsWithAt(line, "# ", 0);
    NotStartsWithAt(line, "## ", 0);
    NotStartsWithAt(line, "### ", 0);
    NotStartsWithAt(line, "#### ", 0);
  }

  /** A line holding `**x**`, and no heading, is a paragraph with the bold part marked. */
  lemma BoldLine(a: string, x: string, b: string)
    requires '*' !in a && '*' !in x && '*' !in b
    requires x != [] && '\n' !in x
    requires a == [] || a[0] != '#'
    ensures LineHtml(a + "**" + x + "**" + b) == "<p>" + a + "<strong>" + x + "</strong>" + b + "</p>"
  {
    var line := a + "**" + x + "**" + b;
    BoldLineShape(a, x, b);
    ParagraphLine(line);
    BoldPlain(a, x, b);
  }

  lemma BoldLineShape(a: string, x: string, b: string)
    requires a == [] || a[0] != '#'
    ensures var line := a + "**" + x + "**" + b;
      line != [] && line[0] != '#' && Contains(line, "**")
  {
    var line := a + "**" + x + "**" + b;
    if a == [] {
      assert line[0] == '*';
    } else {
      assert line[0] == a[0];
    }
    assert line[|a|..][..2] == "**";
    ContainsAt(line, |a|, "**");
  }

  /** A blank line, and only such a line among those without `#` or `*`, is an empty paragraph. */
  lemma BlankLine(line: string)
    requires '#' !in line && '*' !in line
    ensures LineHtml(line) == if IsBlank(line) then "<p></p>" else "<p>" + line + "</p>"
  {
    if line != [] {
      NotStartsWithAt(line, "# ", 0);
      NotStartsWithAt(line, "## ", 0);
      NotStartsWithAt(line, "### ", 0);
      NotStartsWithAt(line, "#### ", 0);
    }
    AbsentCharNotContained(line, "**", 0);
  }

  lemma {:induction false} BoldOneLine(s: string)
    requires '\n' !in s
    ensures '\n' !in Bold(s)
    decreases |s|
  {
    if s != [] {
      match BoldAt(s)
      case Some(j) =>
        NoBreakSlice(s, 2, j);
        NoBreakSlice(s, j + 2, |s|);
        BoldOneLine(s[j + 2..]);
        NoBreakConcat("<strong>", s[2..j]);
        NoBreakConcat("<strong>" + s[2..j], "</strong>");
        NoBreakConcat("<strong>" + s[2..j] + "</strong>", Bold(s[j + 2..]));
      case None =>
        NoBreakSlice(s, 1, |s|);
        BoldOneLine(s[1..]);
        NoBreakConcat([s[0]], Bold(s[1..]));
    }
  }

  lemma NoBreakSlice(s: string, i: nat, j: nat)
    requires '\n' !in s && i <= j <= |s|
    ensures '\n' !in s[i..j]
  {
    forall k | 0 <= k < j - i ensures s[i..j][k] != '\n' {
      assert s[i..j][k] == s[i + k];
    }
  }

  lemma NoBreakConcat(a: string, b: string)
    requires '\n' !in a && '\n' !in b
    ensures '\n' !in a + b
  {
  }

  lemma LineHtmlOneLine(line: string)
    requires '\n' !in line
    ensures '\n' !in LineHtml(line)
  {
    if StartsWith(line, "# ") {
      NoBreakConcat("<h1>" + line[2..], "</h1>");
    } else if StartsWith(line, "## ") {
      NoBreakConcat("<h2>" + line[3..], "</h2>");
    } else if StartsWith(line, "### ") {
      NoBreakConcat("<h3>" + line[4..], "</h3>");
    } else if StartsWith(line, "#### ") {
      NoBreakConcat("<h4>" + line[5..], "</h4>");
    } else if Contains(line, "**") {
      BoldOneLine(line);
      NoBreakConcat("<p>" + Bold(line), "</p>");
    } else if !IsBlank(line) {
      NoBreakConcat("<p>" + line, "</p>");
    }
  }

  lemma LineOutOneLine(line: string, inCode: bool)
    requires '\n' !in line
    ensures '\n' !in LineOut(line, inCode)
  {
    if !IsFence(line) && !inCode {
      LineHtmlOneLine(line);
    }
  }

  /** The HTML has exactly one line per line of the markdown, each the converted input line. */
  lemma HtmlLinePerLine(markdown: string)
    ensures Split(HtmlOf(markdown), '\n') == HtmlLines(Split(markdown, '\n'))
    ensures |Split(HtmlOf(markdown), '\n')| == |Split(markdown, '\n')|
  {
    var lines := Split(markdown, '\n');
    var out := HtmlLines(lines);
    forall i | 0 <= i < |out|
      ensures '\n' !in out[i]
    {
      LineOutOneLine(lines[i], InCodeAt(lines, i));
    }
    SplitJoin(out, '\n');
  }

  /** The note text of `_create_note_attachment`: the title as a heading, then the truncated markdown as HTML. */
  method NoteText(fullMarkdown: string, title: string, mdPath: string) returns (note: string)
    ensures note == NoteContent(title, HtmlOf(TruncateNote(fullMarkdown, mdPath)))
  {
    var truncated := fullMarkdown;
    if |fullMarkdown| > MAX_NOTE_SIZE {
      truncated := fullMarkdown[..MAX_NOTE_SIZE] + TruncationNotice(mdPath);
    }
    var html := MarkdownToHtml(truncated);
    note := "<h1>" + title + "</h1>\n" + html;
  }

  /** The note's first line is the title heading; then come the HTML lines, one per markdown line. */
  lemma NoteLines(title: string, markdown: string)
    requires '\n' !in title
    ensures Split(NoteContent(title, HtmlOf(markdown)), '\n') == ["<h1>" + title + "</h1>"] + HtmlLines(Split(markdown, '\n'))
  {
    var head := "<h1>" + title + "</h1>";
    var html := HtmlOf(markdown);
    calc {
      Split(NoteContent(title, html), '\n');
      == { assert NoteContent(title, html) == head + ['\n'] + html; }
      Split(head + ['\n'] + html, '\n');
      == { SplitConcat(head, html, '\n'); }
      Split(head, '\n') + Split(html, '\n');
      == { NoBreakConcat("<h1>" + title, "</h1>"); }
      [head] + Split(html, '\n');
      == { HtmlLinePerLine(markdown); }
      [head] + HtmlLines(Split(markdown, '\n'));
    }
  }

  // ---------------------------------------------------------------------------
  // Notes are never found again

  /** The record Zotero lists for a note: it has its HTML but no title or content type. */
  function NoteChild(key: string, note: string): Child
  {
    Child(key, "note", "", "", "", note)
  }

  /**
   * As written, an item holding its PDF and the note stored for it through
   * the web API is reported as having no conversion: the note is not an
   * attachment, and it has no title.
   */
  lemma StoredNoteNotFound(pdfKey: string, noteKey: string, html: string)
    ensures var cs := [Child(pdfKey, "attachment", "paper.pdf", "application/pdf", "paper.pdf", ""),
                       NoteChild(noteKey, NoteContent(AttachmentTitle("paper"), html))];
            FindFirst(cs, IsOcrAttachment).None?
  {
    AbsentCharNotContained("paper.pdf", OCR_ATTACHMENT_MARKER, 0);
  }

  /** A conversion stored either way: the linked attachment, or the note headed by the attachment title. */
  predicate IsOcrEntry(c: Child)
  {
    IsOcrAttachment(c) || (c.itemType == "note" && StartsWith(c.note, "<h1>" + OCR_ATTACHMENT_MARKER))
  }

  /** With the corrected test, the note stored through the web API is found again, and so is a linked attachment. */
  lemma StoredNoteFound(cs: seq<Child>, i: nat, baseName: string, html: string)
    requires i < |cs|
    requires cs[i] == NoteChild(cs[i].key, NoteContent(AttachmentTitle(baseName), html))
             || (cs[i].itemType == "attachment" && cs[i].title == AttachmentTitle(baseName))
    ensures FindFirst(cs, IsOcrEntry).Some?
  {
    if cs[i].itemType == "note" {
      NoteHeaded(baseName, html);
    } else {
      TitleMarked(baseName);
    }
    assert IsOcrEntry(cs[i]);
  }

  lemma NoteHeaded(baseName: string, html: string)
    ensures StartsWith(NoteContent(AttachmentTitle(baseName), html), "<h1>" + OCR_ATTACHMENT_MARKER)
  {
    var p := "<h1>" + OCR_ATTACHMENT_MARKER;
    assert NoteContent(AttachmentTitle(baseName), html) == p + (" " + baseName + "</h1>\n" + html);
  }

  lemma TitleMarked(baseName: string)
    ensures Contains(AttachmentTitle(baseName), OCR_ATTACHMENT_MARKER)
  {
    assert AttachmentTitle(baseName)[..|OCR_ATTACHMENT_MARKER|] == OCR_ATTACHMENT_MARKER;
  }
}
