/**
 * The integration layer (`zotero_integration.py`): choosing an item's PDF
 * attachment, deriving the file name it is downloaded under, the chain of
 * early exits in `process_item` and the counters of `batch_process`.
 * Every call into Zotero, the file system or the OCR service is an abstract
 * outcome given as input: the `ItemWorld` of an item says what each of
 * those calls returns or raises.
 */
module Integration {
  import opened Wrappers
  import opened Text
  import opened OcrClient
  import opened Storage

  // ---------------------------------------------------------------------------
  // The PDF attachment

  predicate IsPdfAttachment(c: Child)
  {
    c.itemType == "attachment" && c.contentType == "application/pdf"
  }

  /** `get_pdf_attachment`: the first PDF attachment among the children, none when the listing fails. */
  method GetPdfAttachment(listing: Result<seq<Child>, string>) returns (r: Option<Child>)
    ensures r == if listing.Ok? then FindFirst(listing.value, IsPdfAttachment) else None
  {
    if listing.Err? {
      return None;
    }
    var children := listing.value;
    var i := 0;
    while i < |children|
      invariant 0 <= i <= |children|
      invariant FindFirst(children[i..], IsPdfAttachment) == FindFirst(children, IsPdfAttachment)
    {
      var child := children[i];
      assert children[i..][1..] == children[i + 1..];
      if child.itemType == "attachment" {
        var contentType := child.contentType;
        if contentType == "application/pdf" {
          return Some(child);
        }
      }
      i := i + 1;
    }
    return None;
  }

  /** The PDF chosen is the first one listed, whatever follows it. */
  lemma {:induction false} PdfFoundAfterOthers(others: seq<Child>, pdf: Child, rest: seq<Child>)
    requires forall i :: 0 <= i < |others| ==> !IsPdfAttachment(others[i])
    requires IsPdfAttachment(pdf)
    ensures FindFirst(others + [pdf] + rest, IsPdfAttachment) == Some(pdf)
    decreases |others|
  {
    var cs := others + [pdf] + rest;
    if others == [] {
      assert cs[0] == pdf;
    } else {
      assert cs[0] == others[0];
      assert cs[1..] == others[1..] + [pdf] + rest;
      PdfFoundAfterOthers(others[1..], pdf, rest);
    }
  }

  // ---------------------------------------------------------------------------
  // The download file name

  /** The parent item's fields read for the name; a missing field reads as "". */
  datatype Parent = Parent(citationKey: string, title: string)

  /** The characters `<>:"/\|?*` removed from a title. */
  predicate Forbidden(c: char)
  {
    c == '<' || c == '>' || c == ':' || c == '"' || c == '/' || c == '\\' || c == '|' || c == '?' || c == '*'
  }

  /** `re.sub(r'[<>:"/\\|?*]', '', s)`. */
  function StripForbidden(s: string): (r: string)
    ensures |r| <= |s|
    ensures forall i :: 0 <= i < |r| ==> !Forbidden(r[i])
  {
    if s == [] then []
    else if Forbidden(s[0]) then StripForbidden(s[1..])
    else [s[0]] + StripForbidden(s[1..])
  }

  /** Stripping works piece by piece. */
  lemma {:induction false} StripConcat(a: string, b: string)
    ensures StripForbidden(a + b) == StripForbidden(a) + StripForbidden(b)
    decreases |a|
  {
    if a != [] {
      assert (a + b)[1..] == a[1..] + b;
      StripConcat(a[1..], b);
    } else {
      assert a + b == b;
    }
  }

  /** A title without forbidden characters is kept whole. */
  lemma {:induction false} StripClean(s: string)
    requires forall i :: 0 <= i < |s| ==> !Forbidden(s[i])
    ensures StripForbidden(s) == s
    decreases |s|
  {
    if s != [] {
      StripClean(s[1..]);
    }
  }

  /** Exactly the allowed characters survive. */
  lemma {:induction false} StripKeepsAllowed(s: string, c: char)
    ensures c in StripForbidden(s) <==> c in s && !Forbidden(c)
    decreases |s|
  {
    if s != [] {
      StripKeepsAllowed(s[1..], c);
      assert s == [s[0]] + s[1..];
    }
  }

  /** `re.sub(...)[:80]`: the stripped title cut to 80 characters. */
  function CleanTitle(title: string): string
  {
    var s := StripForbidden(title);
    if |s| <= 80 then s else s[..80]
  }

  lemma CleanTitleShape(title: string)
    ensures |CleanTitle(title)| == Min(80, |StripForbidden(title)|)
    ensures StripForbidden(title) == CleanTitle(title) + StripForbidden(title)[|CleanTitle(title)|..]
    ensures forall i :: 0 <= i < |CleanTitle(title)| ==> !Forbidden(CleanTitle(title)[i])
  {
  }

  /** `data.get("filename") or data.get("title")`. */
  function OwnName(attachment: Child): string
  {
    if attachment.filename != "" then attachment.filename else attachment.title
  }

  /** The name built from the parent item; a failed lookup gives `document.pdf`. */
  function ParentName(parent: Result<Parent, string>): string
  {
    if parent.Err? then "document.pdf"
    else if parent.value.citationKey != "" then parent.value.citationKey + ".pdf"
    else if parent.value.title != "" then CleanTitle(parent.value.title) + ".pdf"
    else "document.pdf"
  }

  /**
   * The name the PDF is downloaded and stored under; the parent is read only
   * when the attachment's own name is empty or `document.pdf`. The name is
   * never empty: an attachment's own usable name is kept, and otherwise it is
   * a `.pdf` naming the parent.
   */
  function DeriveFilename(attachment: Child, parent: Result<Parent, string>): (r: string)
    ensures r != ""
    ensures OwnName(attachment) != "" && OwnName(attachment) != "document.pdf" ==> r == OwnName(attachment)
    ensures OwnName(attachment) == "" || OwnName(attachment) == "document.pdf" ==> EndsWithPdf(r)
  {
    var own := OwnName(attachment);
    if own == "" || own == "document.pdf" then
      ParentNameIsPdf(parent);
      ParentName(parent)
    else own
  }

  lemma ParentNameIsPdf(parent: Result<Parent, string>)
    ensures EndsWithPdf(ParentName(parent))
  {
    var stem := if parent.Err? then "document"
                else if parent.value.citationKey != "" then parent.value.citationKey
                else if parent.value.title != "" then CleanTitle(parent.value.title)
                else "document";
    var r := ParentName(parent);
    assert r == stem + ".pdf";
    assert r[|r| - 4..] == ".pdf";
  }

  predicate EndsWithPdf(s: string)
  {
    |s| >= 4 && s[|s| - 4..] == ".pdf"
  }

  /** A name from the parent's citation key or cleaned title: the parent is what the name says. */
  lemma ParentNameCases(parent: Result<Parent, string>)
    ensures parent.Ok? && parent.value.citationKey != "" ==> ParentName(parent)[..|ParentName(parent)| - 4] == parent.value.citationKey
    ensures parent.Ok? && parent.value.citationKey == "" && parent.value.title != ""
            ==> var stem := ParentName(parent)[..|ParentName(parent)| - 4];
                |stem| <= 80 && forall i :: 0 <= i < |stem| ==> !Forbidden(stem[i])
    ensures parent.Err? || (parent.value.citationKey == "" && parent.value.title == "") ==> ParentName(parent) == "document.pdf"
  {
    if parent.Ok? && parent.value.citationKey == "" && parent.value.title != "" {
      var c := CleanTitle(parent.value.title);
      assert (c + ".pdf")[..|c|] == c;
    } else if parent.Ok? && parent.value.citationKey != "" {
      var k := parent.value.citationKey;
      assert (k + ".pdf")[..|k|] == k;
    }
  }

  /**
   * A name taken from the parent's title stores the result under that
   * cleaned title, so the markdown file and the attachment title follow it.
   */
  lemma StoredUnderCleanTitle(title: string, itemKey: string)
    requires CleanTitle(title) != ""
    ensures MarkdownFilename(BaseName(Some(CleanTitle(title) + ".pdf"), itemKey)) == CleanTitle(title) + "_ocr.md"
  {
    var c := CleanTitle(title);
    assert forall i :: 0 <= i < |c| ==> c[i] != '/';
    assert "" + c + ".pdf" == c + ".pdf";
    BaseNameOfPdf("", c, itemKey);
  }

  // ---------------------------------------------------------------------------
  // Processing one item

  /** What saving the downloaded PDF gives: the call raises, the file is not there, or it is. */
  datatype Download = DumpRaised(message: string) | FileMissing | Saved

  /**
   * What the outside world answers for one item: the children listing (read
   * both for an earlier conversion and for the PDF), the parent item, the
   * download, whether an OCR client was configured, the OCR call, and what
   * storing raises, if anything.
   */
  datatype ItemWorld = ItemWorld(
    children: Result<seq<Child>, string>,
    parent: Result<Parent, string>,
    download: Download,
    ocrConfigured: bool,
    ocr: Result<OcrResult, string>,
    storeError: Option<string>)

  /**
   * One run of `process_item`: its outcome (`Ok(None)` when it returns
   * `None`, `Err` when it raises), the name the PDF was downloaded under if
   * a download was attempted, and the PDF name passed to
   * `store_ocr_result` if storing was attempted.
   */
  datatype ItemRun = ItemRun(outcome: Result<Option<OcrResult>, string>, downloadedAs: Option<string>, storedAs: Option<string>)

  /**
   * Whether the item already has a conversion, recognising both ways one is
   * stored: a linked attachment, or a note in the web API mode.
   */
  function HasConversion(w: ItemWorld): bool
  {
    w.children.Ok? && FindFirst(w.children.value, IsOcrEntry).Some?
  }

  function PdfOf(w: ItemWorld): Option<Child>
  {
    if w.children.Ok? then FindFirst(w.children.value, IsPdfAttachment) else None
  }

  /** The test `process_item` makes as written: only a linked attachment counts as a conversion. */
  function HasConversionAsWritten(w: ItemWorld): bool
  {
    w.children.Ok? && FindFirst(w.children.value, IsOcrAttachment).Some?
  }

  /** `process_item`: the chain of checks and calls, each able to end the run early. */
  function ProcessItem(w: ItemWorld, force: bool, storeInZotero: bool): (run: ItemRun)
    ensures run.outcome.Ok? && run.outcome.value.Some? <==>
              (force || !HasConversion(w)) && PdfOf(w).Some? && w.download == Saved
              && w.ocrConfigured && w.ocr.Ok? && (storeInZotero ==> w.storeError.None?)
    ensures run.outcome.Ok? && run.outcome.value.Some? ==> run.outcome.value.value == w.ocr.value
    ensures run.outcome.Err? <==> storeInZotero && run.storedAs.Some? && w.storeError.Some?
    ensures run.storedAs.Some? <==> storeInZotero && run.downloadedAs.Some? && w.download == Saved && w.ocrConfigured && w.ocr.Ok?
    ensures run.downloadedAs.Some? <==> (force || !HasConversion(w)) && PdfOf(w).Some?
    ensures run.downloadedAs.Some? ==> run.downloadedAs.value == DeriveFilename(PdfOf(w).value, w.parent)
    ensures run.storedAs.Some? ==> run.storedAs == run.downloadedAs
  {
    if !force && HasConversion(w) then ItemRun(Ok(None), None, None) else Convert(w, storeInZotero)
  }

  /** `process_item` with the conversion test as written, which does not see a conversion stored as a note. */
  function ProcessItemAsWritten(w: ItemWorld, force: bool, storeInZotero: bool): (run: ItemRun)
    ensures run.downloadedAs.Some? <==> (force || !HasConversionAsWritten(w)) && PdfOf(w).Some?
    ensures run.storedAs.Some? <==> storeInZotero && run.downloadedAs.Some? && w.download == Saved && w.ocrConfigured && w.ocr.Ok?
    ensures run.downloadedAs.Some? ==> run.downloadedAs.value == DeriveFilename(PdfOf(w).value, w.parent)
  {
    if !force && HasConversionAsWritten(w) then ItemRun(Ok(None), None, None) else Convert(w, storeInZotero)
  }

  /** Everything `process_item` does once it has decided to convert: find the PDF, download, convert and store. */
  function Convert(w: ItemWorld, storeInZotero: bool): (run: ItemRun)
    ensures run.outcome.Ok? && run.outcome.value.Some? <==>
              PdfOf(w).Some? && w.download == Saved && w.ocrConfigured && w.ocr.Ok? && (storeInZotero ==> w.storeError.None?)
    ensures run.outcome.Ok? && run.outcome.value.Some? ==> run.outcome.value.value == w.ocr.value
    ensures run.outcome.Err? <==> storeInZotero && run.storedAs.Some? && w.storeError.Some?
    ensures run.storedAs.Some? <==> storeInZotero && run.downloadedAs.Some? && w.download == Saved && w.ocrConfigured && w.ocr.Ok?
    ensures run.downloadedAs.Some? <==> PdfOf(w).Some?
    ensures run.downloadedAs.Some? ==> run.downloadedAs.value == DeriveFilename(PdfOf(w).value, w.parent)
    ensures run.storedAs.Some? ==> run.storedAs == run.downloadedAs
  {
      match PdfOf(w)
      case None => ItemRun(Ok(None), None, None)
      case Some(pdf) =>
        var filename := DeriveFilename(pdf, w.parent);
        if w.download != Saved then ItemRun(Ok(None), Some(filename), None)
        else if !w.ocrConfigured || w.ocr.Err? then ItemRun(Ok(None), Some(filename), None)
        else if !storeInZotero then ItemRun(Ok(Some(w.ocr.value)), Some(filename), None)
        else if w.storeError.Some? then ItemRun(Err(w.storeError.value), Some(filename), Some(filename))
        else ItemRun(Ok(Some(w.ocr.value)), Some(filename), Some(filename))
  }

  /** Without `force`, an item that has a conversion is skipped before anything is downloaded or stored. */
  lemma SkipsConverted(w: ItemWorld, storeInZotero: bool, others: seq<Child>, conversion: Child, rest: seq<Child>)
    requires w.children == Ok(others + [conversion] + rest)
    requires IsOcrEntry(conversion)
    ensures ProcessItem(w, false, storeInZotero) == ItemRun(Ok(None), None, None)
  {
    var cs := others + [conversion] + rest;
    assert cs[|others|] == conversion;
    assert FindFirst(cs, IsOcrEntry).Some?;
  }

  /** A note stored through the web API by an earlier run makes a later run without `force` skip the item. */
  lemma SkipsStoredNote(w: ItemWorld, storeInZotero: bool, others: seq<Child>, noteKey: string, baseName: string, html: string, rest: seq<Child>)
    requires w.children == Ok(others + [NoteChild(noteKey, NoteContent(AttachmentTitle(baseName), html))] + rest)
    ensures ProcessItem(w, false, storeInZotero) == ItemRun(Ok(None), None, None)
  {
    NoteHeaded(baseName, html);
    SkipsConverted(w, storeInZotero, others, NoteChild(noteKey, NoteContent(AttachmentTitle(baseName), html)), rest);
  }

  /**
   * As written, an item whose only conversion is a note stored through the
   * web API is downloaded, converted and stored again on every later run
   * without `force`.
   */
  lemma StoredNoteReconverted(w: ItemWorld, pdf: Child, noteKey: string, baseName: string, html: string)
    requires IsPdfAttachment(pdf) && !IsOcrAttachment(pdf)
    requires w.children == Ok([pdf, NoteChild(noteKey, NoteContent(AttachmentTitle(baseName), html))])
    requires w.download == Saved && w.ocrConfigured && w.ocr.Ok?
    ensures ProcessItemAsWritten(w, false, true).downloadedAs.Some?
    ensures ProcessItemAsWritten(w, false, true).storedAs.Some?
    ensures ProcessItem(w, false, true) == ItemRun(Ok(None), None, None)
  {
    var note := NoteChild(noteKey, NoteContent(AttachmentTitle(baseName), html));
    assert !IsOcrAttachment(note);
    assert FindFirst([pdf, note], IsOcrAttachment).None? by {
      assert [pdf, note][1..] == [note];
      assert [note][1..] == [];
    }
    assert FindFirst([pdf, note], IsPdfAttachment) == Some(pdf);
    assert [pdf, note] == [pdf] + [note] + [];
    SkipsStoredNote(w, true, [pdf], noteKey, baseName, html, []);
  }

  /** A run that stores always passes a non-empty PDF name, so the stored names come from that name and never from the item key. */
  lemma StoredNamesFollowDownload(w: ItemWorld, force: bool, itemKey: string)
    requires ProcessItem(w, force, true).storedAs.Some?
    ensures var name := ProcessItem(w, force, true).storedAs.value;
            name != "" && BaseName(Some(name), itemKey) == Stem(PathName(name))
  {
    var run := ProcessItem(w, force, true);
  }

  // ---------------------------------------------------------------------------
  // Batch processing

  /** An item as a library listing gives it: its key and type. */
  datatype LibraryItem = LibraryItem(key: string, itemType: string)

  /** `s[:limit]` in Python: a negative limit drops that many items from the end. */
  function Prefix(s: seq<string>, limit: int): (r: seq<string>)
    ensures limit >= 0 ==> r == s[..Min(limit, |s|)]
    ensures limit < 0 ==> r == s[..if |s| + limit < 0 then 0 else |s| + limit]
  {
    if limit >= 0 then s[..Min(limit, |s|)]
    else if |s| + limit < 0 then []
    else s[..|s| + limit]
  }

  /** The keys of the listed items that are not attachments, in order. */
  function NonAttachmentKeys(items: seq<LibraryItem>): (r: seq<string>)
    ensures |r| <= |items|
  {
    if items == [] then []
    else
      var head := if items[0].itemType != "attachment" then [items[0].key] else [];
      head + NonAttachmentKeys(items[1..])
  }

  lemma {:induction false} NonAttachmentKeysExact(items: seq<LibraryItem>, k: string)
    ensures k in NonAttachmentKeys(items) <==> exists i :: 0 <= i < |items| && items[i].key == k && items[i].itemType != "attachment"
    decreases |items|
  {
    if items != [] {
      NonAttachmentKeysExact(items[1..], k);
      if k in NonAttachmentKeys(items[1..]) {
        var i :| 0 <= i < |items[1..]| && items[1..][i].key == k && items[1..][i].itemType != "attachment";
        assert items[i + 1] == items[1..][i];
      }
      if exists i :: 0 <= i < |items| && items[i].key == k && items[i].itemType != "attachment" {
        var i :| 0 <= i < |items| && items[i].key == k && items[i].itemType != "attachment";
        if i > 0 {
          assert items[1..][i - 1] == items[i];
        }
      }
    }
  }

  /**
   * The keys `batch_process` works through: the first `limit` of the given
   * keys, else the non-attachment items of the collection listing, else
   * those of the recent-items listing; a listing that raises ends the batch.
   */
  function ItemsToProcess(itemKeys: seq<string>, collectionKey: string, limit: int,
                          collection: Result<seq<LibraryItem>, string>,
                          recent: Result<seq<LibraryItem>, string>): (r: Result<seq<string>, string>)
    ensures itemKeys != [] ==> r == Ok(Prefix(itemKeys, limit))
    ensures itemKeys == [] && collectionKey != "" ==> (r.Ok? <==> collection.Ok?)
    ensures itemKeys == [] && collectionKey == "" ==> (r.Ok? <==> recent.Ok?)
  {
    if itemKeys != [] then Ok(Prefix(itemKeys, limit))
    else
      var listing := if collectionKey != "" then collection else recent;
      if listing.Err? then Err(listing.error) else Ok(NonAttachmentKeys(listing.value))
  }

  /** With explicit keys and a non-negative limit, exactly the first `limit` keys are processed, in order. */
  lemma ExplicitKeysFirst(itemKeys: seq<string>, limit: nat, collectionKey: string,
                          collection: Result<seq<LibraryItem>, string>, recent: Result<seq<LibraryItem>, string>)
    requires itemKeys != []
    ensures var r := ItemsToProcess(itemKeys, collectionKey, limit, collection, recent);
            r.Ok? && |r.value| == Min(limit, |itemKeys|)
            && forall i :: 0 <= i < |r.value| ==> r.value[i] == itemKeys[i]
  {
  }

  /** An error entry of the summary. */
  datatype BatchError = BatchError(itemKey: string, error: string)

  /** The summary `batch_process` returns. */
  datatype Summary = Summary(processed: nat, skipped: nat, failed: nat, errors: seq<BatchError>)

  /** How one item's outcome is counted: a result is processed (an `OCRResult` is always true), `None` skipped, a raise failed. */
  function Count(s: Summary, key: string, outcome: Result<Option<OcrResult>, string>): Summary
  {
    match outcome
    case Err(e) => s.(failed := s.failed + 1, errors := s.errors + [BatchError(key, e)])
    case Ok(Some(_)) => s.(processed := s.processed + 1)
    case Ok(None) => s.(skipped := s.skipped + 1)
  }

  /** The summary of the first `|keys|` items, whose outcomes are given in order. */
  function Tally(keys: seq<string>, outcomes: seq<Result<Option<OcrResult>, string>>): (s: Summary)
    requires |keys| == |outcomes|
    ensures s.processed + s.skipped + s.failed == |keys|
    ensures |s.errors| == s.failed
  {
    if keys == [] then Summary(0, 0, 0, [])
    else
      var n := |keys| - 1;
      Count(Tally(keys[..n], outcomes[..n]), keys[n], outcomes[n])
  }

  /** Each error entry names an item of the batch and the message that item raised. */
  lemma {:induction false} ErrorsNamed(keys: seq<string>, outcomes: seq<Result<Option<OcrResult>, string>>, j: nat)
    requires |keys| == |outcomes|
    requires j < |Tally(keys, outcomes).errors|
    ensures exists i :: 0 <= i < |keys| && keys[i] == Tally(keys, outcomes).errors[j].itemKey
                        && outcomes[i] == Err(Tally(keys, outcomes).errors[j].error)
    decreases |keys|
  {
    var n := |keys| - 1;
    var prev := Tally(keys[..n], outcomes[..n]);
    var e := Tally(keys, outcomes).errors[j];
    if j < |prev.errors| {
      assert e == prev.errors[j];
      ErrorsNamed(keys[..n], outcomes[..n], j);
      var i :| 0 <= i < n && keys[..n][i] == e.itemKey && outcomes[..n][i] == Err(e.error);
      assert keys[i] == keys[..n][i] && outcomes[i] == outcomes[..n][i];
    } else {
      assert e == BatchError(keys[n], outcomes[n].error);
    }
  }

  /** Adding two summaries: counters add up and errors follow in order. */
  function Plus(a: Summary, b: Summary): Summary
  {
    Summary(a.processed + b.processed, a.skipped + b.skipped, a.failed + b.failed, a.errors + b.errors)
  }

  lemma CountPlus(a: Summary, b: Summary, key: string, outcome: Result<Option<OcrResult>, string>)
    ensures Count(Plus(a, b), key, outcome) == Plus(a, Count(b, key, outcome))
  {
    if outcome.Err? {
      var e := BatchError(key, outcome.error);
      assert (a.errors + b.errors) + [e] == a.errors + (b.errors + [e]);
    }
  }

  /** One item failing does not stop the batch: the later items are counted just as they would be on their own. */
  lemma {:induction false} TallySplit(k1: seq<string>, o1: seq<Result<Option<OcrResult>, string>>,
                                      k2: seq<string>, o2: seq<Result<Option<OcrResult>, string>>)
    requires |k1| == |o1| && |k2| == |o2|
    ensures Tally(k1 + k2, o1 + o2) == Plus(Tally(k1, o1), Tally(k2, o2))
    decreases |k2|
  {
    if k2 == [] {
      assert k1 + k2 == k1 && o1 + o2 == o1;
      assert Tally(k1, o1).errors + [] == Tally(k1, o1).errors;
    } else {
      var n := |k2| - 1;
      var m := |k1| + n;
      calc {
        Tally(k1 + k2, o1 + o2);
        == { assert (k1 + k2)[m] == k2[n] && (o1 + o2)[m] == o2[n]; }
        Count(Tally((k1 + k2)[..m], (o1 + o2)[..m]), k2[n], o2[n]);
        == { assert (k1 + k2)[..m] == k1 + k2[..n] && (o1 + o2)[..m] == o1 + o2[..n]; }
        Count(Tally(k1 + k2[..n], o1 + o2[..n]), k2[n], o2[n]);
        == { TallySplit(k1, o1, k2[..n], o2[..n]); }
        Count(Plus(Tally(k1, o1), Tally(k2[..n], o2[..n])), k2[n], o2[n]);
        == { CountPlus(Tally(k1, o1), Tally(k2[..n], o2[..n]), k2[n], o2[n]); }
        Plus(Tally(k1, o1), Tally(k2, o2));
      }
    }
  }

  /** The outcome of every item of the batch, item `i` meeting `world(i)`; a batch stores each result. */
  function Outcomes(keys: seq<string>, world: nat -> ItemWorld, force: bool): (r: seq<Result<Option<OcrResult>, string>>)
    ensures |r| == |keys|
  {
    seq(|keys|, i requires 0 <= i < |keys| => ProcessItem(world(i), force, true).outcome)
  }

  /** One more item adds its count to the summary of the items before it. */
  lemma TallyStep(keys: seq<string>, outcomes: seq<Result<Option<OcrResult>, string>>, i: nat)
    requires |keys| == |outcomes| && i < |keys|
    ensures Tally(keys[..i + 1], outcomes[..i + 1]) == Count(Tally(keys[..i], outcomes[..i]), keys[i], outcomes[i])
  {
    assert keys[..i + 1][..i] == keys[..i] && outcomes[..i + 1][..i] == outcomes[..i];
  }

  /** `batch_process`: the items to work through, each processed in turn whatever the others did, and the counters. */
  method BatchProcess(itemKeys: seq<string>, collectionKey: string, limit: int, force: bool,
                      collection: Result<seq<LibraryItem>, string>, recent: Result<seq<LibraryItem>, string>,
                      world: nat -> ItemWorld)
    returns (r: Result<Summary, string>)
    ensures var items := ItemsToProcess(itemKeys, collectionKey, limit, collection, recent);
            if items.Err? then r == Err(items.error)
            else r == Ok(Tally(items.value, Outcomes(items.value, world, force)))
  {
    var items := ItemsToProcess(itemKeys, collectionKey, limit, collection, recent);
    if items.Err? {
      return Err(items.error);
    }
    var keys := items.value;
    ghost var outcomes := Outcomes(keys, world, force);
    var summary := Summary(0, 0, 0, []);
    for i := 0 to |keys|
      invariant summary == Tally(keys[..i], outcomes[..i])
    {
      var outcome := ProcessItem(world(i), force, true).outcome;
      assert outcome == outcomes[i];
      TallyStep(keys, outcomes, i);
      match outcome {
        case Err(e) =>
          summary := summary.(failed := summary.failed + 1, errors := summary.errors + [BatchError(keys[i], e)]);
        case Ok(Some(_)) =>
          summary := summary.(processed := summary.processed + 1);
        case Ok(None) =>
          summary := summary.(skipped := summary.skipped + 1);
      }
    }
    assert keys[..|keys|] == keys && outcomes[..|keys|] == outcomes;
    return Ok(summary);
  }
}
