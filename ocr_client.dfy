/**
 * The deterministic part of the OCR client: the retry loop around the remote
 * OCR call, the parsing of the service's response into one markdown text with
 * image and table maps, and the repair of corrupted image headers. The remote
 * service is represented by the outcome it gives to each attempt.
 */
module OcrClient {
  import opened Wrappers
  import opened Text

  /** At most this many OCR requests are made for one document. */
  const MAX_RETRIES: nat := 5
  /** The wait after a transient failure grows by this many seconds per attempt. */
  const RETRY_DELAY_SECONDS: int := 10
  /** The 0-based number of the last attempt allowed. */
  const LAST_ATTEMPT: nat := MAX_RETRIES - 1

  type byte = b: int | 0 <= b < 256

  /** What the client returns for a document (`OCRResult`). */
  datatype OcrResult = OcrResult(
    markdown: string,
    images: map<string, seq<byte>>,
    pagesProcessed: int,
    sourceFile: Option<string>,
    tables: map<string, string>)

  /**
   * An image of a response page. `id` and `base64` are empty when the service
   * sent none; `decoded` is what base64 decoding of `base64` yields.
   */
  datatype OcrImage = OcrImage(id: string, base64: string, decoded: seq<byte>)

  datatype OcrTable = OcrTable(id: string, content: string)

  datatype OcrPage = OcrPage(index: int, markdown: string, images: seq<OcrImage>, tables: seq<OcrTable>)

  /** The service's answer: its pages and the page count from its usage report. */
  datatype OcrResponse = OcrResponse(pages: seq<OcrPage>, pagesProcessed: int)

  // ---------------------------------------------------------------------------
  // Image header repair

  /** `data` holds `pat` at offset `k`. */
  predicate OccursAt(data: seq<byte>, pat: seq<byte>, k: int)
  {
    0 <= k && k + |pat| <= |data| && data[k..k + |pat|] == pat
  }

  /** Python's `bytes.find`: the first offset holding `pat`, or -1. */
  function Find(data: seq<byte>, pat: seq<byte>): (r: int)
    ensures -1 <= r
    ensures r == -1 <==> forall k :: 0 <= k <= |data| - |pat| ==> !OccursAt(data, pat, k)
    ensures r >= 0 ==> OccursAt(data, pat, r) && forall k :: 0 <= k < r ==> !OccursAt(data, pat, k)
    decreases |data|
  {
    if |data| < |pat| then -1
    else if data[..|pat|] == pat then
      assert OccursAt(data, pat, 0);
      0
    else
      var r := Find(data[1..], pat);
      forall k | 1 <= k <= |data| - |pat| ensures OccursAt(data, pat, k) <==> OccursAt(data[1..], pat, k - 1) {
        OccursShift(data, pat, k);
      }
      assert !OccursAt(data, pat, 0);
      if r == -1 then -1
      else
        assert OccursAt(data, pat, r + 1);
        r + 1
  }

  /** An occurrence after the first byte is an occurrence in the rest, one offset earlier. */
  lemma OccursShift(data: seq<byte>, pat: seq<byte>, k: int)
    requires 1 <= k <= |data| - |pat|
    ensures OccursAt(data, pat, k) <==> OccursAt(data[1..], pat, k - 1)
  {
    assert data[1..][k - 1..k - 1 + |pat|] == data[k..k + |pat|];
  }

  /** The JPEG start-of-image marker `FF D8`. */
  const JPEG_SOI: seq<byte> := [0xFF, 0xD8]
  /** The start of the PNG signature, `89 'P' 'N' 'G'`. */
  const PNG_SIG: seq<byte> := [0x89, 0x50, 0x4E, 0x47]

  /** Cuts away any junk before the first image marker found at a positive offset. */
  function RepairHeader(data: seq<byte>): (r: seq<byte>)
    ensures exists k :: 0 <= k <= |data| && r == data[k..]
    ensures r != data ==> OccursAt(r, JPEG_SOI, 0) || OccursAt(r, PNG_SIG, 0)
  {
    var jpegSoi := Find(data, JPEG_SOI);
    var pngSig := Find(data, PNG_SIG);
    if jpegSoi > 0 && (pngSig < 0 || jpegSoi < pngSig) then
      assert data[jpegSoi..][..2] == data[jpegSoi..jpegSoi + 2];
      data[jpegSoi..]
    else if pngSig > 0 then
      assert data[pngSig..][..4] == data[pngSig..pngSig + 4];
      data[pngSig..]
    else
      assert data == data[0..];
      data
  }

  /** Data holding neither marker, or starting with the PNG signature, is never cut. */
  lemma RepairKeeps(data: seq<byte>)
    requires (Find(data, JPEG_SOI) == -1 && Find(data, PNG_SIG) == -1) || OccursAt(data, PNG_SIG, 0)
    ensures RepairHeader(data) == data
  {
  }

  /** A JPEG marker at a positive offset, before any PNG signature, is where the image starts. */
  lemma RepairCutsAtJpeg(data: seq<byte>, j: nat)
    requires 0 < j && OccursAt(data, JPEG_SOI, j)
    requires forall k :: 0 <= k < j ==> !OccursAt(data, JPEG_SOI, k)
    requires forall k :: 0 <= k <= j ==> !OccursAt(data, PNG_SIG, k)
    ensures RepairHeader(data) == data[j..]
  {
    var p := Find(data, PNG_SIG);
    assert p < 0 || p > j;
  }

  /**
   * The repair is asymmetric: data that already starts with the JPEG marker is
   * still cut at a later PNG signature.
   */
  lemma RepairCutsJpegAtPng(data: seq<byte>, p: nat)
    requires OccursAt(data, JPEG_SOI, 0)
    requires 0 < p && OccursAt(data, PNG_SIG, p) && forall k :: 0 <= k < p ==> !OccursAt(data, PNG_SIG, k)
    ensures RepairHeader(data) == data[p..]
  {
  }

  // ---------------------------------------------------------------------------
  // Response parsing

  /** The separator put before every page but the first. */
  function PageSeparator(index: int): string
  {
    "\n\n---\n<!-- Page " + IntToString(index + 1) + " -->\n\n"
  }

  /** The markdown parts of the pages, in order: a separator before each page with a positive index, then its text. */
  function PageParts(pages: seq<OcrPage>): seq<string>
  {
    if pages == [] then []
    else
      var p := pages[|pages| - 1];
      PageParts(pages[..|pages| - 1]) + (if p.index > 0 then [PageSeparator(p.index)] else []) + [p.markdown]
  }

  /** The name an image without an id gets: `image_{page:03d}_{counter:03d}.png`. */
  function DefaultImageName(pageIndex: int, counter: int): string
  {
    "image_" + ZeroPad(pageIndex, 3) + "_" + ZeroPad(counter, 3) + ".png"
  }

  /** The images gathered so far and the count of images that carried data. */
  datatype ImageAcc = ImageAcc(images: map<string, seq<byte>>, counter: nat)

  function StoreImage(acc: ImageAcc, pageIndex: int, img: OcrImage): ImageAcc
  {
    if img.base64 == "" then acc
    else
      var counter := acc.counter + 1;
      var name := if img.id != "" then img.id else DefaultImageName(pageIndex, counter);
      ImageAcc(acc.images[name := RepairHeader(img.decoded)], counter)
  }

  function StoreImages(acc: ImageAcc, pageIndex: int, imgs: seq<OcrImage>): ImageAcc
    decreases |imgs|
  {
    if imgs == [] then acc else StoreImages(StoreImage(acc, pageIndex, imgs[0]), pageIndex, imgs[1..])
  }

  function StoreTables(tables: map<string, string>, tbls: seq<OcrTable>): map<string, string>
    decreases |tbls|
  {
    if tbls == [] then tables else StoreTables(tables[tbls[0].id := tbls[0].content], tbls[1..])
  }

  function StorePages(acc: ImageAcc, tables: map<string, string>, pages: seq<OcrPage>): (ImageAcc, map<string, string>)
    decreases |pages|
  {
    if pages == [] then (acc, tables)
    else
      StorePages(StoreImages(acc, pages[0].index, pages[0].images),
                 StoreTables(tables, pages[0].tables), pages[1..])
  }

  /** The result `_parse_response` builds from a response. */
  function Parsed(response: OcrResponse, sourceFile: Option<string>): OcrResult
  {
    var (acc, tables) := StorePages(ImageAcc(map[], 0), map[], response.pages);
    OcrResult(Join(PageParts(response.pages), "\n"), acc.images, response.pagesProcessed, sourceFile, tables)
  }

  function CountWithData(imgs: seq<OcrImage>): nat
  {
    if imgs == [] then 0 else (if imgs[0].base64 != "" then 1 else 0) + CountWithData(imgs[1..])
  }

  function CountPageImages(pages: seq<OcrPage>): nat
  {
    if pages == [] then 0 else CountWithData(pages[0].images) + CountPageImages(pages[1..])
  }

  /** The image counter advances once per image that carries data, across pages. */
  lemma {:induction false} StoreImagesCounter(acc: ImageAcc, pageIndex: int, imgs: seq<OcrImage>)
    ensures StoreImages(acc, pageIndex, imgs).counter == acc.counter + CountWithData(imgs)
    decreases |imgs|
  {
    if imgs != [] {
      StoreImagesCounter(StoreImage(acc, pageIndex, imgs[0]), pageIndex, imgs[1..]);
    }
  }

  lemma {:induction false} StorePagesCounter(acc: ImageAcc, tables: map<string, string>, pages: seq<OcrPage>)
    ensures StorePages(acc, tables, pages).0.counter == acc.counter + CountPageImages(pages)
    decreases |pages|
  {
    if pages != [] {
      StoreImagesCounter(acc, pages[0].index, pages[0].images);
      StorePagesCounter(StoreImages(acc, pages[0].index, pages[0].images),
                        StoreTables(tables, pages[0].tables), pages[1..]);
    }
  }

  /** Every table id of the response is a key of the table map, and no other key is. */
  lemma {:induction false} StoreTablesKeys(tables: map<string, string>, tbls: seq<OcrTable>)
    ensures forall k :: k in StoreTables(tables, tbls) <==>
              k in tables || exists i :: 0 <= i < |tbls| && tbls[i].id == k
    decreases |tbls|
  {
    if tbls != [] {
      StoreTablesKeys(tables[tbls[0].id := tbls[0].content], tbls[1..]);
      forall k ensures k in StoreTables(tables, tbls) <==> k in tables || exists i :: 0 <= i < |tbls| && tbls[i].id == k {
        if exists i :: 0 <= i < |tbls[1..]| && tbls[1..][i].id == k {
          var i :| 0 <= i < |tbls[1..]| && tbls[1..][i].id == k;
          assert tbls[i + 1].id == k;
        }
        if exists i :: 0 <= i < |tbls| && tbls[i].id == k {
          var i :| 0 <= i < |tbls| && tbls[i].id == k;
          if i > 0 {
            assert tbls[1..][i - 1].id == k;
          }
        }
      }
    }
  }

  /** A later table with the same id overwrites an earlier one: the last table sets the content. */
  lemma {:induction false} StoreTablesLastWins(tables: map<string, string>, tbls: seq<OcrTable>)
    requires |tbls| > 0
    ensures tbls[|tbls| - 1].id in StoreTables(tables, tbls)
    ensures StoreTables(tables, tbls)[tbls[|tbls| - 1].id] == tbls[|tbls| - 1].content
    decreases |tbls|
  {
    if |tbls| > 1 {
      StoreTablesLastWins(tables[tbls[0].id := tbls[0].content], tbls[1..]);
    }
  }

  /** Images without an id never clash with one another: their default names are distinct. */
  lemma DefaultImageNamesDistinct(p1: int, c1: int, p2: int, c2: int)
    requires DefaultImageName(p1, c1) == DefaultImageName(p2, c2)
    ensures p1 == p2 && c1 == c2
  {
    ZeroPadNoUnderscore(p1, 3);
    ZeroPadNoUnderscore(p2, 3);
    NameFieldsAgree(ZeroPad(p1, 3), ZeroPad(c1, 3), ZeroPad(p2, 3), ZeroPad(c2, 3));
    ZeroPadInjective(p1, p2, 3);
    ZeroPadInjective(c1, c2, 3);
  }

  lemma NameFieldsAgree(a: string, x: string, b: string, y: string)
    requires '_' !in a && '_' !in b
    requires "image_" + a + "_" + x + ".png" == "image_" + b + "_" + y + ".png"
    ensures a == b && x == y
  {
    var n1, n2 := "image_" + a + "_" + x + ".png", "image_" + b + "_" + y + ".png";
    assert n1[6..|n1| - 4] == a + "_" + x;
    assert n2[6..|n2| - 4] == b + "_" + y;
    SplitAtFirst(a, x, b, y, '_');
  }

  /** The image loop of `_parse_response` for one page. */
  method StorePageImages(images: map<string, seq<byte>>, imageCounter: nat, page: OcrPage)
    returns (images': map<string, seq<byte>>, imageCounter': nat)
    ensures ImageAcc(images', imageCounter') == StoreImages(ImageAcc(images, imageCounter), page.index, page.images)
  {
    images', imageCounter' := images, imageCounter;
    var j := 0;
    while j < |page.images|
      invariant 0 <= j <= |page.images|
      invariant StoreImages(ImageAcc(images', imageCounter'), page.index, page.images[j..])
                == StoreImages(ImageAcc(images, imageCounter), page.index, page.images)
    {
      StoreImagesStep(ImageAcc(images', imageCounter'), page.index, page.images, j);
      images', imageCounter' := StoreOneImage(images', imageCounter', page.index, page.images[j]);
      j := j + 1;
    }
  }

  /** One turn of the image loop: an image with data advances the counter and is stored, repaired, under its name. */
  method StoreOneImage(images: map<string, seq<byte>>, imageCounter: nat, pageIndex: int, img: OcrImage)
    returns (images': map<string, seq<byte>>, imageCounter': nat)
    ensures ImageAcc(images', imageCounter') == StoreImage(ImageAcc(images, imageCounter), pageIndex, img)
  {
    if img.base64 == "" {
      images', imageCounter' := images, imageCounter;
    } else {
      imageCounter' := imageCounter + 1;
      var filename := if img.id != "" then img.id else DefaultImageName(pageIndex, imageCounter');
      var imageData := RepairHeader(img.decoded);
      images' := images[filename := imageData];
      assert StoreImage(ImageAcc(images, imageCounter), pageIndex, img) == ImageAcc(images[filename := imageData], imageCounter');
    }
  }

  lemma StoreImagesStep(acc: ImageAcc, pageIndex: int, imgs: seq<OcrImage>, j: nat)
    requires j < |imgs|
    ensures StoreImages(acc, pageIndex, imgs[j..]) == StoreImages(StoreImage(acc, pageIndex, imgs[j]), pageIndex, imgs[j + 1..])
  {
    assert imgs[j..][1..] == imgs[j + 1..];
  }

  /** The table loop of `_parse_response` for one page. */
  method StorePageTables(tables: map<string, string>, page: OcrPage) returns (tables': map<string, string>)
    ensures tables' == StoreTables(tables, page.tables)
  {
    tables' := tables;
    var k := 0;
    while k < |page.tables|
      invariant 0 <= k <= |page.tables|
      invariant StoreTables(tables', page.tables[k..]) == StoreTables(tables, page.tables)
    {
      var tbl := page.tables[k];
      assert page.tables[k..][1..] == page.tables[k + 1..];
      tables' := tables'[tbl.id := tbl.content];
      k := k + 1;
    }
  }

  /** `_parse_response`: join the page texts with separators and collect images and tables. */
  method ParseResponse(response: OcrResponse, sourceFile: Option<string>) returns (r: OcrResult)
    ensures r == Parsed(response, sourceFile)
  {
    var markdownParts: seq<string> := [];
    var images: map<string, seq<byte>> := map[];
    var tables: map<string, string> := map[];
    var imageCounter: nat := 0;
    var pages := response.pages;

    var i := 0;
    while i < |pages|
      invariant 0 <= i <= |pages|
      invariant markdownParts == PageParts(pages[..i])
      invariant StorePages(ImageAcc(images, imageCounter), tables, pages[i..])
                == StorePages(ImageAcc(map[], 0), map[], pages)
    {
      var page := pages[i];
      assert pages[..i + 1][..i] == pages[..i];
      if page.index > 0 {
        markdownParts := markdownParts + [PageSeparator(page.index)];
      }
      markdownParts := markdownParts + [page.markdown];

      images, imageCounter := StorePageImages(images, imageCounter, page);
      tables := StorePageTables(tables, page);
      assert pages[i..] == [page] + pages[i + 1..];
      i := i + 1;
    }
    assert pages[..i] == pages;
    r := OcrResult(Join(markdownParts, "\n"), images, response.pagesProcessed, sourceFile, tables);
  }

  // ---------------------------------------------------------------------------
  // The retry loop of `process_pdf_from_path`

  /** Errors whose message names a 500 or 503 status or an unavailable service are worth retrying. */
  predicate IsTransient(message: string)
  {
    Contains(message, "500") || Contains(message, "503") || Contains(message, "Service unavailable")
  }

  /** What one OCR attempt gives: a response, or the message of the exception it raised. */
  datatype AttemptOutcome = Responded(response: OcrResponse) | Raised(message: string)

  datatype OcrError =
    | FileNotFound(path: string)
    | UploadFailed(message: string)
    | RequestFailed(message: string)

  /** Attempt `k` ends the loop: it succeeded, failed for good, or was the last one allowed. */
  predicate EndsLoop(outcome: AttemptOutcome, k: nat)
  {
    outcome.Responded? || !IsTransient(outcome.message) || k == LAST_ATTEMPT
  }

  /**
   * `process_pdf_from_path`: one upload, then up to five OCR attempts, retrying
   * only transient failures after waits of 10, 20, 30 and 40 seconds. The remote
   * calls are given by `uploadError` (the upload's exception, if any) and by
   * `service`, the outcome of each attempt; `waits` records the sleeps.
   */
  method ProcessPdfFromPath(pdfPath: string, fileExists: bool, uploadError: Option<string>,
                            service: nat -> AttemptOutcome)
    returns (result: Result<OcrResult, OcrError>, attempts: nat, waits: seq<int>)
    ensures !fileExists ==> result == Err(FileNotFound(pdfPath)) && attempts == 0
    ensures fileExists && uploadError.Some? ==> result == Err(UploadFailed(uploadError.value)) && attempts == 0
    ensures fileExists && uploadError.None? ==> 1 <= attempts <= MAX_RETRIES
    ensures attempts > 0 ==>
              && (forall k :: 0 <= k < attempts - 1 ==> !EndsLoop(service(k), k))
              && EndsLoop(service(attempts - 1), attempts - 1)
              && result == match service(attempts - 1)
                           case Responded(response) => Ok(Parsed(response, Some(PathName(pdfPath))))
                           case Raised(message) => Err(RequestFailed(message))
    ensures |waits| == if attempts == 0 then 0 else attempts - 1
    ensures forall k :: 0 <= k < |waits| ==> waits[k] == RETRY_DELAY_SECONDS * (k + 1)
  {
    waits := [];
    attempts := 0;
    if !fileExists {
      return Err(FileNotFound(pdfPath)), 0, [];
    }
    if uploadError.Some? {
      return Err(UploadFailed(uploadError.value)), 0, [];
    }

    var lastError := "";
    for attempt := 0 to MAX_RETRIES
      invariant attempts == attempt
      invariant |waits| == attempt
      invariant forall k :: 0 <= k < attempt ==> waits[k] == RETRY_DELAY_SECONDS * (k + 1)
      invariant forall k :: 0 <= k < attempt ==> !EndsLoop(service(k), k)
    {
      attempts := attempt + 1;
      var outcome := service(attempt);
      match outcome {
        case Responded(response) =>
          var parsed := ParseResponse(response, Some(PathName(pdfPath)));
          return Ok(parsed), attempts, waits;
        case Raised(message) =>
          lastError := message;
          if IsTransient(message) && attempt < LAST_ATTEMPT {
            var waitTime := RETRY_DELAY_SECONDS * (attempt + 1);
            waits := waits + [waitTime];
            continue;
          }
          return Err(RequestFailed(message)), attempts, waits;
      }
    }
    // The fifth attempt always returns or raises, so the loop never runs out.
    ghost var lastOutcome := service(LAST_ATTEMPT);
    assert false;
    result := Err(RequestFailed(lastError));
  }
}
