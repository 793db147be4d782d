/**
 * Splitting of large PDFs into chunks that fit the OCR service's page limit.
 * Chunk boundaries follow the document's table of contents (bookmarks) where
 * one is available and fall back to fixed-size pieces otherwise.
 */
module Chunker {
  import opened Wrappers

  /** Pages the OCR service accepts in one request. */
  const MAX_PAGES_PER_CHUNK: int := 500
  /** Default chunk size, leaving a margin below the service limit. */
  const DEFAULT_CHUNK_SIZE: int := 450

  /** A bookmark as the PDF library reports it: its page is 1-based. */
  datatype RawTocItem = RawTocItem(level: int, title: string, page: int)

  /** A table of contents entry kept by the chunker: its page is 0-based. */
  datatype TocEntry = TocEntry(level: int, title: string, page: int)

  /** A run of pages `[startPage, endPage)` sent to the OCR service as one document. */
  datatype PdfChunk = PdfChunk(chunkIndex: int, startPage: int, endPage: int, title: Option<string>)

  datatype ChunkingResult = ChunkingResult(totalPages: int, chunks: seq<PdfChunk>, hasToc: bool)

  /** The chunker's settings: pages per chunk and the range of TOC levels used as split points. */
  datatype ChunkerConfig = ChunkerConfig(maxChunkSize: int, minChapterLevel: int, maxChapterLevel: int)

  const DefaultConfig: ChunkerConfig := ChunkerConfig(DEFAULT_CHUNK_SIZE, 1, 2)

  /** The number of pages of a chunk: the size of the set of page numbers in `[startPage, endPage)`. */
  function PageCount(c: PdfChunk): (n: int)
    ensures c.startPage <= c.endPage ==> n == |PagesIn(c.startPage, c.endPage)|
  {
    PagesInSize(c.startPage, c.endPage);
    c.endPage - c.startPage
  }

  /** The page numbers `p` with `a <= p < b`. */
  function PagesIn(a: int, b: int): (r: set<int>)
    ensures forall p :: p in r <==> a <= p < b
    decreases b - a
  {
    if a >= b then {} else PagesIn(a, b - 1) + {b - 1}
  }

  lemma {:induction false} PagesInSize(a: int, b: int)
    ensures a <= b ==> |PagesIn(a, b)| == b - a
    decreases b - a
  {
    if a < b {
      PagesInSize(a, b - 1);
      assert b - 1 !in PagesIn(a, b - 1);
    }
  }

  /** Whether the document, sent as one chunk of all its pages, exceeds the service's page limit. */
  predicate NeedsChunking(r: ChunkingResult)
    ensures NeedsChunking(r) <==> PageCount(PdfChunk(0, 0, r.totalPages, None)) > MAX_PAGES_PER_CHUNK
  {
    r.totalPages > MAX_PAGES_PER_CHUNK
  }

  // ---------------------------------------------------------------------------
  // Partitions of the page range

  /** `chunks` cut `[0, total)` into consecutive, non-empty runs numbered 0, 1, 2, ... */
  predicate Partitions(chunks: seq<PdfChunk>, total: int)
  {
    && |chunks| > 0
    && chunks[0].startPage == 0
    && chunks[|chunks| - 1].endPage == total
    && (forall i :: 0 <= i < |chunks| ==> chunks[i].chunkIndex == i && chunks[i].startPage < chunks[i].endPage)
    && (forall i :: 0 <= i < |chunks| - 1 ==> chunks[i].endPage == chunks[i + 1].startPage)
  }

  function SumPageCounts(chunks: seq<PdfChunk>): int
  {
    if chunks == [] then 0 else SumPageCounts(chunks[..|chunks| - 1]) + PageCount(chunks[|chunks| - 1])
  }

  /** The chunks of a partition together hold every page exactly once, so their page counts add up. */
  lemma {:induction false} PartitionPageTotal(chunks: seq<PdfChunk>, total: int)
    requires Partitions(chunks, total)
    ensures SumPageCounts(chunks) == total
  {
    PrefixPageTotal(chunks, total, |chunks|);
    assert chunks[..|chunks|] == chunks;
  }

  lemma {:induction false} PrefixPageTotal(chunks: seq<PdfChunk>, total: int, n: nat)
    requires Partitions(chunks, total)
    requires 0 < n <= |chunks|
    ensures SumPageCounts(chunks[..n]) == chunks[n - 1].endPage
  {
    assert chunks[..n][..n - 1] == chunks[..n - 1];
    if n > 1 {
      PrefixPageTotal(chunks, total, n - 1);
    } else {
      assert chunks[..0] == [];
    }
  }

  lemma {:induction false} PartitionStartsIncrease(chunks: seq<PdfChunk>, total: int, i: int, j: int)
    requires Partitions(chunks, total)
    requires 0 <= i < j < |chunks|
    ensures chunks[i].endPage <= chunks[j].startPage
  {
    if j > i + 1 {
      PartitionStartsIncrease(chunks, total, i, j - 1);
    }
  }

  /** Every page of `[0, total)` lies in exactly one chunk of a partition. */
  lemma {:induction false} PageInExactlyOneChunk(chunks: seq<PdfChunk>, total: int, p: int)
    requires Partitions(chunks, total)
    requires 0 <= p < total
    ensures exists i :: 0 <= i < |chunks| && chunks[i].startPage <= p < chunks[i].endPage
    ensures forall i, j ::
              (0 <= i < |chunks| && 0 <= j < |chunks|
               && chunks[i].startPage <= p < chunks[i].endPage
               && chunks[j].startPage <= p < chunks[j].endPage) ==> i == j
  {
    PageInSomeChunk(chunks, total, p, |chunks|);
    forall i, j | 0 <= i < |chunks| && 0 <= j < |chunks|
      && chunks[i].startPage <= p < chunks[i].endPage
      && chunks[j].startPage <= p < chunks[j].endPage
      ensures i == j
    {
      if i < j {
        PartitionStartsIncrease(chunks, total, i, j);
      } else if j < i {
        PartitionStartsIncrease(chunks, total, j, i);
      }
    }
  }

  lemma {:induction false} PageInSomeChunk(chunks: seq<PdfChunk>, total: int, p: int, n: nat)
    requires Partitions(chunks, total)
    requires 0 < n <= |chunks| && 0 <= p < chunks[n - 1].endPage
    ensures exists i :: 0 <= i < n && chunks[i].startPage <= p < chunks[i].endPage
  {
    if p < chunks[n - 1].startPage {
      PageInSomeChunk(chunks, total, p, n - 1);
    }
  }

  // ---------------------------------------------------------------------------
  // _extract_toc

  /** The filter `_extract_toc` applies to each bookmark. */
  predicate Keeps(cfg: ChunkerConfig, docPages: int, x: RawTocItem)
  {
    cfg.minChapterLevel <= x.level <= cfg.maxChapterLevel && 1 <= x.page <= docPages
  }

  function AsEntry(x: RawTocItem): TocEntry { TocEntry(x.level, x.title, x.page - 1) }

  /** The kept bookmarks, in their original order, with 0-based pages. */
  function Kept(raw: seq<RawTocItem>, docPages: int, cfg: ChunkerConfig): seq<TocEntry>
  {
    if raw == [] then []
    else
      var rest := Kept(raw[..|raw| - 1], docPages, cfg);
      var x := raw[|raw| - 1];
      if Keeps(cfg, docPages, x) then rest + [AsEntry(x)] else rest
  }

  /** An entry is kept exactly when some bookmark passes the level and page filter and converts to it. */
  lemma {:induction false} KeptMembers(raw: seq<RawTocItem>, docPages: int, cfg: ChunkerConfig)
    ensures forall e :: e in Kept(raw, docPages, cfg) <==>
              exists x :: x in raw && Keeps(cfg, docPages, x) && AsEntry(x) == e
    ensures forall e :: e in Kept(raw, docPages, cfg) ==>
              cfg.minChapterLevel <= e.level <= cfg.maxChapterLevel && 0 <= e.page < docPages
  {
    if raw != [] {
      var init := raw[..|raw| - 1];
      KeptMembers(init, docPages, cfg);
      assert raw == init + [raw[|raw| - 1]];
      forall e ensures e in Kept(raw, docPages, cfg) <==>
        exists x :: x in raw && Keeps(cfg, docPages, x) && AsEntry(x) == e
      {
        if e in Kept(raw, docPages, cfg) && e !in Kept(init, docPages, cfg) {
          assert raw[|raw| - 1] in raw;
        }
        if exists x :: x in raw && Keeps(cfg, docPages, x) && AsEntry(x) == e {
          var x :| x in raw && Keeps(cfg, docPages, x) && AsEntry(x) == e;
          if x != raw[|raw| - 1] {
            assert x in init;
          }
        }
      }
    }
  }

  /** `_extract_toc`: keep the bookmarks at the configured levels whose page lies in the document. */
  method ExtractToc(raw: seq<RawTocItem>, docPages: nat, cfg: ChunkerConfig) returns (toc: seq<TocEntry>)
    ensures toc == Kept(raw, docPages, cfg)
    ensures |toc| <= |raw|
    ensures forall e :: e in toc ==> cfg.minChapterLevel <= e.level <= cfg.maxChapterLevel && 0 <= e.page < docPages
    ensures forall e :: e in toc <==> exists x :: x in raw && Keeps(cfg, docPages, x) && AsEntry(x) == e
    ensures |toc| > 0 <==> exists x :: x in raw && Keeps(cfg, docPages, x)
  {
    toc := [];
    var i := 0;
    while i < |raw|
      invariant 0 <= i <= |raw|
      invariant toc == Kept(raw[..i], docPages, cfg)
      invariant |toc| <= i
    {
      var x := raw[i];
      if cfg.minChapterLevel <= x.level <= cfg.maxChapterLevel {
        if 1 <= x.page <= docPages {
          toc := toc + [TocEntry(x.level, x.title, x.page - 1)];
        }
      }
      assert raw[..i + 1][..i] == raw[..i];
      i := i + 1;
    }
    assert raw[..i] == raw;
    KeptMembers(raw, docPages, cfg);
    if |toc| > 0 {
      assert toc[0] in toc;
    } else if exists x :: x in raw && Keeps(cfg, docPages, x) {
      var x :| x in raw && Keeps(cfg, docPages, x);
      assert AsEntry(x) in toc;
    }
  }

  // ---------------------------------------------------------------------------
  // Sorting the TOC by page (Python's `sorted` is stable)

  predicate SortedByPage(s: seq<TocEntry>)
  {
    forall i, j :: 0 <= i < j < |s| ==> s[i].page <= s[j].page
  }

  /** Places `e` before the first entry whose page is not smaller, so earlier equal-page entries stay first. */
  function InsertByPage(e: TocEntry, s: seq<TocEntry>): seq<TocEntry>
  {
    if s == [] || e.page <= s[0].page then [e] + s else [s[0]] + InsertByPage(e, s[1..])
  }

  function SortByPage(s: seq<TocEntry>): seq<TocEntry>
  {
    if s == [] then [] else InsertByPage(s[0], SortByPage(s[1..]))
  }

  /** The entries of `s` that sit on page `p`, in order. */
  function OnPage(s: seq<TocEntry>, p: int): seq<TocEntry>
  {
    if s == [] then [] else (if s[0].page == p then [s[0]] else []) + OnPage(s[1..], p)
  }

  lemma {:induction false} InsertByPageMultiset(e: TocEntry, s: seq<TocEntry>)
    ensures multiset(InsertByPage(e, s)) == multiset(s) + multiset{e}
  {
    if s != [] && e.page > s[0].page {
      InsertByPageMultiset(e, s[1..]);
      assert s == [s[0]] + s[1..];
    }
  }

  lemma {:induction false} InsertByPageSorted(e: TocEntry, s: seq<TocEntry>)
    requires SortedByPage(s)
    ensures SortedByPage(InsertByPage(e, s))
  {
    if s != [] && e.page > s[0].page {
      var t := InsertByPage(e, s[1..]);
      InsertByPageSorted(e, s[1..]);
      assert forall k :: 0 <= k < |s[1..]| ==> s[0].page <= s[1..][k].page by {
        forall k | 0 <= k < |s[1..]|
          ensures s[0].page <= s[1..][k].page
        {
          assert s[1..][k] == s[k + 1];
        }
      }
      InsertByPageBound(e, s[1..], s[0].page);
      var r := [s[0]] + t;
      forall i, j | 0 <= i < j < |r| ensures r[i].page <= r[j].page {
        assert r[j] == t[j - 1];
        if i > 0 {
          assert r[i] == t[i - 1];
        }
      }
    }
  }

  /** Inserting an entry no lower than a bound into entries no lower than it keeps them all at or above it. */
  lemma {:induction false} InsertByPageBound(e: TocEntry, s: seq<TocEntry>, lo: int)
    requires lo <= e.page && forall k :: 0 <= k < |s| ==> lo <= s[k].page
    ensures forall k :: 0 <= k < |InsertByPage(e, s)| ==> lo <= InsertByPage(e, s)[k].page
  {
    if s != [] && e.page > s[0].page {
      assert forall k :: 0 <= k < |s[1..]| ==> lo <= s[1..][k].page by {
        forall k | 0 <= k < |s[1..]|
          ensures lo <= s[1..][k].page
        {
          assert s[1..][k] == s[k + 1];
        }
      }
      InsertByPageBound(e, s[1..], lo);
      var t := InsertByPage(e, s[1..]);
      forall k | 0 <= k < |[s[0]] + t|
        ensures lo <= ([s[0]] + t)[k].page
      {
        if k > 0 {
          assert ([s[0]] + t)[k] == t[k - 1];
        }
      }
    }
  }

  lemma {:induction false} InsertByPageOnPage(e: TocEntry, s: seq<TocEntry>, p: int)
    ensures OnPage(InsertByPage(e, s), p) == (if e.page == p then [e] else []) + OnPage(s, p)
  {
    if s != [] && e.page > s[0].page {
      var t := InsertByPage(e, s[1..]);
      InsertByPageOnPage(e, s[1..], p);
      var r := [s[0]] + t;
      assert r[1..] == t;
      assert OnPage(r, p) == (if s[0].page == p then [s[0]] else []) + OnPage(t, p);
    }
  }

  /**
   * The sorted TOC is ordered by page, holds the same entries, and keeps entries
   * that share a page in their original order (the sort is stable).
   */
  lemma {:induction false} SortByPageFacts(s: seq<TocEntry>)
    ensures SortedByPage(SortByPage(s))
    ensures multiset(SortByPage(s)) == multiset(s)
    ensures forall p :: OnPage(SortByPage(s), p) == OnPage(s, p)
  {
    if s != [] {
      SortByPageFacts(s[1..]);
      InsertByPageSorted(s[0], SortByPage(s[1..]));
      InsertByPageMultiset(s[0], SortByPage(s[1..]));
      forall p ensures OnPage(SortByPage(s), p) == OnPage(s, p) {
        InsertByPageOnPage(s[0], SortByPage(s[1..]), p);
      }
      assert s == [s[0]] + s[1..];
    }
  }

  lemma SortedSameEntries(s: seq<TocEntry>)
    ensures forall e :: e in SortByPage(s) <==> e in s
  {
    SortByPageFacts(s);
    forall e ensures e in SortByPage(s) <==> e in s {
      assert e in SortByPage(s) <==> e in multiset(SortByPage(s));
      assert e in s <==> e in multiset(s);
    }
  }

  // ---------------------------------------------------------------------------
  // _get_section_title

  /** The number of leading entries whose page is at most `page`. */
  function LeadingAtOrBefore(toc: seq<TocEntry>, page: int): (n: nat)
    ensures n <= |toc|
    ensures forall j :: 0 <= j < n ==> toc[j].page <= page
    ensures n < |toc| ==> toc[n].page > page
  {
    if toc == [] || toc[0].page > page then 0 else 1 + LeadingAtOrBefore(toc[1..], page)
  }

  /** The title `_get_section_title` reports: that of the last entry before the first one past `page`. */
  function TitleAt(toc: seq<TocEntry>, page: int): Option<string>
  {
    var n := LeadingAtOrBefore(toc, page);
    if n == 0 then None else Some(toc[n - 1].title)
  }

  /** On a sorted TOC the reported title is that of the last entry on or before `page`, if there is one. */
  lemma TitleAtSorted(toc: seq<TocEntry>, page: int)
    requires SortedByPage(toc)
    ensures TitleAt(toc, page).None? <==> forall k :: 0 <= k < |toc| ==> toc[k].page > page
    ensures TitleAt(toc, page).Some? ==>
              exists k :: 0 <= k < |toc| && toc[k].page <= page && toc[k].title == TitleAt(toc, page).value
                && forall j :: k < j < |toc| ==> toc[j].page > page
  {
    var n := LeadingAtOrBefore(toc, page);
    if n > 0 {
      assert toc[n - 1].page <= page;
    }
  }

  /** `_get_section_title`: walk the TOC, remembering titles until an entry lies past `page`. */
  method SectionTitle(toc: seq<TocEntry>, page: int) returns (best: Option<string>)
    ensures best == TitleAt(toc, page)
  {
    best := None;
    var i := 0;
    while i < |toc|
      invariant 0 <= i <= |toc|
      invariant forall j :: 0 <= j < i ==> toc[j].page <= page
      invariant best == if i == 0 then None else Some(toc[i - 1].title)
    {
      if toc[i].page <= page {
        best := Some(toc[i].title);
        i := i + 1;
      } else {
        break;
      }
    }
    assert i == LeadingAtOrBefore(toc, page);
  }

  // ---------------------------------------------------------------------------
  // _chunk_by_toc

  /** The page of the last entry, in list order, lying in the window `(lo, hi]`. */
  function LastInWindow(toc: seq<TocEntry>, lo: int, hi: int): (r: Option<int>)
    ensures r.None? <==> forall k :: 0 <= k < |toc| ==> !(lo < toc[k].page <= hi)
    ensures r.Some? ==> exists m :: 0 <= m < |toc| && toc[m].page == r.value && lo < r.value <= hi
                          && forall j :: m < j < |toc| ==> !(lo < toc[j].page <= hi)
  {
    if toc == [] then None
    else
      var init := toc[..|toc| - 1];
      var last := toc[|toc| - 1];
      if lo < last.page <= hi then Some(last.page)
      else
        var r := LastInWindow(init, lo, hi);
        assert forall k :: 0 <= k < |init| ==> init[k] == toc[k];
        r
  }

  /** On a sorted TOC the last entry in the window is the furthest boundary in it. */
  lemma LastInWindowIsFurthest(toc: seq<TocEntry>, lo: int, hi: int)
    requires SortedByPage(toc)
    ensures LastInWindow(toc, lo, hi).Some? ==>
              forall k :: 0 <= k < |toc| && lo < toc[k].page <= hi ==> toc[k].page <= LastInWindow(toc, lo, hi).value
  {
  }

  /**
   * The split search of `_chunk_by_toc` for a chunk that cannot reach the last
   * page: the last TOC page in `(currentStart, maxEnd]`, in list order, or `maxEnd`
   * when there is none.
   */
  method BestSplit(sortedToc: seq<TocEntry>, currentStart: int, maxEnd: int, totalPages: int, maxChunkSize: int)
    returns (split: int)
    requires maxEnd == currentStart + maxChunkSize < totalPages
    requires maxChunkSize >= 1
    ensures split == TocSplit(sortedToc, currentStart, maxChunkSize)
    ensures currentStart < split <= maxEnd
  {
    var best: Option<int> := None;
    var i := 0;
    while i < |sortedToc|
      invariant 0 <= i <= |sortedToc|
      invariant best == LastInWindow(sortedToc[..i], currentStart, maxEnd)
    {
      assert sortedToc[..i + 1][..i] == sortedToc[..i];
      if currentStart < sortedToc[i].page <= maxEnd {
        best := Some(sortedToc[i].page);
      }
      i := i + 1;
    }
    assert sortedToc[..i] == sortedToc;

    if best.None? {
      // The remaining pages never fit here: `maxEnd` lies before the last page.
      if totalPages - currentStart <= maxChunkSize {
        assert false;
        split := totalPages;
      } else {
        split := maxEnd;
      }
    } else {
      split := best.value;
    }
  }

  /**
   * Where a chunk other than the last one ends: at the furthest TOC boundary
   * reachable within `size` pages of its start, or after exactly `size` pages
   * when no boundary lies in that window.
   */
  predicate EndsAtBoundary(toc: seq<TocEntry>, c: PdfChunk, size: int)
  {
    if exists e :: e in toc && c.startPage < e.page <= c.startPage + size then
      && (exists e :: e in toc && e.page == c.endPage)
      && forall e :: e in toc && c.startPage < e.page <= c.startPage + size ==> e.page <= c.endPage
    else
      c.endPage == c.startPage + size
  }

  /** The end `_chunk_by_toc` picks for a chunk starting at `start` that cannot reach the last page. */
  function TocSplit(sortedToc: seq<TocEntry>, start: int, size: int): int
  {
    match LastInWindow(sortedToc, start, start + size)
    case Some(p) => p
    case None => start + size
  }

  /** The split taken on the sorted TOC is the furthest boundary of the original TOC within reach. */
  lemma SplitEndsAtBoundary(toc: seq<TocEntry>, c: PdfChunk, size: int)
    requires c.endPage == TocSplit(SortByPage(toc), c.startPage, size)
    ensures EndsAtBoundary(toc, c, size)
  {
    SortByPageFacts(toc);
    SortedSameEntries(toc);
    SplitFromSortedCopy(toc, SortByPage(toc), c, size);
  }

  lemma SplitFromSortedCopy(toc: seq<TocEntry>, sortedToc: seq<TocEntry>, c: PdfChunk, size: int)
    requires SortedByPage(sortedToc)
    requires forall e :: e in sortedToc <==> e in toc
    requires c.endPage == TocSplit(sortedToc, c.startPage, size)
    ensures EndsAtBoundary(toc, c, size)
  {
    var lo, hi := c.startPage, c.startPage + size;
    LastInWindowIsFurthest(sortedToc, lo, hi);
    var w := LastInWindow(sortedToc, lo, hi);
    if w.Some? {
      var m :| 0 <= m < |sortedToc| && sortedToc[m].page == w.value && lo < w.value <= hi;
      WindowBoundInCopy(toc, sortedToc, lo, hi, w.value);
      assert sortedToc[m] in toc;
    } else {
      WindowEmptyInCopy(toc, sortedToc, lo, hi);
    }
  }

  /** A bound on the pages of the sorted copy's window bounds the original's window too. */
  lemma WindowBoundInCopy(toc: seq<TocEntry>, sortedToc: seq<TocEntry>, lo: int, hi: int, bound: int)
    requires forall e :: e in sortedToc <==> e in toc
    requires forall k :: 0 <= k < |sortedToc| && lo < sortedToc[k].page <= hi ==> sortedToc[k].page <= bound
    ensures forall e :: e in toc && lo < e.page <= hi ==> e.page <= bound
  {
    forall e | e in toc && lo < e.page <= hi ensures e.page <= bound {
      var k :| 0 <= k < |sortedToc| && sortedToc[k] == e;
    }
  }

  /** An empty window in the sorted copy is empty in the original. */
  lemma WindowEmptyInCopy(toc: seq<TocEntry>, sortedToc: seq<TocEntry>, lo: int, hi: int)
    requires forall e :: e in sortedToc <==> e in toc
    requires forall k :: 0 <= k < |sortedToc| ==> !(lo < sortedToc[k].page <= hi)
    ensures forall e :: e in toc ==> !(lo < e.page <= hi)
  {
    forall e | e in toc ensures !(lo < e.page <= hi) {
      var k :| 0 <= k < |sortedToc| && sortedToc[k] == e;
    }
  }

  /** `chunks` tile `[0, upTo)`: a partition of it, or nothing yet when `upTo` is 0. */
  predicate TilesUpTo(chunks: seq<PdfChunk>, upTo: int)
  {
    if chunks == [] then upTo == 0 else Partitions(chunks, upTo)
  }

  lemma TilesExtend(chunks: seq<PdfChunk>, upTo: int, c: PdfChunk)
    requires TilesUpTo(chunks, upTo)
    requires c.chunkIndex == |chunks| && c.startPage == upTo < c.endPage
    ensures TilesUpTo(chunks + [c], c.endPage)
  {
    var r := chunks + [c];
    assert forall i :: 0 <= i < |chunks| ==> r[i] == chunks[i];
  }

  /** What `_chunk_by_toc` promises of each chunk it ends before the last page. */
  predicate TocChunk(toc: seq<TocEntry>, c: PdfChunk, size: int)
  {
    && PageCount(c) <= size
    && EndsAtBoundary(toc, c, size)
    && c.title == TitleAt(SortByPage(toc), c.startPage)
  }

  lemma TocChunksExtend(toc: seq<TocEntry>, chunks: seq<PdfChunk>, c: PdfChunk, size: int)
    requires forall i :: 0 <= i < |chunks| ==> TocChunk(toc, chunks[i], size)
    requires TocChunk(toc, c, size)
    ensures forall i :: 0 <= i < |chunks + [c]| ==> TocChunk(toc, (chunks + [c])[i], size)
  {
    forall i | 0 <= i < |chunks + [c]|
      ensures TocChunk(toc, (chunks + [c])[i], size)
    {
      if i < |chunks| {
        assert (chunks + [c])[i] == chunks[i];
      }
    }
  }

  /** The last chunk reaches the last page; together with the earlier ones it gives what `_chunk_by_toc` promises. */
  lemma TocChunksFinish(toc: seq<TocEntry>, chunks: seq<PdfChunk>, c: PdfChunk, size: int)
    requires TilesUpTo(chunks, c.startPage) && c.chunkIndex == |chunks| && c.startPage < c.endPage
    requires PageCount(c) <= size && c.title == TitleAt(SortByPage(toc), c.startPage)
    requires forall i :: 0 <= i < |chunks| ==> TocChunk(toc, chunks[i], size)
    ensures Partitions(chunks + [c], c.endPage)
    ensures forall i :: 0 <= i < |chunks + [c]| ==> PageCount((chunks + [c])[i]) <= size
    ensures forall i :: 0 <= i < |chunks + [c]| - 1 ==> EndsAtBoundary(toc, (chunks + [c])[i], size)
    ensures forall i :: 0 <= i < |chunks + [c]| ==> (chunks + [c])[i].title == TitleAt(SortByPage(toc), (chunks + [c])[i].startPage)
  {
    TilesExtend(chunks, c.startPage, c);
    forall i | 0 <= i < |chunks|
      ensures (chunks + [c])[i] == chunks[i]
    {
    }
  }

  /** Appending the last chunk keeps what is known of the ones before it: a chunk is ended early only when the rest would not fit. */
  lemma EarlyChunksKept(chunks: seq<PdfChunk>, c: PdfChunk, size: int, total: int)
    requires forall i :: 0 <= i < |chunks| ==> chunks[i].startPage + size < total
    ensures forall i :: 0 <= i < |chunks + [c]| - 1 ==> (chunks + [c])[i].startPage + size < total
  {
    forall i | 0 <= i < |chunks + [c]| - 1
      ensures (chunks + [c])[i].startPage + size < total
    {
      assert (chunks + [c])[i] == chunks[i];
    }
  }

  /** `_chunk_by_toc`: cut at the last chapter boundary before each size limit. */
  method ChunkByToc(toc: seq<TocEntry>, totalPages: int, maxChunkSize: int) returns (chunks: seq<PdfChunk>)
    requires maxChunkSize >= 1
    ensures totalPages <= 0 ==> chunks == []
    ensures totalPages > 0 ==> Partitions(chunks, totalPages)
    ensures forall i :: 0 <= i < |chunks| ==> PageCount(chunks[i]) <= maxChunkSize
    ensures forall i :: 0 <= i < |chunks| - 1 ==> EndsAtBoundary(toc, chunks[i], maxChunkSize)
    ensures |chunks| > 0 ==> chunks[|chunks| - 1].startPage + maxChunkSize >= totalPages
    ensures forall i :: 0 <= i < |chunks| - 1 ==> chunks[i].startPage + maxChunkSize < totalPages
    ensures forall i :: 0 <= i < |chunks| ==> chunks[i].title == TitleAt(SortByPage(toc), chunks[i].startPage)
  {
    chunks := [];
    var currentStart := 0;
    var chunkIndex := 0;
    var sortedToc := SortByPage(toc);

    while currentStart < totalPages
      invariant 0 <= currentStart
      invariant chunkIndex == |chunks|
      invariant TilesUpTo(chunks, currentStart)
      invariant chunks != [] ==> currentStart < totalPages
      invariant forall i :: 0 <= i < |chunks| ==> TocChunk(toc, chunks[i], maxChunkSize)
      invariant forall i :: 0 <= i < |chunks| ==> chunks[i].startPage + maxChunkSize < totalPages
      decreases totalPages - currentStart
    {
      ghost var done := chunks;
      var maxEnd := Min(currentStart + maxChunkSize, totalPages);
      var title := SectionTitle(sortedToc, currentStart);

      if maxEnd >= totalPages {
        TocChunksFinish(toc, chunks, PdfChunk(chunkIndex, currentStart, totalPages, title), maxChunkSize);
        EarlyChunksKept(chunks, PdfChunk(chunkIndex, currentStart, totalPages, title), maxChunkSize, totalPages);
        chunks := chunks + [PdfChunk(chunkIndex, currentStart, totalPages, title)];
        break;
      }

      var split := BestSplit(sortedToc, currentStart, maxEnd, totalPages, maxChunkSize);
      var c := PdfChunk(chunkIndex, currentStart, split, title);
      SplitEndsAtBoundary(toc, c, maxChunkSize);
      TocChunksExtend(toc, chunks, c, maxChunkSize);
      TilesExtend(chunks, currentStart, c);
      chunks := chunks + [c];
      currentStart := split;
      chunkIndex := chunkIndex + 1;
    }
  }

  // ---------------------------------------------------------------------------
  // _chunk_by_size

  /** The `i`-th chunk `_chunk_by_size` makes. */
  function SizeChunk(i: int, size: int, total: int): PdfChunk
  {
    PdfChunk(i, i * size, Min((i + 1) * size, total), None)
  }

  /** What the loop of `_chunk_by_size` keeps: the chunks so far, and where the next one starts. */
  predicate SizeLoop(chunks: seq<PdfChunk>, currentStart: int, total: int, size: int)
  {
    && currentStart == (if chunks == [] then 0 else chunks[|chunks| - 1].endPage)
    && (currentStart < total ==> currentStart == |chunks| * size)
    && (chunks != [] ==> (|chunks| - 1) * size < total && currentStart <= total)
    && (forall i :: 0 <= i < |chunks| ==> chunks[i] == SizeChunk(i, size, total))
    && (forall i :: 0 <= i < |chunks| ==> chunks[i].startPage < chunks[i].endPage)
    && (forall i :: 0 <= i < |chunks| - 1 ==> chunks[i].endPage == chunks[i + 1].startPage)
  }

  lemma SizeLoopStep(chunks: seq<PdfChunk>, currentStart: int, total: int, size: int)
    requires size >= 1 && SizeLoop(chunks, currentStart, total, size) && currentStart < total
    ensures var endPage := Min(currentStart + size, total);
            SizeLoop(chunks + [PdfChunk(|chunks|, currentStart, endPage, None)], endPage, total, size)
  {
    var n := |chunks|;
    assert (n + 1) * size == n * size + size;
    assert PdfChunk(n, currentStart, Min(currentStart + size, total), None) == SizeChunk(n, size, total);
  }

  lemma SizeLoopDone(chunks: seq<PdfChunk>, currentStart: int, total: int, size: int)
    requires size >= 1 && SizeLoop(chunks, currentStart, total, size) && currentStart >= total
    ensures total <= 0 ==> chunks == []
    ensures total > 0 ==> (|chunks| - 1) * size < total <= |chunks| * size
    ensures total > 0 ==> Partitions(chunks, total)
  {
    if total > 0 {
      var n := |chunks|;
      assert chunks != [];
      assert chunks[n - 1] == SizeChunk(n - 1, size, total);
      assert n * size == (n - 1) * size + size;
      assert chunks[0] == SizeChunk(0, size, total);
    }
  }

  /** `_chunk_by_size`: consecutive runs of `maxChunkSize` pages, the last one holding what remains. */
  method ChunkBySize(totalPages: int, maxChunkSize: int) returns (chunks: seq<PdfChunk>)
    requires maxChunkSize >= 1
    ensures totalPages <= 0 ==> chunks == []
    ensures totalPages > 0 ==> (|chunks| - 1) * maxChunkSize < totalPages <= |chunks| * maxChunkSize
    ensures forall i :: 0 <= i < |chunks| ==>
              chunks[i] == PdfChunk(i, i * maxChunkSize, Min((i + 1) * maxChunkSize, totalPages), None)
    ensures totalPages > 0 ==> Partitions(chunks, totalPages)
  {
    chunks := [];
    var chunkIndex := 0;
    var currentStart := 0;
    while currentStart < totalPages
      invariant chunkIndex == |chunks|
      invariant SizeLoop(chunks, currentStart, totalPages, maxChunkSize)
      decreases totalPages - currentStart
    {
      var endPage := Min(currentStart + maxChunkSize, totalPages);
      SizeLoopStep(chunks, currentStart, totalPages, maxChunkSize);
      chunks := chunks + [PdfChunk(chunkIndex, currentStart, endPage, None)];
      currentStart := endPage;
      chunkIndex := chunkIndex + 1;
    }
    SizeLoopDone(chunks, currentStart, totalPages, maxChunkSize);
  }

  // ---------------------------------------------------------------------------
  // analyze

  /**
   * `analyze`: a document within the service limit is one chunk; a larger one is
   * cut along its TOC when it has one and into fixed-size pieces otherwise.
   */
  method Analyze(totalPages: nat, raw: seq<RawTocItem>, cfg: ChunkerConfig) returns (r: ChunkingResult)
    requires totalPages > MAX_PAGES_PER_CHUNK ==> cfg.maxChunkSize >= 1
    ensures r.totalPages == totalPages
    ensures r.hasToc <==> exists x :: x in raw && Keeps(cfg, totalPages, x)
    ensures !NeedsChunking(r) ==> r.chunks == [PdfChunk(0, 0, totalPages, None)]
    ensures NeedsChunking(r) ==> Partitions(r.chunks, totalPages)
    ensures NeedsChunking(r) ==> forall c :: c in r.chunks ==> PageCount(c) <= cfg.maxChunkSize
    // With a TOC: every chunk but the last ends at the furthest boundary within reach, and only when the rest does not fit.
    ensures NeedsChunking(r) && r.hasToc ==>
      var toc := Kept(raw, totalPages, cfg);
      && (forall i :: 0 <= i < |r.chunks| - 1 ==>
            EndsAtBoundary(toc, r.chunks[i], cfg.maxChunkSize) && r.chunks[i].startPage + cfg.maxChunkSize < totalPages)
      && (forall i :: 0 <= i < |r.chunks| ==> r.chunks[i].title == TitleAt(SortByPage(toc), r.chunks[i].startPage))
    // Without one: fixed runs of `maxChunkSize` pages, untitled.
    ensures NeedsChunking(r) && !r.hasToc ==>
      && (|r.chunks| - 1) * cfg.maxChunkSize < totalPages <= |r.chunks| * cfg.maxChunkSize
      && forall i :: 0 <= i < |r.chunks| ==> r.chunks[i] == SizeChunk(i, cfg.maxChunkSize, totalPages)
    ensures cfg.maxChunkSize <= MAX_PAGES_PER_CHUNK ==> forall c :: c in r.chunks ==> PageCount(c) <= MAX_PAGES_PER_CHUNK
  {
    var toc := ExtractToc(raw, totalPages, cfg);
    var hasToc := |toc| > 0;

    if totalPages <= MAX_PAGES_PER_CHUNK {
      return ChunkingResult(totalPages, [PdfChunk(0, 0, totalPages, None)], hasToc);
    }

    var chunks;
    if hasToc {
      chunks := ChunkByToc(toc, totalPages, cfg.maxChunkSize);
    } else {
      chunks := ChunkBySize(totalPages, cfg.maxChunkSize);
    }
    r := ChunkingResult(totalPages, chunks, hasToc);
  }
}
