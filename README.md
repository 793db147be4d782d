# Mistral OCR for Zotero: a Dafny model of its deterministic core

Mistral OCR for Zotero converts the PDFs attached to Zotero items into
markdown, using the Mistral OCR service. It has three stages:

- A PDF larger than the service limit is cut into page-range chunks, each
  labelled with its chapter title.
- Each chunk is sent to the service inside a retry loop. The response is
  parsed into markdown plus image and table maps.
- The per-chunk results are stitched back together. The result is stored
  next to the item as a markdown file with a Zotero attachment, or as an
  HTML note when the web API is used.

A batch driver and a small job server run this over many items.

This project models the logic around those remote calls and proves what
that logic promises. It has one module per source file, and each module
takes the form of its source:

- `Chunker` (`pdf_chunker.py`). The outline filter, the outline-aligned and
  fixed-size partitioning loops and the section-title lookup, as methods
  with loop invariants. Each is proved against specification functions.
  `analyze` takes the page count and the raw outline as inputs.
- `Merger` (`chunk_merger.py`). `merge` is a loop over the chunk results,
  proved equal to the function `Merged`. `_process_markdown` is the
  composition of four substitutions.
- `Pieces`. Markdown as the substitutions see it: a sequence of pieces, each
  plain text, a page marker, an image link, an image tag or a table
  reference. A substitution over rendered pieces is proved to act piece by
  piece, so the rewrites are stated for any number of references.
- `Patterns`. The four regular expressions of the merger, and the image-link
  rewrite of the storage, written as explicit scanners over strings. It
  also holds the facts about where a substitution matches and where it
  copies.
- `OcrClient` (`ocr_client.py`). The retry loop, over an abstract outcome
  for each attempt, with the sleeps recorded as a list of waits. Also the
  response parser, as a loop proved against `Parsed`, and the image-header
  repair.
- `Storage` (`zotero_storage.py`). Attachment detection over a listing of
  child records, and the file and title naming. Also the text rewrites of
  `store_ocr_result`, note truncation, and `_markdown_to_html`, a line loop
  with a code-block flag.
- `Integration` (`zotero_integration.py`):
  - PDF selection;
  - the decision chain of `process_item`, over a record of what each
    remote call gives;
  - filename derivation;
  - the counters of `batch_process`.
- `Server` (`server.py`). `JobProgress` is a class `Job` whose fields the
  worker loop updates in place. The module-level `jobs` dictionary is a
  class `JobRegistry` holding a map and the insertion order of its keys.
- `Text` and `Wrappers`. The Python string operations the source relies on,
  over `seq<char>`: `str(n)`, `f"{n:0Wd}"`, `in`, `replace`, `split`,
  `join` and `startswith`. Also the `Option` and `Result` types.

Remote services, the file system and the clock become parameters. Each of
the Mistral upload, the OCR call, the Zotero listings, the download and the
store is given as its outcome: a value, or the message of the exception it
raised.

## Model

| member | source | states |
|---|---|---|
| Chunker.PartitionPageTotal | src/mistral_ocr_zotero/pdf_chunker.py:221-305 | the chunks of a partition of `[0, total)` have page counts adding up to `total` |
| Chunker.PageCount | src/mistral_ocr_zotero/pdf_chunker.py:46-49 | a chunk's page count is the number of page numbers in `[start_page, end_page)` |
| Chunker.NeedsChunking | src/mistral_ocr_zotero/pdf_chunker.py:62-65 | chunking is needed exactly when one chunk of all the pages would exceed the 500-page limit |
| Chunker.PartitionStartsIncrease | src/mistral_ocr_zotero/pdf_chunker.py:221-305 | in a partition, every chunk ends at or before the start of every later chunk: no overlap |
| Chunker.PageInExactlyOneChunk | src/mistral_ocr_zotero/pdf_chunker.py:221-305 | every page of the document lies in one chunk of a partition, and in no other |
| Chunker.KeptMembers | src/mistral_ocr_zotero/pdf_chunker.py:204-216 | an entry is kept if and only if some bookmark within the level range, on a page of the document, converts to it; kept entries respect both bounds |
| Chunker.ExtractToc | src/mistral_ocr_zotero/pdf_chunker.py:199-219 | the loop keeps exactly the bookmarks at the configured levels on a page of the document, in their order, with the page made 0-based; the outline is non-empty if and only if some bookmark qualifies |
| Chunker.InsertByPageSorted | src/mistral_ocr_zotero/pdf_chunker.py:236 | inserting by page into a page-sorted outline keeps it sorted |
| Chunker.SortByPageFacts | src/mistral_ocr_zotero/pdf_chunker.py:236 | `sorted(toc, key=page)` is ordered by page, is a permutation of the outline, and keeps entries on the same page in their original order |
| Chunker.SortedSameEntries | src/mistral_ocr_zotero/pdf_chunker.py:236 | the sorted outline holds exactly the entries of the original |
| Chunker.TitleAtSorted | src/mistral_ocr_zotero/pdf_chunker.py:307-319 | on a sorted outline the title is none if and only if every entry lies after the page; otherwise it is the title of the last entry at or before the page |
| Chunker.SectionTitle | src/mistral_ocr_zotero/pdf_chunker.py:307-319 | the loop with its `break` returns the title of the last entry, in sorted order, at or before the page |
| Chunker.LastInWindow | src/mistral_ocr_zotero/pdf_chunker.py:254-259 | there is no split page if and only if no outline page lies in `(start, start+size]`; otherwise it is the page of the last entry in that window |
| Chunker.LastInWindowIsFurthest | src/mistral_ocr_zotero/pdf_chunker.py:254-259 | on a sorted outline the split chosen is the largest outline page in the window |
| Chunker.BestSplit | src/mistral_ocr_zotero/pdf_chunker.py:254-267 | the split loop, for a chunk that cannot reach the last page, ends a chunk strictly after its start and at most a full chunk later, at the split `TocSplit` names; its body shows the "remaining tail fits" branch unreachable |
| Chunker.SplitEndsAtBoundary | src/mistral_ocr_zotero/pdf_chunker.py:254-270 | a chunk cut by the split search ends at the furthest outline page of the original outline within reach, or a full chunk after its start when there is none |
| Chunker.ChunkByToc | src/mistral_ocr_zotero/pdf_chunker.py:221-284 | for a positive page count, the chunks partition `[0, total)` with indices equal to positions; each holds at most `max_chunk_size` pages; every chunk but the last ends at an outline boundary as above, and is cut only because the rest of the document did not fit; the last one starts within reach of the end; each title is that of the last sorted entry at or before its start |
| Chunker.ChunkBySize | src/mistral_ocr_zotero/pdf_chunker.py:286-305 | the document becomes `ceil(total/size)` chunks, where chunk `i` is `[i*size, min((i+1)*size, total))` with no title, together a partition; no chunk for an empty document |
| Chunker.Analyze | src/mistral_ocr_zotero/pdf_chunker.py:94-150 | a document of at most 500 pages is one untitled chunk of all its pages, whatever its outline; a larger one is partitioned into chunks of at most `max_chunk_size` pages: with an outline, cut at its boundaries only when the rest does not fit and titled from it; without one, the fixed-size chunks of `_chunk_by_size`; `has_toc` holds if and only if some bookmark qualifies |
| Text.NatToStringRoundTrip | src/mistral_ocr_zotero/chunk_merger.py:150-153 | `int(str(n)) == n`: reading a printed page number gives it back |
| Text.ZeroPadInjective | src/mistral_ocr_zotero/chunk_merger.py:81 | distinct chunk indices never print alike under `:02d`, however wide they are |
| Text.JoinSplit | src/mistral_ocr_zotero/zotero_storage.py:335-373 | splitting on a character and joining with it gives the text back |
| Text.SplitJoin | src/mistral_ocr_zotero/zotero_storage.py:335-373 | joining pieces free of a character and splitting on it gives the pieces back |
| Text.ReplaceOnce | src/mistral_ocr_zotero/zotero_storage.py:191-198 | `str.replace` substitutes the one occurrence of a string and keeps the text around it |
| Patterns.MatchMarker | src/mistral_ocr_zotero/chunk_merger.py:151-160 | the page-marker scanner matches `<!-- Page n -->` at the start of a text and gives the marker of page `n + offset` |
| Patterns.MatchMarkdownImage | src/mistral_ocr_zotero/chunk_merger.py:164-168 | the scanner matches `](img-N.ext)` and `](images/img-N.ext)`, putting the prefix before the name and after any `images/` |
| Patterns.MatchHtmlImage | src/mistral_ocr_zotero/chunk_merger.py:171-175 | the scanner matches `src="img-N.ext"` with or without `images/`, prefixing the name the same way |
| Patterns.MatchTableRef | src/mistral_ocr_zotero/chunk_merger.py:178-182 | the scanner matches `[tbl-N]` and gives `[` + prefix + `tbl-N]` |
| Patterns.DirChoiceForced | src/mistral_ocr_zotero/chunk_merger.py:164-175 | when `images/` is written before the name, no match without it exists, so the optional group is determined |
| Patterns.NoMatchPrefixedImage | src/mistral_ocr_zotero/chunk_merger.py:164-175 | a name already carrying a chunk prefix is no image name, with or without `images/`, so it is not matched again |
| Patterns.MatchImagesLink | src/mistral_ocr_zotero/zotero_storage.py:188 | the storage rewrite matches a bare link `](img-N.ext)` and moves it under `images/` |
| Patterns.NoMatchImagesLink | src/mistral_ocr_zotero/zotero_storage.py:188 | a link whose target does not start with `img-` is not matched by the storage rewrite |
| Patterns.SubAbsent | src/mistral_ocr_zotero/chunk_merger.py:148-184 | a substitution leaves a text lacking its pattern's first literal character unchanged |
| Patterns.SubOneMatch | src/mistral_ocr_zotero/chunk_merger.py:148-184 | a substitution over a text with a single match replaces that match and copies the text on both sides; the text before it need only start no match, and the text after it need only lack the pattern's literal |
| Merger.ProcessMarkdown | src/mistral_ocr_zotero/chunk_merger.py:131-184 | text containing none of the characters the four patterns need is left unchanged |
| Pieces.SubRender | src/mistral_ocr_zotero/chunk_merger.py:148-184 | each substitution over markdown made of well-formed pieces acts on every piece on its own, in order: a match never straddles two pieces |
| Pieces.PassAllWellFormed | src/mistral_ocr_zotero/chunk_merger.py:148-184 | a substitution keeps markdown well formed, so the next substitution may be applied piece by piece as well |
| Pieces.PlainAround | src/mistral_ocr_zotero/chunk_merger.py:164-182 | a single marker or reference between two texts without `<`, `[`, `]` and `"` is well formed, parentheses allowed, unless a table reference is followed by `(` |
| Pieces.FigureAfterProse | src/mistral_ocr_zotero/chunk_merger.py:164-168 | prose such as `results (see Fig. 1)` followed by an image link is well formed |
| Pieces.NewlineJoin | src/mistral_ocr_zotero/ocr_client.py:209 | two well-formed texts joined by a line break are well formed, as the pages and separators of a parsed result are |
| Merger.PassesRenumberAll | src/mistral_ocr_zotero/chunk_merger.py:148-184 | the four substitutions in their order, piece by piece, are `Renumber` on every piece |
| Merger.ProcessMarkdownPieces | src/mistral_ocr_zotero/chunk_merger.py:148-184 | on well-formed markdown, every page marker is shifted by the page offset and every unprefixed image link, image tag and table reference gets the chunk prefix, however many there are, side by side or among prose that opens none of the patterns (see Left out); all other text is unchanged |
| Merger.ProcessMarkdownOnce | src/mistral_ocr_zotero/chunk_merger.py:148-184 | processing processed markdown again with no further offset changes nothing, whatever the second prefix: no reference is prefixed twice |
| Merger.ParsedRenumbered | src/mistral_ocr_zotero/chunk_merger.py:148-184 | a parsed OCR result of any number of pages has every page separator renumbered by the offset and every page's text processed as above |
| Merger.MarkerRenumbered | src/mistral_ocr_zotero/chunk_merger.py:151-160 | a page marker `<!-- Page n -->` becomes `<!-- Page n+offset -->`, with the text around it unchanged |
| Merger.SeparatorRenumbered | src/mistral_ocr_zotero/chunk_merger.py:151-160 | the parser's separator before page `i` is renumbered to the separator before page `i+offset` |
| Merger.MarkdownImagePrefixed | src/mistral_ocr_zotero/chunk_merger.py:164-168 | a markdown image link gets the chunk prefix before its file name and after any `images/`; the rest of the text is unchanged |
| Merger.HtmlImagePrefixed | src/mistral_ocr_zotero/chunk_merger.py:171-175 | an HTML `src` naming an image gets the chunk prefix the same way; the rest of the text is unchanged |
| Merger.TableRefPrefixed | src/mistral_ocr_zotero/chunk_merger.py:178-182 | a table reference `[tbl-N]` becomes `[chunkNN_tbl-N]`; the rest of the text is unchanged |
| Merger.MarkdownImagePrefixedOnce | src/mistral_ocr_zotero/chunk_merger.py:164-168 | processing an already prefixed image link again leaves it as it is: the prefix is put in once |
| Merger.HtmlImagePrefixedOnce | src/mistral_ocr_zotero/chunk_merger.py:171-175 | an image tag whose `src` already carries a prefix is left as it is |
| Merger.TableRefPrefixedOnce | src/mistral_ocr_zotero/chunk_merger.py:178-182 | a table reference already carrying a prefix is left as it is |
| Merger.ChunkPrefixPlain | src/mistral_ocr_zotero/chunk_merger.py:81 | the chunk prefix holds none of the pattern characters and starts with `c` |
| Merger.ChunkPrefixOk | src/mistral_ocr_zotero/chunk_merger.py:81 | the chunk prefix `chunkNN_` is a non-empty prefix of the shape the pieces allow |
| Merger.ChunkPrefixInjective | src/mistral_ocr_zotero/chunk_merger.py:81 | a prefixed key determines the chunk index and the original key |
| Merger.ChunkPlacement | src/mistral_ocr_zotero/chunk_merger.py:74-115 | the merged text is the merge header, then each chunk in list order as its header and its markdown renumbered by the pages of the chunks before it |
| Merger.PrefixedUnionKeys | src/mistral_ocr_zotero/chunk_merger.py:101-109 | a merged key exists if and only if it is some chunk's key under that chunk's prefix |
| Merger.PrefixedUnionLookup | src/mistral_ocr_zotero/chunk_merger.py:101-109 | with distinct chunk indices, every image and table of every chunk is found under its prefixed key with its original value |
| Merger.PrefixedUnionSize | src/mistral_ocr_zotero/chunk_merger.py:101-109 | with distinct chunk indices, the merged map has exactly as many entries as the chunks' maps together |
| Merger.AddPrefixed | src/mistral_ocr_zotero/chunk_merger.py:102-109 | one chunk's dictionary loop adds every entry of the chunk under its prefixed key to what was gathered before |
| Merger.MergeStep | src/mistral_ocr_zotero/chunk_merger.py:78-112 | one pass of the loop adds one chunk's text, its pages and its prefixed entries |
| Merger.Merge | src/mistral_ocr_zotero/chunk_merger.py:37-128 | a single result is returned as it is, with its source file replaced only by a non-empty argument; any other number of results gives `Merged`: the layout above, the prefixed maps, and the sum of the pages |
| OcrClient.Find | src/mistral_ocr_zotero/ocr_client.py:192-193 | `bytes.find` returns -1 if and only if the pattern occurs nowhere, and otherwise its first offset |
| OcrClient.RepairHeader | src/mistral_ocr_zotero/ocr_client.py:192-198 | the repaired image is always a suffix of the decoded bytes; when cut, it starts with the JPEG or the PNG marker |
| OcrClient.RepairKeeps | src/mistral_ocr_zotero/ocr_client.py:192-198 | bytes holding neither marker, or starting with the PNG signature, are never cut |
| OcrClient.RepairCutsAtJpeg | src/mistral_ocr_zotero/ocr_client.py:195-196 | a JPEG marker at a positive offset, before any PNG signature, is where the image is cut |
| OcrClient.RepairCutsJpegAtPng | src/mistral_ocr_zotero/ocr_client.py:195-198 | bytes that start with the JPEG marker are still cut at a later PNG signature: the repair is asymmetric |
| OcrClient.StoreImagesCounter | src/mistral_ocr_zotero/ocr_client.py:182-185 | the image counter advances once per image that carries base64 data, across pages |
| OcrClient.StoreTablesKeys | src/mistral_ocr_zotero/ocr_client.py:201-204 | the table map's keys are exactly the table ids of the response |
| OcrClient.StoreTablesLastWins | src/mistral_ocr_zotero/ocr_client.py:201-204 | a later table with an id overwrites an earlier one with the same id |
| OcrClient.DefaultImageNamesDistinct | src/mistral_ocr_zotero/ocr_client.py:186 | the default names of images without an id are distinct for distinct page and counter values |
| OcrClient.StorePageImages | src/mistral_ocr_zotero/ocr_client.py:182-199 | the image loop for one page stores each image under its id or default name, repaired, and advances the counter |
| OcrClient.StoreOneImage | src/mistral_ocr_zotero/ocr_client.py:183-199 | one turn of the image loop: an image without data changes nothing; one with data advances the counter and is stored, header repaired, under its id or the default name built from the new counter |
| OcrClient.StorePageTables | src/mistral_ocr_zotero/ocr_client.py:201-204 | the table loop for one page stores each table's content under its id |
| OcrClient.ParseResponse | src/mistral_ocr_zotero/ocr_client.py:165-214 | the parser gives `Parsed`: the pages' texts joined by line breaks, with a page separator before every page of positive index; the images and tables of all pages; and the page count of the usage report |
| OcrClient.ProcessPdfFromPath | src/mistral_ocr_zotero/ocr_client.py:89-134 | a missing file, named by its path, or a failed upload makes no attempt; otherwise 1 to 5 attempts are made, and every attempt but the last failed transiently before the last one; the result is the last attempt's response parsed with the path's last component as source file, or its error; the waits are 10, 20, 30, ... seconds, one fewer than the attempts |
| Storage.FindFirst | src/mistral_ocr_zotero/zotero_storage.py:109-116 | the search finds nothing if and only if no child is accepted; otherwise it finds the first child accepted |
| Storage.GetOcrAttachment | src/mistral_ocr_zotero/zotero_storage.py:97-119 | the loop returns the first attachment whose title holds `[Mistral-OCR]`, and none when there is none or the listing raised |
| Storage.HasOcrAttachment | src/mistral_ocr_zotero/zotero_storage.py:121-143 | both `has_*` tests hold if and only if the listing succeeded and some child is an OCR attachment |
| Storage.LastIndex | src/mistral_ocr_zotero/zotero_storage.py:171 | `rfind` finds nothing if and only if the character is absent; otherwise it finds its last occurrence |
| Text.PathName | src/mistral_ocr_zotero/zotero_storage.py:171 | the last path component holds no `/` |
| Storage.Stem | src/mistral_ocr_zotero/zotero_storage.py:171 | `Path.stem` is a prefix of the name |
| Storage.BaseName | src/mistral_ocr_zotero/zotero_storage.py:171 | with a non-empty PDF name the base name is a prefix of its last path component and holds no `/`; without one it is the item key |
| Storage.StemDropsExtension | src/mistral_ocr_zotero/zotero_storage.py:171 | `Path.stem` drops exactly the last extension of a file name |
| Storage.PathNameOfFile | src/mistral_ocr_zotero/zotero_storage.py:171 | the last component of a path with a directory is the file's name |
| Storage.StoredNames | src/mistral_ocr_zotero/zotero_storage.py:171-172 | a PDF given as `dir/n.pdf` is stored as `n_ocr.md` under the title `[Mistral-OCR] n`; one without a file name is named after the item key |
| Storage.StoredAttachmentFound | src/mistral_ocr_zotero/zotero_storage.py:97-119 | an attachment carrying a title this storage gives is found again as a conversion |
| Storage.StoredLines | src/mistral_ocr_zotero/zotero_storage.py:175-183 | the stored file is the seven header lines, naming the source (or `Unknown`), the page count and the time, followed by the lines of the markdown unchanged |
| Storage.RewriteBareLink | src/mistral_ocr_zotero/zotero_storage.py:185-188 | a bare image link is moved under `images/` when the result has images, and left alone when it has none |
| Storage.RewriteImagePaths | src/mistral_ocr_zotero/zotero_storage.py:184-188 | text without a link end `](` is left unchanged, with or without images |
| Storage.RewritePieces | src/mistral_ocr_zotero/zotero_storage.py:185-188 | on well-formed markdown with images, every image link without a directory or prefix moves under `images/`, however many there are; without images nothing changes |
| Storage.RewriteKeepsOtherLink | src/mistral_ocr_zotero/zotero_storage.py:185-188 | a link whose target does not start with `img-` is untouched, such as one already under `images/` or one with a chunk prefix |
| Storage.RewriteOnce | src/mistral_ocr_zotero/zotero_storage.py:185-188 | rewriting a rewritten text changes nothing more |
| Storage.InlineTables | src/mistral_ocr_zotero/zotero_storage.py:190-198 | over an order naming every table once, the loop replaces `[id](id)` by the table between blank lines, table by table; on markdown of text, table links and other links, every table link of the result is inlined and everything else kept |
| Storage.InlineAllAbsent | src/mistral_ocr_zotero/zotero_storage.py:190-198 | a text without `[` is left as it is by table inlining |
| Storage.InlineEveryTable | src/mistral_ocr_zotero/zotero_storage.py:190-198 | over the dictionary's order, every link `[id](id)` to a table of the result becomes that table between blank lines, and every other part of the text, other links included, stays |
| Storage.InlineAllOne | src/mistral_ocr_zotero/zotero_storage.py:190-198 | a table link among bracket-free text is replaced by that table's block, whatever the other tables are |
| Storage.StoreOcrResult | src/mistral_ocr_zotero/zotero_storage.py:149-236 | the stored file is named `base_name_ocr.md` and titled `[Mistral-OCR] base_name`, and holds the header followed by the markdown with its image links rewritten and its tables inlined in an order naming every table once |
| Storage.TruncateNote | src/mistral_ocr_zotero/zotero_storage.py:293-299 | a note of at most 500000 characters is kept; a longer one is exactly its first 500000 characters and the notice naming the full file |
| Storage.TruncateNoteBound | src/mistral_ocr_zotero/zotero_storage.py:293-299 | a note is never longer than the limit and the notice |
| Storage.MarkdownToHtml | src/mistral_ocr_zotero/zotero_storage.py:324-373 | the line loop with its code-block flag gives `HtmlOf`: each line converted on its own, knowing only whether it is inside a code block |
| Storage.Bold | src/mistral_ocr_zotero/zotero_storage.py:365 | a text without `**` is left unchanged by the bold substitution |
| Storage.LineHtml | src/mistral_ocr_zotero/zotero_storage.py:354-371 | a line of one to four `#` and a space is a heading of that level without the prefix; any other line is `<p></p>` when blank and otherwise a paragraph of its bold-converted text |
| Storage.InCodeStep | src/mistral_ocr_zotero/zotero_storage.py:338-347 | the code-block flag flips at each fence line and only there |
| Storage.CodeBlockVerbatim | src/mistral_ocr_zotero/zotero_storage.py:338-351 | a code block opens with `<pre>`, copies each inner line verbatim and closes with `</pre>`; the line after it is outside a block |
| Storage.Headings | src/mistral_ocr_zotero/zotero_storage.py:354-361 | `# ` to `#### ` lines become `h1` to `h4` with the prefix stripped, and their `**` is not converted |
| Storage.BoldPlain | src/mistral_ocr_zotero/zotero_storage.py:365 | `**x**` becomes `<strong>x</strong>`, with the text around it copied |
| Storage.ParagraphLine | src/mistral_ocr_zotero/zotero_storage.py:363-366 | a non-heading line holding `**` is a paragraph with its bold parts converted |
| Storage.BoldLine | src/mistral_ocr_zotero/zotero_storage.py:363-366 | a line holding `**x**` and no heading is `<p>...<strong>x</strong>...</p>` |
| Storage.BlankLine | src/mistral_ocr_zotero/zotero_storage.py:367-371 | a line without `#` or `*` is `<p></p>` if it is blank, every character being whitespace as `str.strip` counts it, and `<p>line</p>` otherwise |
| Storage.HtmlLinePerLine | src/mistral_ocr_zotero/zotero_storage.py:335-373 | the HTML has exactly one line per markdown line, each the conversion of that line |
| Storage.NoteText | src/mistral_ocr_zotero/zotero_storage.py:293-307 | the note is the title heading followed by the HTML of the truncated markdown |
| Storage.NoteLines | src/mistral_ocr_zotero/zotero_storage.py:302-307 | the note's first line is the title heading, followed by one HTML line per markdown line |
| Storage.StoredNoteNotFound | src/mistral_ocr_zotero/zotero_storage.py:97-119 | as written, an item holding its PDF and the note stored for it through the web API has no conversion found |
| Storage.StoredNoteFound | src/mistral_ocr_zotero/zotero_storage.py:285-322 | with the corrected test, the stored note is found again, and so is a linked attachment |
| Integration.GetPdfAttachment | src/mistral_ocr_zotero/zotero_integration.py:116-137 | the loop returns the first attachment whose content type is `application/pdf`, and none when there is none or the listing raised |
| Integration.PdfFoundAfterOthers | src/mistral_ocr_zotero/zotero_integration.py:128-132 | the PDF chosen is the first one listed, whatever follows it |
| Integration.StripForbidden | src/mistral_ocr_zotero/zotero_integration.py:193 | the cleaned title is no longer than the title and holds none of `<>:"/\|?*` |
| Integration.StripKeepsAllowed | src/mistral_ocr_zotero/zotero_integration.py:193 | a character survives cleaning if and only if it is in the title and allowed |
| Integration.StripClean | src/mistral_ocr_zotero/zotero_integration.py:193 | a title without forbidden characters is kept whole |
| Integration.StripConcat | src/mistral_ocr_zotero/zotero_integration.py:193 | cleaning a concatenation cleans its parts |
| Integration.DeriveFilename | src/mistral_ocr_zotero/zotero_integration.py:170-200 | the derived name is never empty; an attachment's usable file name or title is kept; otherwise the name is one ending in `.pdf` |
| Integration.ParentNameCases | src/mistral_ocr_zotero/zotero_integration.py:179-200 | the fallback is the citation key plus `.pdf`; else the cleaned title, at most 80 characters, plus `.pdf`; else, and whenever the parent lookup raised, `document.pdf` |
| Integration.ProcessItemAsWritten | src/mistral_ocr_zotero/zotero_integration.py:139-236 | with the conversion test as written, a download is attempted exactly when forced or no attachment conversion exists and a PDF exists, under the derived name; storing follows a saved download and a successful OCR |
| Integration.Convert | src/mistral_ocr_zotero/zotero_integration.py:161-236 | once conversion is decided: a result exactly when the PDF exists, is saved, OCR runs and storing (when asked) succeeds; an error exactly when storing raises; stored under the downloaded name |
| Integration.StoredUnderCleanTitle | src/mistral_ocr_zotero/zotero_integration.py:191-195 | a name taken from the cleaned title stores the result as that title plus `_ocr.md` |
| Integration.ProcessItem | src/mistral_ocr_zotero/zotero_integration.py:139-236 | a result is returned if and only if the item is not skipped, a PDF exists, the download is saved, OCR is configured and succeeds, and storing (when asked) does not raise; the result is the OCR result; the run raises if and only if storing raises; a download is attempted if and only if the item is not skipped and has a PDF, under the derived name; storing is attempted if and only if asked and OCR succeeded; the stored name is the downloaded one |
| Integration.SkipsConverted | src/mistral_ocr_zotero/zotero_integration.py:157-159 | with the corrected conversion test, without `force`, an item holding a conversion is skipped with nothing downloaded or stored |
| Integration.SkipsStoredNote | src/mistral_ocr_zotero/zotero_integration.py:157-159 | with the corrected conversion test, without `force`, an item whose conversion was stored as a web-API note is skipped |
| Integration.StoredNamesFollowDownload | src/mistral_ocr_zotero/zotero_integration.py:233-236 | a stored run always passes a non-empty PDF name, so the stored names come from it and not from the item key |
| Integration.StoredNoteReconverted | src/mistral_ocr_zotero/zotero_integration.py:157-159 | as written, an item holding its PDF and a note stored by an earlier web-API run is downloaded and stored again without `force`, while the corrected run skips it |
| Integration.Prefix | src/mistral_ocr_zotero/zotero_integration.py:352 | `s[:limit]` keeps the first `limit` items, or for a negative limit drops that many from the end |
| Integration.NonAttachmentKeysExact | src/mistral_ocr_zotero/zotero_integration.py:355-367 | a key is listed if and only if some listed item with that key is not an attachment |
| Integration.ItemsToProcess | src/mistral_ocr_zotero/zotero_integration.py:351-367 | explicit keys give their first `limit`; otherwise the collection's or the recent items' listing is used, and the batch fails if and only if that listing raised |
| Integration.ExplicitKeysFirst | src/mistral_ocr_zotero/zotero_integration.py:351-352 | with explicit keys and a non-negative limit, exactly the first `limit` keys are processed, in order |
| Integration.Tally | src/mistral_ocr_zotero/zotero_integration.py:371-381 | processed, skipped and failed add up to the items attempted, and there is one error per failure |
| Integration.ErrorsNamed | src/mistral_ocr_zotero/zotero_integration.py:378-380 | each error names an item of the batch and the message that item raised |
| Integration.TallySplit | src/mistral_ocr_zotero/zotero_integration.py:371-381 | one item raising does not stop the batch: the later items are counted as they would be on their own |
| Integration.BatchProcess | src/mistral_ocr_zotero/zotero_integration.py:324-388 | the loop fails if and only if the item listing raised, and otherwise returns the tally of every item's outcome, in order, each item processed with the corrected conversion test (see Left out) |
| Server.StatusValue | src/mistral_ocr_zotero/server.py:51-56 | each status has one of the four string values |
| Server.StatusValueInjective | src/mistral_ocr_zotero/server.py:51-56 | distinct statuses have distinct values |
| Server.Records | src/mistral_ocr_zotero/server.py:141-168 | each item adds exactly one entry to the results or to the errors |
| Server.RecordsAgreeWithTally | src/mistral_ocr_zotero/server.py:141-168 | the job records the errors `batch_process` would, and one result per item it would count as processed or skipped |
| Server.ResultsNameItems | src/mistral_ocr_zotero/server.py:144-161 | every result names an item of the job that did not raise |
| Server.FinalStatus | src/mistral_ocr_zotero/server.py:174 | a finished loop leaves the job completed if and only if it has no error, and failed otherwise |
| Server.Job.constructor | src/mistral_ocr_zotero/server.py:59-70 | a new job is pending, with nothing done, no current item, no completion time and the start time given |
| Server.Job.RunItem | src/mistral_ocr_zotero/server.py:141-168 | one turn makes the item current, records its outcome, and counts items so far as completed |
| Server.Job.RunItems | src/mistral_ocr_zotero/server.py:141-172 | the loop appends the records of every item in order; `completed` ends at the number of items and the current item is the last one; 500 ms pauses are made only between items |
| Server.JobRegistry.constructor | src/mistral_ocr_zotero/server.py:74 | the registry starts empty |
| Server.JobRegistry.StartOcr | src/mistral_ocr_zotero/server.py:192-222 | an empty key list is refused with a 400 and nothing filed; otherwise a fresh pending job for all the keys is filed under the id, and the id joins the order only when new |
| Server.JobRegistry.GetStatus | src/mistral_ocr_zotero/server.py:225-248 | an id not filed gives a 404 naming it; a filed one gives the job's id, status value, total, completed count, current item, results and errors |
| Server.JobRegistry.CancelJob | src/mistral_ocr_zotero/server.py:251-257 | a filed job is removed, with nothing else changed, after which `get_status` gives a 404; an id not filed is a 404 and changes nothing |
| Server.JobRegistry.ListJobs | src/mistral_ocr_zotero/server.py:260-272 | one entry per filed job, in filing order, each with its id, status value, total, completed count and start time |
| Server.JobRegistry.ProcessItemsBackground | src/mistral_ocr_zotero/server.py:129-183 | an id not filed changes nothing; a failure to set up fails the job with a general error; otherwise every item adds its record, with the corrected conversion test (see Left out), the job ends completed exactly when it has no error, with no current item, and with `n-1` pauses of 500 ms; the job ends completed or failed, and the registry stays well formed |
| Server.Pauses | src/mistral_ocr_zotero/server.py:171-172 | `n` items give `n-1` pauses, each of 500 ms |
| Server.WithoutKeeps | src/mistral_ocr_zotero/server.py:255 | removing a job keeps the remaining ids distinct, so the registry stays well formed |

## Left out

- Remote calls and I/O are parameters or outcomes, not code. This covers PyMuPDF (`fitz`), the Mistral SDK (upload, signed URLs, `ocr.process`), the Zotero API reads and writes, file and JSON writes, `tempfile`, `base64.b64decode` (the decoded bytes are an input) and `datetime.now()` (a parameter).
- `time.sleep` and `asyncio.sleep` are recorded as lists of waits rather than performed.
- Concurrency: FastAPI background tasks run sequentially in the model. A `Job` is not shared with a running worker while the registry changes. `uuid4` job ids are a parameter.
- `PDFChunker.extract_chunks` (`pdf_chunker.py:152-197`) writes PDF files and is only I/O.
- `process_pdf_from_url` and `save_result` in `ocr_client.py` are upload and file plumbing around the same parser.
- `_create_linked_attachment` and `_create_note_attachment` are modelled only for the text they build. The Zotero calls and their error dictionaries are left out.
- `get_ocr_content` and `_html_to_text` (`zotero_storage.py:375-426`) are a directory glob plus a regex cascade that only approximates HTML.
- `__post_init__` environment configuration in the storage, integration and client classes. Whether OCR is configured is an input of `ProcessItem`.
- `get_fulltext_with_ocr` and `_fallback_extraction` (`zotero_integration.py:238-322`) only orchestrate markitdown and Zotero calls.
- The server's health check, `main`, routing, CORS and logging are framework code.
- `converter.py` and `__init__.py` are not part of this model.
- Chunker.ChunkByToc: requires `max_chunk_size >= 1`. The source loops forever for a non-positive size. Chunker.BestSplit and Chunker.ChunkBySize carry the same requirement, and Chunker.Analyze for documents over 500 pages.
- Storage.InlineTables: the dictionary's iteration order is an explicit `order` parameter, required to name every table exactly once. Storage.StoredMarkdown and Storage.StoreOcrResult take it the same way.
- Storage.InlineEveryTable: states its effect on markdown read as text without `[`, links `[id](id)` to a table, and other links `[caption](target)` with bracket-free parts and a caption differing from its target; table ids hold no brackets and table contents no `[`. Nested or unbalanced brackets fall outside.
- MarkerRenumbered: a single marker among text free of the pattern characters. Any number of markers is Merger.ProcessMarkdownPieces and Merger.ParsedRenumbered.
- TableRefPrefixed: a single reference among plain text; the general case is Merger.ProcessMarkdownPieces.
- MarkdownImagePrefixed: a single link among plain text, with an alt text that is plain and does not start with `tbl-`; the general case is Merger.ProcessMarkdownPieces. The same holds for HtmlImagePrefixed, MarkdownImagePrefixedOnce, HtmlImagePrefixedOnce and TableRefPrefixedOnce.
- ProcessMarkdownPieces: holds for markdown read as well-formed pieces. Plain text must not hold the start of a pattern, `<!-- Page `, `](`, `src="` or `[tbl-`, not even one running on into the next piece. So prose with parentheses, quotes, `[1]` or `<br>` is covered, but a markdown link `[text](url)` written in prose is not, although the source leaves most such links alone. A table reference must not be directly followed by `(`. The alt text of an image link and the attributes of an image tag hold none of `<`, `]`, `(`, `"` and `[`, and the alt text does not start with `tbl-`, since `[tbl-N]` inside it would be a table reference. Merger.ProcessMarkdownOnce, Merger.ParsedRenumbered, Storage.RewritePieces and Storage.RewriteOnce carry the same conditions.
- RewriteBareLink: a single link among plain text; the general case is Storage.RewritePieces. The same holds for RewriteKeepsOtherLink.
- `\d` and `[a-z]` are read as ASCII digits and letters. Python's `\d` also accepts other Unicode digits.
- `Path.stem` follows Python 3.12: `.pdf` alone has no suffix.
- Integration.ProcessItem: one children listing serves both the conversion test and the PDF search. The source lists the children twice.
- Integration.BatchProcess and Server.JobRegistry.ProcessItemsBackground: the world each item meets is fixed up front, as a function of its position.
- Integration.ProcessItem: uses the corrected conversion test described under Findings, not the attachment-only one. Storage.GetOcrAttachment and Storage.HasOcrAttachment model the source's test as written.
- Integration.BatchProcess: tallies the corrected Integration.ProcessItem. An item whose conversion is a web-API note, with `force` off, is counted as skipped. The source's `batch_process` downloads, stores and counts it as processed again (Integration.StoredNoteReconverted). Server.JobRegistry.ProcessItemsBackground, and Server.RecordsAgreeWithTally with it, record such an item as skipped in the same way, where the source's worker records it as processed.

## Findings

| source | as written | input that shows it | evidently intended | confidence | as-written member | corrected member |
|---|---|---|---|---|---|---|
| src/mistral_ocr_zotero/zotero_storage.py:97-119 | a conversion is recognised only as a child of type `attachment` whose title holds `[Mistral-OCR]`, but the web API mode stores it as a note (`zotero_storage.py:303-308`), which has no title | an item whose children are its PDF and the note `<h1>[Mistral-OCR] paper</h1>...` stored by an earlier run: no conversion is found, so every later run without `force` converts the PDF again | a stored note counts as a conversion; `get_ocr_content` (`zotero_storage.py:392-398`) expects this lookup to return notes | not executed | Storage.StoredNoteNotFound | Storage.StoredNoteFound |
| src/mistral_ocr_zotero/zotero_integration.py:157-159 | `process_item` skips an item only when `has_ocr_conversion` sees an attachment, so a conversion stored as a web-API note is not seen | the same item, processed again without `force` and with storing: the PDF is downloaded, converted and stored a second time | an item whose conversion is a stored note is skipped | not executed | Integration.StoredNoteReconverted | Integration.SkipsStoredNote |
