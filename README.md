# Colour / black-and-white PDF splitter: page partition model

This project models the core of `PDFColorSplitter`, a tool that splits a PDF
into a colour document and a black-and-white document so the two can be
printed on different printers. The model covers two methods of `main.py`:

- `split_pdf` decides, page by page, which original page indices go to the
  colour output and which to the black-and-white output. In double-sided
  (duplex) mode, a colour page pulls in the other side of its physical sheet.
  Pages `0-1`, `2-3`, … share a sheet. The method reports "no colour pages"
  as its own outcome, and it inserts each output's pages in ascending order.
- `display_page_distribution` prints a two-column table. Each row shows
  where one page went. In duplex mode, a dashed rule separates the sheets.

The colour decision for each page is an input, `isColor: seq<bool>`, with
one entry per page. The documents themselves are not modelled. An output
document is the sequence of source page indices handed to `insert_pdf`, in
order. The printed report is the sequence of strings passed to `print`, one
per call.

Files:

- `wrappers.dfy` defines `Option`, which stands for Python's `None`.
- `page_sets.dfy` (module `PageSets`) models `sorted(set(xs))` on page
  indices as `SortedSet`, and holds the ascending-list facts.
- `duplex.dfy` (module `Duplex`) defines the sheet partner, the one-sided
  bound check split_pdf applies, the expansion, and its closure and
  idempotence.
- `splitter.dfy` (module `Splitter`) holds the loops of `split_pdf` as
  methods, `SplitPdf` itself, and the partition lemmas.
- `distribution.dfy` (module `Distribution`) holds the report loop, the
  function that specifies it, and lemmas on the report's layout.
- `pipeline.dfy` (module `Pipeline`) covers how `process_pdf` hands the
  split's lists to the report.

The duplex guard is modelled as written. For an even page, the code checks
only `p+1 < len(doc)`. For an odd page, it checks only `p-1 >= 0`. The model
does not replace this with a two-sided range test. `Duplex.AdmittedIffPage`
proves that, for a page of the document, the one-sided check means "the
partner is a page of the document".

## Model

| member | source | states |
|---|---|---|
| PageSets.SortedSet | main.py:312 | `sorted(set(...))` gives a strictly ascending list of exactly the set's elements, each once (length = cardinality) |
| PageSets.SortedOfAscending | main.py:327-331 | `sorted` of a list that is already strictly ascending is that same list |
| Duplex.PartnerInvolution | main.py:298-307 | the partner of a page's partner is the page itself, and no page is its own partner |
| Duplex.AdmittedIffPage | main.py:299-307 | for a page in `[0, n)`, the one-sided bound check (`p+1 < n` for even `p`, `p-1 >= 0` for odd `p`) holds iff the partner is in `[0, n)` |
| Duplex.ExpansionMember | main.py:296-312 | a page is in the expanded list iff it was listed, or its partner was listed and passed the bound check |
| Duplex.PartnerSetAdd | main.py:297-307 | visiting one more listed page adds exactly its partner when the bound check admits it, and nothing otherwise |
| Duplex.ExpansionKeepsDetected | main.py:310-312 | every page detected before expansion is still a colour page after it |
| Duplex.ExpansionEmptyIff | main.py:294-312 | expansion yields an empty list iff it is given an empty list |
| Duplex.ExpansionWithinDocument | main.py:299-307 | if all listed pages lie in `[0, n)`, all expanded pages do; out-of-range partners are dropped |
| Duplex.ExpansionClosedAdmitted | main.py:294-312 | the result is closed under the source's own guard: every page in it whose partner passes the bound check has that partner in it |
| Duplex.ExpansionClosed | main.py:294-312 | every page in the result whose partner lies in `[0, n)` has that partner in the result |
| Duplex.ExpansionIdempotent | main.py:294-312 | a second expansion pass over the result changes nothing |
| Splitter.CollectColorPages | main.py:281-291 | the first loop yields a strictly ascending list holding exactly the pages `p < n` that test as colour |
| Splitter.ExpandDuplexPairs | main.py:294-312 | the duplex pass yields a strictly ascending list holding the listed pages plus each admitted partner not listed yet, and nothing else; it equals `sorted` of the expansion set |
| Splitter.CollectBwPages | main.py:314-317 | the black-and-white loop yields a strictly ascending list holding exactly the pages in `[0, n)` not in the colour list |
| Splitter.InsertInOrder | main.py:327-331 | the pages handed to `insert_pdf` are strictly ascending, are exactly the elements of the list, and equal the list when it is already ascending |
| Splitter.SplitPdf | main.py:272-342 | `has_color` is true iff some page tests as colour. Otherwise the result is `(False, None, None, None, None)` and nothing is assembled. With colour, the result carries the two paths and the final colour and black-and-white lists, and each output document receives exactly its list in ascending order |
| Splitter.ColorSetEmptyIff | main.py:319-323 | the final colour list is empty, so `split_pdf` reports an all-monochrome document, exactly when no page tests as colour, with or without duplex |
| Splitter.ColorSetWithinDocument | main.py:286-312 | every final colour page is a page of the document |
| Splitter.SplitPartition | main.py:314-317 | both lists are ascending and within `[0, n)`, they are disjoint, every page is in exactly one, and their lengths sum to `n` |
| Splitter.ColorPagesMeaning | main.py:286-312 | page `p` is a colour page iff it tests as colour, or duplex is on and its in-range partner tests as colour |
| Splitter.DuplexSheetsStayTogether | main.py:294-312 | in duplex mode the in-range partner of every colour page is a colour page |
| Splitter.ExpandDuplexPairsIdempotent | main.py:294-312 | running the duplex pass on its own output gives the same list |
| Splitter.ScenarioOddPagePullsPartner | main.py:294-317 | four pages, only page 1 colour, duplex: colour `[0, 1]`, black-and-white `[2, 3]` |
| Splitter.ScenarioLastEvenPageUnpaired | main.py:299-302 | one colour page, duplex: partner 1 is out of range, colour `[0]`, black-and-white `[]` |
| Distribution.DecimalString | main.py:262-264 | Python's `str(k)` for the page number: the decimal digits of `k`, most significant first, at least one digit, and no leading zero when `k > 0` |
| Distribution.DecimalRoundTrip | main.py:262 | the printed page number reads back as the number (`str` then `int` round trip) |
| Distribution.DisplayPageDistribution | main.py:248-270 | the printed lines are exactly the report: three header lines, then per page its row, then a rule when one is due |
| Distribution.ReportUpToLength | main.py:256-270 | before the last row, rows `0..k-1` and their rules end exactly where row `k` begins, at line `3 + k + (k/2 if duplex)` |
| Distribution.ReportLength | main.py:252-270 | the report has `3 + total` lines, plus `(total-1)/2` rules in duplex mode when `total > 0` |
| Distribution.ReportHeader | main.py:252-254 | the first three lines are the title, the column titles and the 30-dash rule |
| Distribution.ReportRowAt | main.py:256-266 | row `k` of the table is at line `3 + k + (k/2 if duplex)` and shows page `k+1` in the column(s) whose list holds `k` |
| Distribution.RowIsNotRule | main.py:257-266 | a row is non-empty, its last character is a tab, and it is never equal to the rule line |
| Distribution.ReportSeparatorAt | main.py:268-270 | a rule follows row `k` iff duplex is on, `k` is odd and `k < total-1`; so there is never a rule after the last row |
| Distribution.RowShowsPageOnce | main.py:257-266 | when page `k` is in exactly one list, its row shows `k+1` in that list's column and two tabs in the other |
| Pipeline.ReportTotalIsPageCount | main.py:187 | the total `len(color_pages) + len(bw_pages)` given to the report equals the page count |
| Pipeline.ReportOfSplit | main.py:187-188 | over a split's result, row `k` shows `k+1` in the colour column iff page `k` (or, in duplex mode, its in-range partner) tests as colour, and in the black-and-white column otherwise |

## Left out

- `is_color_image` (main.py:214-230) is left out. It is floating-point numpy arithmetic: saturation `(max-min)/(max+1e-7)` with thresholds 0.35 and 0.001. Its verdict per page is the input `isColor`.
- `is_color_page` (main.py:232-246) is left out. It renders the page with pymupdf and round-trips the image through PNG and PIL. Both are foreign library calls.
- The pymupdf calls `fitz.open`, `load_page`, `insert_pdf`, `save` and `close` are left out. They are document I/O. Only the page indices given to `insert_pdf` are modelled, as `Splitter.Assembled`. A failing open or render raises an exception in the source; that exception path is not modelled.
- The output file names (main.py:167-172) are left out. They come from path-library calls. `SplitPdf` takes the two output paths as parameters and returns them unchanged.
- The `tqdm` progress bar and the progress `print` calls in `split_pdf` are left out. They only report progress.
- Console output in `display_page_distribution` is modelled as the list of printed strings. Each string is one `print` call's argument. The newline `print` adds is not part of it.
- `RedirectText`, the stdout redirection, the background thread in `process_pdf`, and all tkinter UI code are left out. They are GUI plumbing and concurrency.
- Splitter.SplitPdf: a failing `save` is not modelled. When every page ends up colour, the black-and-white list is empty; pymupdf then refuses to save the zero-page document at main.py:335, after the colour file is already written at main.py:334, and `process_pdf` reports the exception (main.py:200-203). The model reports success with `Some([])` for that case.
- Splitter.InsertInOrder: the model takes `sorted(pages)` as `sorted(set(pages))`, so a page listed twice is inserted once. Every list it receives in `SplitPdf` is strictly ascending, so has no duplicates, and for those it is proved to return the list itself.
