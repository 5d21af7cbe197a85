# Duplex PDF colour splitter — a verified model of its decision logic

`split_pdf_by_color.py` splits a PDF into three documents for cheap two-sided
printing: the first `n` pages (cover and front matter), the colour pages of the body
together with the other side of each of their sheets, and the remaining
black-and-white pages. This project models the three pieces of that script that make
decisions, with the PDF library replaced by plain data:

- **Colour classifier** (`classifier.dfy`, module `Classifier`). A rendered page is a
  `Raster.Pixmap`: width, height, channel count and a byte buffer of length
  `width * height * channels`. `DetectPageColor` walks the byte offsets
  `0, stepBytes, 2 * stepBytes, ...` with `stepBytes = max(1, (w * h) / sampleCount) * n`.
  It stops at the first sample whose `r`, `g` and `b` bytes are not all equal, and it
  never reports colour when there are fewer than three channels. `DetectColorPages`
  runs that test on every page of `[start, total)`. A document is the sequence of its
  rendered pages.
- **Partner resolver** (`partners.dfy`, module `Partners`). Body pages are printed two
  to a sheet, counting from the cover count `n`. `Partner` gives the other side of a
  page's sheet. `ExtendWithPartners` adds each colour page's partner to the colour set
  when the partner lies in `[n, total)`.
- **Partitioner** (`partitioner.dfy`, module `Partitioner`). `Partition` produces the
  three outputs as lists of source page indices. The cover gets `[0, min(n, total))`.
  Each page of `[n, total)` goes, in order, to the colour list when it is in the
  extended set and to the BW list otherwise.
- `splitter.dfy` (module `Splitter`) composes the three pieces as `split_pdf_by_color`
  does, with the default sample count of 1000. `indices.dfy` holds `Range` (Python's
  `range`), `Min` and facts about strictly increasing index lists. `raster.dfy` holds
  the pixmap.

Each loop of the script is a method with loop invariants. Its postcondition ties the
result to a specification function (`IsColor`, `Extended`, `Range`, `Filter`), and
lemmas state what the script promises about those functions.

Two boundary cases of the code:

- A cover count larger than the page count is not clamped: the cover is
  `[0, min(n, total))`, `range(n, total)` is empty, and the counts still add up
  (`PartitionIsExact`).
- Page `n + 1`'s partner is `n`, which the test `n <= partner` admits
  (`PartnerAtEdges`).

Python's `%` floors and Dafny's is Euclidean. For the divisor 2 both give 0 or 1 for
every integer, so `(p - n) % 2` is written unchanged.

## Model

| member | source | states |
|---|---|---|
| `Indices.Range` | split_pdf_by_color.py:55 | `range(lo, hi)`: length `max(0, hi - lo)`, element `j` is `lo + j` |
| `Indices.RangeMembership` | split_pdf_by_color.py:55 | a range is strictly increasing and holds exactly the integers of `[lo, hi)` |
| `Indices.Min` | split_pdf_by_color.py:34 | the result is one of the two arguments and no larger than either |
| `Indices.IncreasingUnique` | split_pdf_by_color.py:7-26 | two strictly increasing index lists with the same elements are equal, so a list such as `detect_color_pages`'s result is fixed by its membership |
| `Raster.PixelInBounds` | split_pdf_by_color.py:13 | the bytes of any pixel `m < w*h` lie inside a buffer of `w*h*n` bytes |
| `Classifier.StepPixels` | split_pdf_by_color.py:15 | the pixel stride is at least 1; it is 1 exactly when the page has fewer than `2 * sampleCount` pixels, and otherwise it is the floor of `w*h / sampleCount` |
| `Classifier.StepBytes` | split_pdf_by_color.py:16 | the byte stride is at least one whole pixel |
| `Classifier.SampleInBounds` | split_pdf_by_color.py:15-20 | every sampled offset `k * stepBytes < len(data)` starts pixel `k * stepPixels < w*h`, and with three or more channels the reads at `idx`, `idx+1` and `idx+2` are in bounds |
| `Classifier.OffsetMonotone` | split_pdf_by_color.py:18 | with a stride of at least one byte, a later sample has a strictly larger offset |
| `Classifier.DetectPageColor` | split_pdf_by_color.py:12-23 | the strided scan with early exit reports colour iff some sampled offset has `r != g` or `g != b`; never with fewer than three channels, never on an empty buffer |
| `Classifier.ColorImpliesColorPixel` | split_pdf_by_color.py:17-23 | a page classified colour has a pixel whose components differ, so a page with `r == g == b` everywhere is BW |
| `Classifier.FirstPixelDecides` | split_pdf_by_color.py:18-23 | offset 0 is always sampled: a colour first pixel makes the page colour |
| `Classifier.SmallPageScannedFully` | split_pdf_by_color.py:15-23 | on a page of fewer than `2 * sampleCount` pixels every pixel is sampled, and the page is colour iff some pixel is |
| `Classifier.DetectColorPages` | split_pdf_by_color.py:5-26 | the result is strictly increasing, lies in `[start, total)`, and holds `i` iff page `i` is classified colour |
| `Partners.Partner` | split_pdf_by_color.py:45-48 | the partner differs from the page and is on the same sheet, counting sheets from `n` |
| `Partners.PartnerIsSheetMate` | split_pdf_by_color.py:43-48 | `Partner(p, n) == q` iff `q` is the other page on `p`'s sheet, in both directions |
| `Partners.PartnerInvolutive` | split_pdf_by_color.py:45-48 | the partner of the partner of `p` is `p` |
| `Partners.PartnerAtEdges` | split_pdf_by_color.py:45-49 | the first body page pairs with the next one and, when the body has two pages or more, both pass the range test; the last page of an odd-length body has partner `total`, which the range test rejects |
| `Partners.PartnersInRange` | split_pdf_by_color.py:44-50 | every partner that is added lies in `[n, total)` |
| `Partners.Extended` | split_pdf_by_color.py:41-50 | the extended set contains every colour page |
| `Partners.ExtendWithPartners` | split_pdf_by_color.py:41-50 | the loop builds exactly the colour pages plus their in-range partners: a superset of the colour list whose added pages all lie in `[n, total)` |
| `Partners.ExtendedMembership` | split_pdf_by_color.py:41-50 | `q` is in the extended set iff it is a colour page, or a body page whose partner is a colour page |
| `Partners.SheetsStayTogether` | split_pdf_by_color.py:40-50 | with colour pages from the body, the extended set stays in `[n, total)` and holds both sides of every sheet it touches that lies in the body |
| `Partners.ExtendedExample` | split_pdf_by_color.py:41-50 | with `n = 5`, `total = 20` and colour pages `[5, 7, 12]` the set is `{5, 6, 7, 8, 11, 12}` |
| `Partitioner.Filter` | split_pdf_by_color.py:55-59 | the filter is no longer than its input, and every kept page is on the wanted side of the colour set |
| `Partitioner.FilterKeepsOrder` | split_pdf_by_color.py:55-59 | the filter keeps exactly the input pages on the wanted side, and keeps a strictly increasing input strictly increasing |
| `Partitioner.FilterSplitsLength` | split_pdf_by_color.py:55-59 | the colour and BW filters together are as long as the body |
| `Partitioner.Partition` | split_pdf_by_color.py:34-59 | the cover is `[0, min(n, total))` in order; colour and BW are the in-order filters of `[n, total)` by membership in the set and by its complement |
| `Partitioner.PartitionIsExact` | split_pdf_by_color.py:34-59 | all three outputs are strictly increasing; cover, colour and BW hold exactly the prefix, the body pages in the set and the other body pages; their lengths add up to `total` |
| `Partitioner.EachPageOnce` | split_pdf_by_color.py:34-59 | every page of `[0, total)` is in exactly one output |
| `Partitioner.PartitionExample` | split_pdf_by_color.py:34-59 | for 20 pages, 5 cover pages and the set `{5, 6, 7, 8, 11, 12}`: cover `[0..4]`, colour `[5, 6, 7, 8, 11, 12]`, BW `[9, 10, 13, ..., 19]` |
| `Splitter.SplitByColor` | split_pdf_by_color.py:28-59 | end to end: a body page goes to the colour output iff it or its in-body sheet partner is classified colour, and otherwise to BW; the outputs are ordered, cover the document once and add up to `total` |
| `Splitter.SheetPrintedWhole` | split_pdf_by_color.py:43-59 | the two sides of a sheet inside the body always go to the same output |
| `Splitter.GreyDocumentAllBlackAndWhite` | split_pdf_by_color.py:17-59 | a document with no colour pixel sends no page to the colour output |

## Left out

- The PyMuPDF calls (`fitz.open`, `load_page`, `get_pixmap`, `insert_pdf`, `save`) are
  foreign library calls and file I/O. A document is a sequence of `Pixmap` values, and
  each output document is the list of page indices copied into it, in order.
- The rendering itself is not modelled: the pixmap is taken as given. So is the library's
  guarantee that the buffer holds `w * h * n` bytes, which `Pixmap.Valid` requires.
- A pixmap with zero channels is excluded by `Pixmap.Valid`. Its byte stride would be 0,
  and Python's `range` raises on a step of 0. The library does not produce such pixmaps.
- `sampleCount` must be at least 1. Python raises on a division by zero, and the script
  only ever uses the default of 1000.
- The cover count is a `nat`. For a negative count, `load_page` has library-defined
  behaviour.
- Argument parsing, `__main__` and the three informational `print` lines are not part of
  this model.
- Side effects happen in a fixed order in the script: the cover file is saved before
  detection runs. The model computes the three index lists; when each file is written is
  not modelled.
