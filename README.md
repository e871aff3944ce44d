# Section index of a PDF document

This project models the section-index builder of the PDF audit tool,
`extract_toc_and_sections` in `app3.py`, and its nested header detector
`find_section_headers`. The builder maps each section title to a record
holding the level, the one-based page and the full text of that page. It
works in two passes:

- **Outline pass.** Every outline entry `(level, title, page)` is written into
  the map. The record takes the text of the page the entry names. A repeated
  title is overwritten, so its last entry wins.
- **Header pass.** Every page is scanned in order for headers matching
  `\b(ORG \d+(\.\d+){1,5})\b`. Each header that is not yet a key is inserted.
  Its level is its number of dots plus one. Its page is the current page and
  its text is the page's text.

The PDF library is replaced by its results. The model takes the text of every
page as a sequence of strings, in page order. It takes the outline as a
sequence of `TocEntry(level, title, page)` values.

Two modules:

- `HeaderScan` (`header_scan.dfy`) models the regular expression and
  `re.findall` as pure functions. `MatchAt` follows how the engine matches at
  one position: each `\d+` takes a maximal run of digits, and `{1,5}` is greedy
  and backtracks until the closing `\b` holds. `MatchesFrom` is the
  left-to-right scan that resumes at the end of each match. A declarative
  definition of a header (`IsHeaderShape`, `HeaderAt`) is proved equal to what
  the scan finds. Every reported header is an occurrence of the pattern, and
  every occurrence is reported in its longest form.
- `SectionIndex` (`section_index.dfy`) models the builder as a method that
  updates a `map` in two loops. Its contract is stated with specification
  functions: the outline titles, the headers of each page, the first page
  that holds a header, and the record each source produces.

## Model

| member | source | states |
|---|---|---|
| HeaderScan.DigitsEnd | app3.py:27 | a `\d+` run ends at the first non-digit after it: everything in between is a digit |
| HeaderScan.GroupEnds | app3.py:27 | the greedy `(\.\d+){1,5}` takes at most five groups, each ending after a digit |
| HeaderScan.GroupEndsSorted | app3.py:27 | the ends the greedy group scan reports are strictly increasing |
| HeaderScan.BoundedGroupCount | app3.py:27 | backtracking keeps the largest number of groups after which `\b` holds; no larger number has a boundary |
| HeaderScan.GroupEndsShape | app3.py:27 | the m-th end the greedy group scan reports closes exactly m + 1 well-formed `.digits` groups |
| HeaderScan.GroupEndsComplete | app3.py:27 | a well-formed run of groups that ends where the digits end is reached by the greedy scan after as many groups as it has dots |
| HeaderScan.BacktrackingReaches | app3.py:27 | when at most five groups end at a word boundary, backtracking keeps a group count that reaches at least that far |
| HeaderScan.MatchAt | app3.py:27 | a successful match ends past `ORG ` and inside the text; what it matches is stated by MatchAtSound and MatchAtLongest |
| HeaderScan.MatchesFrom | app3.py:28 | `re.findall` reports matches inside the scanned text, left to right and without overlap |
| HeaderScan.MatchAtSound | app3.py:27 | a match found at a position is a header: `ORG `, digits, one to five `.digits` groups, with `\b` on both sides |
| HeaderScan.MatchAtLongest | app3.py:27 | every header starting at a position makes the match there succeed, and the match is at least as long |
| HeaderScan.MatchesFromAreMatches | app3.py:28 | every span the scan reports is exactly the match found at its start |
| HeaderScan.MatchesFromComplete | app3.py:28 | every position where a header starts is the start of a reported span: no header is skipped by the scan |
| HeaderScan.FindSectionHeaders | app3.py:26-29 | the text of each `re.findall` match, in order; what it reports is stated by HeadersSound, HeadersComplete and NoHeadersIff |
| HeaderScan.HeadersSound | app3.py:26-29 | every reported header is a boundary-delimited occurrence of the pattern in the page text, the longest one at its position |
| HeaderScan.HeadersComplete | app3.py:26-29 | every header in the page text is reported, in its longest form at that position |
| HeaderScan.HeaderLevelBounds | app3.py:27 | every reported header has the pattern's shape and between one and five dots, so its level lies between 2 and 6 |
| HeaderScan.NoHeadersIff | app3.py:26-29 | a page reports no header if and only if no header occurs in its text |
| HeaderScan.DetectsDelimitedHeader | app3.py:27-29 | a header with no word character before it, and after it neither a word character nor a dot followed by a digit (it may stand alone or end a sentence), is reported exactly as written |
| HeaderScan.MatchEndsAt | app3.py:27 | the match at a header's start ends at the header's end when no digit, and no dot followed by a digit, comes after it |
| HeaderScan.NumberingContinues | app3.py:27 | a numbering that runs past a point continues there with a digit, or with a dot followed by a digit |
| HeaderScan.DetectsOrg321 | app3.py:25-27 | the header "ORG 3.2.1", standing on its own or at the end of a sentence, is detected; it has two dots, so the record the index stores for it has level 3 (the level rule is in the ExtractTocAndSections contract) |
| SectionIndex.ExtractTocAndSections | app3.py:10-45 | the keys are exactly the outline titles plus the headers detected on any page; the last outline entry of each title gives its record (level, page, text of that page), and the header pass never replaces it; a header not in the outline gets level equal to its number of dots plus one, the first page it is detected on, and that page's text; its level lies between 2 and 6; the index is empty if and only if the outline is empty and no header is detected |
| SectionIndex.OutlineSection | app3.py:17-23 | the record of an outline entry: its level, its page, and the text of page - 1; the ExtractTocAndSections contract states which entry gives each title's record |
| SectionIndex.HeaderSection | app3.py:39-43 | the record of a header found on page index p: dots + 1, page p + 1, and that page's text; the ExtractTocAndSections and InsertNewHeaders contracts state when it is stored |
| SectionIndex.InsertNewHeaders | app3.py:36-43 | one page's headers are added to the map when they are not yet keys, with level dots + 1, the one-based page and the page text; existing keys keep their records |
| SectionIndex.PageHeadersAt | app3.py:32-34 | the header list of page p is what the detector reports for the text of page p |
| SectionIndex.HeaderPassStep | app3.py:32-43 | scanning one more page keeps the header-pass invariant: keys, untouched outline records, first-page records, levels |
| SectionIndex.HeaderLevels | app3.py:40 | every record added by the header pass has level dots + 1, between 2 and 6 |
| SectionIndex.PageHeaderLevels | app3.py:40 | every header detected on any page has the pattern's shape and a level between 2 and 6 |
| SectionIndex.NoDetectedHeaders | app3.py:32-45 | no header is detected on any page if and only if no page text contains a header |
| SectionIndex.EmptyIndex | app3.py:13-45 | an index keyed by outline titles and detected headers is empty if and only if both are empty |
| SectionIndex.FirstPageIsLowest | app3.py:32-43 | FirstPageWith unfolded (not a separate result): the first page of a header is the page where it is detected with no earlier page detecting it |
| SectionIndex.DetectedHasFirstPage | app3.py:32-43 | every detected header has a first page, and only one |
| SectionIndex.HeadersBeforeEmpty | app3.py:32-45 | the first n pages detect no header if and only if each of their header lists is empty |
| SectionIndex.FirstListExists | app3.py:32-43 | a header detected on one of the first n pages is detected first on one of them |

## Left out

- `calculate_similarity` (app3.py:48-52): TF-IDF vectors and cosine similarity are floating-point work done by scikit-learn.
- `perform_audit` (app3.py:55-111): it reads a TOML secrets file and calls a remote language model; the reply is opaque text.
- `main` (app3.py:113-160): Streamlit widgets, file uploads and writing local PDF files.
- PyMuPDF calls (`fitz.open`, `get_toc`, `load_page`, `get_text`): their results are the inputs `pages` and `toc`.
- ExtractTocAndSections: requires every outline page to lie between 1 and the number of pages; what PyMuPDF does for other page numbers (a negative index counting from the end, an error) is not modelled.
- ASCII only: `\w`, `\d` and `\b` are ASCII only; Python's Unicode digits and word characters are not modelled.
- Dictionary key order, which only affects the order of the select boxes in the UI, is not modelled: the index is a `map`.
