# OPDS client for calibre — a Dafny model

This project models the OPDS client plugin for calibre: the table model
`OpdsBooksModel` (`calibre_plugin/model.py`) and the navigation and
selection logic of the plugin's dialog (`calibre_plugin/main.py`). It then
proves properties of that model.

The plugin reads an OPDS root catalog, which is an Atom feed. It shows the
root's sub-catalogs as rows. Opening a row reads that catalog and every
page reached through its `rel="next"` links. Each feed entry is converted
into a calibre `Metadata` record:

- the authors are split at `&`;
- the uuid is taken from a `urn:uuid:` id;
- the timestamp is normalised and parsed;
- the tags come from the last `TAGS: ` line of the summary;
- the links are sorted into download links (EPUB first) and the first
  nested-catalog link.

Two options hide newspapers and books already in the library. A stack of
saved catalogs lets the user go back. When the server is calibre's own,
timestamps are replaced by those of calibre's REST interface.

Modules, one per concern:

| module | file | contents |
|---|---|---|
| `Wrappers` | `wrappers.dfy` | `Option` and `Result` |
| `PyStrings` | `pystrings.dfy` | the Python `str` operations the plugin uses: `startswith`, `replace`, `split`, `splitlines`, `upper` (ASCII) |
| `Timestamps` | `timestamps.dfy` | the two suffix-stripping regular expressions and the strict `%Y-%m-%dT%H:%M:%S` shape of `strptime` |
| `Opds` | `opds.dfy` | feed entries, link dispatch, `opdsToMetadata`, `makeMetadataFromParsedOpds`, `findNextUrl` |
| `BooksModel` | `booksmodel.dfy` | the class `OpdsBooksModel`: the filtered view, the root-catalog dictionary, the sub-catalog rows, the paging loop, the REST timestamp join |
| `Dialog` | `dialog.dfy` | the class `OpdsDialog` (catalog history, activation, going back), the format list of `SelectFormatDialog`, `findIdenticalBooksForBooksWithMultipleAuthors` and `fixBookTimestamp` |

How the Python constructs are modelled:

- **Exceptions** that abort an operation become `Error` values: `AttributeError` on a missing title, `ValueError` from `strptime`, `KeyError` in the REST join.
- **State the code mutates** lives in classes whose methods are proved against specification functions:
  - `filteredBooks` against `Filtered`;
  - the paging loop against `Follow`;
  - the root loop against `RootCatalogs`.
- **A Python `dict`** keeps the position of a key's first insertion when the key is overwritten. It is modelled as a sequence of pairs (`Catalogs`) with `Put` and `Lookup`.
- **Parameters (oracles)** stand for:
  - the feed parser (`fetch`, page by page);
  - calibre's `has_book` and `find_identical_books`;
  - the answers of the REST requests.

## Model

| member | source | states |
|---|---|---|
| PyStrings.ReplaceFirst | calibre_plugin/model.py:154 | `replace(pat, rep, 1)` leaves a string without `pat` unchanged and replaces a leading `pat` once, keeping the rest |
| PyStrings.ReplaceFirstAt | calibre_plugin/model.py:154 | wherever the first occurrence of `pat` is, `replace(pat, rep, 1)` replaces exactly that one and keeps the text before and after it |
| PyStrings.Split | calibre_plugin/model.py:153 | `split` always returns at least one piece |
| PyStrings.SplitLines | calibre_plugin/model.py:163 | `splitlines` returns no lines exactly for the empty string, and no line holds a line break; with the two lemmas below it is pinned down break by break |
| PyStrings.Upper | calibre_plugin/main.py:346 | `upper` keeps the length and upper-cases each character in place |
| PyStrings.JoinSplit | calibre_plugin/model.py:153 | joining the pieces of `split` with the separator gives back the string |
| PyStrings.SplitPiecesAvoidSeparator | calibre_plugin/model.py:153 | no piece of `split(c)` contains `c` |
| PyStrings.SplitPiecesWithin | calibre_plugin/main.py:346 | every character of a piece of `split(c)` occurs in the string |
| PyStrings.ReplaceIsJoinOfSplit | calibre_plugin/model.py:152 | `replace(pat, rep)` equals `rep.join(split(pat))` |
| PyStrings.ReplaceAbsent | calibre_plugin/model.py:166-168 | `replace` changes nothing when `pat` does not occur |
| PyStrings.ReplaceWithoutFirstChar | calibre_plugin/model.py:166-168 | `replace` changes nothing when the first character of `pat` does not occur |
| PyStrings.ReplaceAfter | calibre_plugin/model.py:166-168 | the leftmost occurrence of `pat` is the one after a stretch without `pat`'s first character, and the rest is replaced independently |
| PyStrings.UpperKeepsNonLetters | calibre_plugin/main.py:346 | `upper` neither introduces nor removes a character that is not a letter |
| PyStrings.SplitLinesOfOneLine | calibre_plugin/model.py:163 | a non-empty string without line breaks is one line |
| PyStrings.SplitLinesAfterBreak | calibre_plugin/model.py:163 | the text up to the first line break is the first line, and the lines after the break follow (`\r` not followed by `\n`, or any other break) |
| PyStrings.SplitLinesAfterCrLf | calibre_plugin/model.py:163 | `\r\n` ends one line: the text before it is the first line and the lines after it follow |
| PyStrings.SplitAfter | calibre_plugin/model.py:169 | splitting at the first separator gives the text before it, then the pieces of the rest |
| PyStrings.SplitWithoutSeparator | calibre_plugin/model.py:169 | a string without the separator splits into itself |
| PyStrings.SplitLastAfter | calibre_plugin/main.py:346 | the last piece after a separator is the last piece of the text that follows it |
| Timestamps.Format | calibre_plugin/model.py:160 | a valid date-time prints in the fixed `YYYY-MM-DDTHH:MM:SS` shape |
| Timestamps.Parse | calibre_plugin/model.py:160 | `strptime` accepts only a valid date-time in that shape, which prints back to exactly the parsed text |
| Timestamps.ParseFormat | calibre_plugin/model.py:160 | parsing a printed date-time gives back the same value (round trip) |
| Timestamps.FormatParsed | calibre_plugin/model.py:160 | the fields read from a well-shaped string print back to that string |
| Timestamps.TrailingDigits | calibre_plugin/model.py:159 | counts exactly the digits that end the string |
| Timestamps.DropFraction | calibre_plugin/model.py:159 | removing the optional `(\.[0-9]+)?` group leaves a prefix |
| Timestamps.StripFeedZone | calibre_plugin/model.py:159 | the entry regex removes only a suffix |
| Timestamps.StripUtcOffset | calibre_plugin/model.py:255 | the REST regex removes only a suffix |
| Timestamps.EntryTimestamp | calibre_plugin/model.py:155-160 | the timestamp of an entry is a valid date-time whose printed form is a prefix of the raw `updated` text, or of the default |
| Timestamps.RestTimestamp | calibre_plugin/model.py:255-256 | the timestamp of a REST record is a valid date-time whose printed form is a prefix of the raw text |
| Timestamps.DropFractionOfFormat | calibre_plugin/model.py:159 | the fraction after a printed date-time is removed completely |
| Timestamps.StripFeedZoneOfSuffix | calibre_plugin/model.py:159-160 | a date-time followed by `Z`, or by a fraction and a `+0d:00` offset, is stripped back to the date-time and parses to it |
| Timestamps.StripUtcOffsetOfSuffix | calibre_plugin/model.py:255-256 | a REST timestamp with an optional fraction and `+00:00` parses to its date-time |
| Timestamps.DefaultTimestamp | calibre_plugin/model.py:155-158 | an entry without `updated` gets 1980-01-01 00:00:00 |
| Timestamps.FractionAndZuluExamples | calibre_plugin/model.py:159-160 | `2021-03-01T10:00:00.123+02:00` and `2021-03-01T10:00:00Z` both give 2021-03-01 10:00:00 |
| Timestamps.FormatExample | calibre_plugin/model.py:160 | 2021-03-01 10:00:00 prints as `2021-03-01T10:00:00` |
| Timestamps.UnstrippedSuffixExamples | calibre_plugin/model.py:159-160 | a `.123Z` or a `-05:00` suffix is not stripped, and `strptime` rejects the result |
| Opds.KindOf | calibre_plugin/model.py:176-193 | a link is a nested catalog exactly when its type is not `image/*` and starts with `application/atom+xml`; a link treated as EPUB has exactly the EPUB media type |
| Opds.ReverseSnoc | calibre_plugin/model.py:190 | inserting at the front after the others equals reversing with the new element first |
| Opds.ReverseAt | calibre_plugin/model.py:190 | position `k` of the reversal holds element `n-1-k` |
| Opds.ReverseMultiset | calibre_plugin/model.py:190 | reversal is a permutation |
| Opds.FirstCatalogHref | calibre_plugin/model.py:182-185 | the recorded catalog URL is the href of the first nested-catalog link, and there is none exactly when no link is a nested catalog |
| Opds.Authors | calibre_plugin/model.py:152-153 | there is at least one author and none contains `&`; joined with `&` the authors give back the author text with every `& ` turned into `&` (`""` without an author) |
| Opds.Uuid | calibre_plugin/model.py:154 | an id starting with `urn:uuid:` loses that prefix; an id without `urn:uuid:` anywhere is kept whole; an entry without id gets `""` |
| Opds.UuidAt | calibre_plugin/model.py:154 | the first `urn:uuid:` is removed wherever it occurs, and only that one; the rest of the id is kept |
| Opds.TagsOfLine | calibre_plugin/model.py:166-169 | a `TAGS: ` line gives at least one tag, none containing `,`; joined with `,` the tags give back the line with `TAGS: ` and `<br />` removed and every `, ` turned into `,` |
| Opds.LastTagsLine | calibre_plugin/model.py:164-169 | the tags line used is the LAST line starting with `TAGS: `, and there is none exactly when no line starts so |
| Opds.TagsOf | calibre_plugin/model.py:161-170 | a summary gives no tags exactly when none of its lines starts with `TAGS: `; no tag contains `,` |
| Opds.TagsOfLineThenRest | calibre_plugin/model.py:161-170 | for a summary whose first line is followed by a break, a `TAGS: ` line further down decides the tags; otherwise a first line starting with `TAGS: ` does; otherwise there are none |
| Opds.LastTagsLineAfterFirst | calibre_plugin/model.py:164-169 | putting a line in front moves the last `TAGS: ` line of the rest one place down, and makes the new line the tags line only when the rest has none |
| Opds.ConvertAll | calibre_plugin/model.py:144-149 | converting a list succeeds exactly when every entry converts; it then holds each entry's record in order, and otherwise fails with the error of the first failing entry |
| Opds.ConvertAllPrefixErr | calibre_plugin/model.py:146-148 | once a prefix fails, the whole list fails with the same error |
| Opds.Classify | calibre_plugin/model.py:151-204 | an entry fails exactly when it has no title or its timestamp does not parse, a missing title being reported first; a record keeps the entry's title, always has a timestamp, and never has both download links and a catalog URL |
| Opds.ClassifyAll | calibre_plugin/model.py:144-149 | a page converts exactly when each of its entries does, to their records in order; otherwise it fails with the error of the first failing entry |
| Opds.ReadTags | calibre_plugin/model.py:161-170 | the line loop yields the tags of the last `TAGS: ` line, or none |
| Opds.ClassifyLinks | calibre_plugin/model.py:171-193 | the link loop yields exactly the download list and the first catalog href |
| Opds.LinksStep | calibre_plugin/model.py:174-193 | one link prepends an EPUB href, appends any other download href, and records only the first catalog href |
| Opds.OpdsToMetadata | calibre_plugin/model.py:151-204 | the conversion of one entry, an `Error` exactly where the source raises |
| Opds.MakeMetadata | calibre_plugin/model.py:144-149 | converts the entries in order and stops at the first exception |
| Opds.FindNextUrl | calibre_plugin/model.py:206-210 | the href of the first feed link with `rel == "next"`, none exactly when no link has it |
| Opds.NextUrlOf | calibre_plugin/model.py:206-210 | a feed without feed-level links raises `AttributeError`; otherwise the result is that of `findNextUrl` on its links |
| Opds.DownloadableHrefs | calibre_plugin/model.py:174-193 | an independent description of the download links: exactly the hrefs of links that are neither images nor nested catalogs |
| Opds.DownloadsPermuteDownloadLinks | calibre_plugin/model.py:174-193 | the download list is a permutation of those hrefs: nothing is lost or duplicated |
| Opds.DownloadsComeFromDownloadLinks | calibre_plugin/model.py:178-185 | no image or nested-catalog href ever appears among the download links |
| Opds.DownloadHrefs | calibre_plugin/model.py:187-193 | every EPUB href comes before every other href; the EPUB hrefs are in reverse discovery order and the others keep theirs |
| Opds.ClassificationDecision | calibre_plugin/model.py:195-202 | a record has a catalog URL exactly when it has no download links and a non-empty catalog href, and then has no links; a record with download links has no catalog URL |
| Opds.EpubTypeIsEpub | calibre_plugin/model.py:188-190 | the EPUB media type dispatches as EPUB |
| Opds.AtomTypeIsCatalog | calibre_plugin/model.py:182-185 | the Atom media type dispatches as a nested catalog |
| Opds.PdfTypeIsOther | calibre_plugin/model.py:191-193 | a PDF link is another download format |
| Opds.JpegTypeIsImage | calibre_plugin/model.py:178-179 | a JPEG link is skipped as an image |
| Opds.EpubBeforePdfExample | calibre_plugin/model.py:187-193 | EPUB then PDF gives `[epub, pdf]` |
| Opds.TwoEpubsSwappedExample | calibre_plugin/model.py:190 | two EPUB links come out in reverse order |
| Opds.SingleCatalogLink | calibre_plugin/model.py:182-185 | a lone Atom link is recorded as the catalog href and downloads nothing |
| Opds.SingleImageLink | calibre_plugin/model.py:178-179 | a lone JPEG link is neither a download nor a catalog |
| Opds.SubCatalogAndInertExamples | calibre_plugin/model.py:195-202 | an entry with only an Atom link becomes a sub-catalog; an entry with only an image link is an inert row |
| Opds.TagsOfLineOfTwo | calibre_plugin/model.py:166-169 | `TAGS: a, b` gives the tags `a` and `b` |
| Opds.TagsOfSingleLine | calibre_plugin/model.py:162-170 | a one-line summary starting with `TAGS: ` gives that line's tags |
| Opds.TagsExample | calibre_plugin/model.py:161-170 | `TAGS: Fiction, News` gives `["Fiction", "News"]` |
| Opds.AuthorsExample | calibre_plugin/model.py:152-153 | `A & B` gives the authors `A ` and `B` |
| BooksModel.Filtered | calibre_plugin/model.py:125-131 | the view never has more rows than the model |
| BooksModel.KeptRows | calibre_plugin/model.py:125-142 | the kept positions are increasing and are exactly the rows that neither option hides |
| BooksModel.FilteredAtKeptRows | calibre_plugin/model.py:125-131 | the filtered rows are the rows at the kept positions: an order-preserving subsequence |
| BooksModel.FilteredMembership | calibre_plugin/model.py:129-142 | a row is shown exactly when it is a row and is neither a hidden newspaper nor a hidden library book |
| BooksModel.FilteredAppend | calibre_plugin/model.py:105-108 | filtering rows appended by a later page never changes the earlier part of the view |
| BooksModel.FilteredWithoutOptions | calibre_plugin/model.py:133-142 | with both options off every row is shown |
| BooksModel.FilteredIdempotent | calibre_plugin/model.py:125-131 | filtering the view again changes nothing |
| BooksModel.NewsTaggedBookHidden | calibre_plugin/model.py:133-137 | a book tagged by `TAGS: Fiction, News` is hidden by the newspaper option and shown with both options off |
| BooksModel.Keys | calibre_plugin/model.py:85 | the dictionary's keys in insertion order |
| BooksModel.Lookup | calibre_plugin/model.py:85 | a key is absent exactly when no item has it; a found value belongs to an item with that key |
| BooksModel.Put | calibre_plugin/model.py:95 | assignment adds at most one item |
| BooksModel.PutLookup | calibre_plugin/model.py:95 | after `d[k] = v`, `k` maps to `v` and every other key as before |
| BooksModel.PutKeys | calibre_plugin/model.py:95 | overwriting keeps the key order; a new key goes to the end |
| BooksModel.PutUniqueKeys | calibre_plugin/model.py:95 | assignment keeps keys unique |
| BooksModel.RootCatalogs | calibre_plugin/model.py:85-96 | the dictionary of the root loop has unique keys |
| BooksModel.LastCatalogued | calibre_plugin/model.py:88-95 | the position of the last entry with links carrying a title, none exactly when no entry does |
| BooksModel.RootCatalogsLastWins | calibre_plugin/model.py:88-95 | a title maps to the first link of the LAST entry with links carrying it, and is absent exactly when there is none |
| BooksModel.RootCatalogsStep | calibre_plugin/model.py:88-95 | one entry overwrites only its own title |
| BooksModel.DuplicateTitleExample | calibre_plugin/model.py:88-95 | of two entries titled `X`, the later href wins and `X` keeps its first position |
| BooksModel.HeaderOf | calibre_plugin/model.py:79-82 | the stored header starts with `calibre` exactly when the server sent a `Server` header starting with `calibre`: a missing header, stored as `none`, never does |
| BooksModel.VirtualBooks | calibre_plugin/model.py:277-294 | one virtual row per dictionary item, in order, with the item's title and URL |
| BooksModel.VirtualRowsIgnoreNewsOption | calibre_plugin/model.py:133-142 | the newspaper option never hides a sub-catalog row, but `has_book` is consulted for those rows too |
| BooksModel.Follow | calibre_plugin/model.py:103-110 | the paging loop never drops or changes the rows loaded before it |
| BooksModel.FollowAppends | calibre_plugin/model.py:103-110 | each page only appends to the rows loaded so far; the outcome does not depend on them |
| BooksModel.ThreePageChain | calibre_plugin/model.py:98-110 | a chain of three pages loads the three pages' rows in order and stops |
| BooksModel.SelfLinkedPage | calibre_plugin/model.py:103-110 | a page whose `next` link points to itself never ends the loop |
| BooksModel.DownloadedKeepsFirstPage | calibre_plugin/model.py:101-110 | the first page's rows stay in front of those of the later pages, whatever they are, and do not affect the outcome |
| BooksModel.UnreadableCatalog | calibre_plugin/model.py:100-104 | an unreadable catalog URL has no entries and no feed links: the rows become empty and `findNextUrl` then raises `AttributeError` |
| BooksModel.UuidIndex | calibre_plugin/model.py:247-251 | the join succeeds exactly when every id has a record with a uuid; every uuid key comes from such a record |
| BooksModel.UuidIndexLastWins | calibre_plugin/model.py:247-251 | of several ids whose records share a uuid, the record of the last one is indexed under it |
| BooksModel.IndexByUuid | calibre_plugin/model.py:247-251 | the first loop of the join builds exactly that index |
| BooksModel.UuidIndexPrefixErr | calibre_plugin/model.py:247-251 | the first `KeyError` decides the outcome |
| BooksModel.Restamp | calibre_plugin/model.py:252-257 | the new timestamp changes nothing else in the row, and fails exactly when the uuid or the timestamp is missing or does not parse |
| BooksModel.RestampFromCalibre | calibre_plugin/model.py:252-257 | a calibre REST timestamp with `+00:00` becomes the row's timestamp |
| BooksModel.OpdsBooksModel.constructor | calibre_plugin/model.py:26-30 | the model starts with both options off and a view consistent with its rows |
| BooksModel.NewOpdsBooksModel | calibre_plugin/model.py:26-30 | construction fails exactly when converting an entry raises |
| BooksModel.OpdsBooksModel.FilterBooks | calibre_plugin/model.py:125-131 | the view becomes `Filtered` of the rows under the current options; nothing else changes |
| BooksModel.OpdsBooksModel.RowCount | calibre_plugin/model.py:41-42 | the row count is the number of kept rows |
| BooksModel.OpdsBooksModel.SetFilterBooksThatAreNewspapers | calibre_plugin/model.py:120-123 | the same value changes nothing; a new value sets the flag and recomputes the view |
| BooksModel.OpdsBooksModel.SetFilterBooksThatAreAlreadyInLibrary | calibre_plugin/model.py:115-118 | likewise for the library option |
| BooksModel.OpdsBooksModel.SetNewspapersTwice | calibre_plugin/model.py:120-123 | setting an option twice to a value ends in the state one call gives |
| BooksModel.OpdsBooksModel.DownloadOpdsRootCatalog | calibre_plugin/model.py:69-96 | an unreadable feed gives no title and an empty dictionary; a readable one stores the header and returns the first title and the dictionary |
| BooksModel.OpdsBooksModel.LoadSubcatalogs | calibre_plugin/model.py:260-296 | the rows become the virtual rows of the dictionary, filtered |
| BooksModel.OpdsBooksModel.DownloadOpdsCatalog | calibre_plugin/model.py:98-110 | a first page whose entries fail to convert changes nothing; otherwise the first page's rows are put in place and filtered, then a feed without links raises and ends the load, or the rows become those of the pages along the `next` chain, in order, with the view matching them |
| BooksModel.OpdsBooksModel.FollowNextPages | calibre_plugin/model.py:103-110 | the paging loop ends in exactly the state `Follow` describes, keeping the view consistent |
| BooksModel.OpdsBooksModel.UpdateTimestampInMetadata | calibre_plugin/model.py:246-258 | only timestamps change; a failed join changes nothing; otherwise rows are updated in order up to the first failure, and the view is refreshed only when all succeed |
| BooksModel.OpdsBooksModel.RestampRows | calibre_plugin/model.py:252-257 | the row loop updates a prefix and stops at the first row that raises |
| Dialog.LastSegment | calibre_plugin/main.py:347 | the last path segment holds no `/` |
| Dialog.FormatName | calibre_plugin/main.py:346 | a format name never contains `/`, `?` or `.` |
| Dialog.FormatItems | calibre_plugin/main.py:344-349 | one list item per link, in order, carrying that link |
| Dialog.FormatOfQueryUrl | calibre_plugin/main.py:346-347 | `dir/name.ext?query` shows as `EXT (name.ext?query)` |
| Dialog.FormatOfFileUrl | calibre_plugin/main.py:346-347 | `dir/name.ext` shows as `EXT (name.ext)` |
| Dialog.FormatWithoutExtension | calibre_plugin/main.py:346 | a last segment without a dot is the format, upper-cased |
| Dialog.DownloadBook | calibre_plugin/main.py:222-226 | the format dialog opens exactly when the row has links, listing them |
| Dialog.CatalogRowsOfferNoDownload | calibre_plugin/main.py:222-226 | sub-catalog rows, root-catalog rows and inert rows never open the format dialog |
| Dialog.AnyAuthorMatchesMeaning | calibre_plugin/main.py:251-256 | an id is found one author at a time exactly when some author alone finds it |
| Dialog.SingleAuthorAgrees | calibre_plugin/main.py:248-256 | for one author, asking per author and asking directly agree |
| Dialog.IdenticalBooks | calibre_plugin/main.py:246-256 | for a book with several authors, a library id is identical exactly when asking with one of the authors alone finds it |
| Dialog.FindIdenticalBooksForBooksWithMultipleAuthors | calibre_plugin/main.py:246-256 | fewer than two authors ask once; otherwise the union over the single-author lookups |
| Dialog.FixBookTimestamp | calibre_plugin/main.py:236-244 | the map handed to `set_field` has exactly the identical ids as keys, each with the book's timestamp |
| Dialog.OpdsDialog.constructor | calibre_plugin/main.py:151 | the dialog starts with an empty navigation history |
| Dialog.OpdsDialog.OpdsUrlEditorActivated | calibre_plugin/main.py:170-176 | reloading the root shows its sub-catalogs and does NOT clear the history |
| Dialog.OpdsDialog.OpenCatalog | calibre_plugin/main.py:310-316 | the header and options stay; a first page that fails leaves the rows; otherwise the rows are those of the download, and on a calibre server whose load finished only their timestamps change, each from the REST record; when the REST join raises, the view stays that of the download, and the rows are either the download (a `KeyError` while indexing) or restamped up to the first row that raised and untouched from it on |
| Dialog.OpdsDialog.OpenSubCatalog | calibre_plugin/main.py:299-303 | exactly one snapshot of the rows and header is pushed, then the catalog is opened with everything `OpenCatalog` promises |
| Dialog.OpdsDialog.ActivateCurrentItem | calibre_plugin/main.py:290-307 | a sub-catalog row does what `OpenSubCatalog` promises: one snapshot pushed, then the catalog opened with everything `OpenCatalog` promises, the REST failure case and the unchanged header included; any other row, or no row, leaves history and rows unchanged |
| Dialog.OpdsDialog.NavigateBack | calibre_plugin/main.py:319-329 | an empty history is a no-op; otherwise the latest snapshot is popped and its rows and header restored, filtered with the current options |
| Dialog.OpdsDialog.OpenThenBack | calibre_plugin/main.py:290-329 | opening a sub-catalog and going back restores the rows, header, view and history exactly |

## Behaviour worth knowing

The plugin's code does the following, and the model with it:

- EPUB links are inserted at the front one by one, so they end up in reverse discovery order (`Opds.DownloadHrefs`).
- The last `TAGS: ` line of a summary decides the tags (`Opds.LastTagsLine`).
- `has_book` is consulted for sub-catalog rows too; they are not exempt from the library option (`BooksModel.VirtualRowsIgnoreNewsOption`).
- Reloading the root catalog keeps the navigation history (`Dialog.OpdsDialog.OpdsUrlEditorActivated`).
- A snapshot holds only the rows and the server header.
- Going back filters the restored rows with the options in force at that moment.
- A missing `updated` defaults to `1980-01-01T00:00:00+00:00`.
- A catalog feed without feed-level links raises after its first page's rows are in place; the REST timestamp step is then skipped (`Opds.NextUrlOf`).
- Hrefs are used as given: the code does not make URLs absolute, cache `has_book`, page in the background or offer cancellation.

## Left out

- Qt: widgets, layout, event filtering, row resizing, the search proxy, display roles (`data`, `headerData`), `beginResetModel`/`endResetModel`, `processEvents`. There is no logic in them beyond what is modelled.
- `feedparser.parse` and the network: a feed is a `Page` value given by the function `fetch`. A root feed is `Readable` or `Unreadable`, the latter standing for the `bozo_exception` case. `error_dialog` is not modelled.
- The REST requests of `downloadMetadataUsingCalibreRestApi` (URL building, urllib, JSON): their answer is a parameter `Option<RestAnswer>`, where `None` stands for a request that raised.
- The calibre database: `has_book`, `find_identical_books` and `set_field` are oracles.
  - `Dialog.FindIdenticalBooksForBooksWithMultipleAuthors` asks `find_identical_books` with the book's title and authors only. For a book with fewer than two authors the source passes the whole record.
  - `Dialog.FixBookTimestamp` returns the map instead of calling `set_field`, and does not print its message.
- `Timestamps.Parse`: only the zero-padded `YYYY-MM-DDTHH:MM:SS` shape with ASCII digits and an upper-case `T` is accepted. `strptime` also takes unpadded fields, matches its pattern case-insensitively (so `2021-03-01t10:00:00` parses), and its `\d` accepts non-ASCII decimal digits. Such timestamps make a whole page fail in the model where the source converts it.
- `PyStrings.Upper`: only ASCII letters are mapped.
- `PyStrings.SplitLines`: the line-break characters are `\n`, `\r`, `\x0b`, `\x0c`, `\x1c`-`\x1e`, `\x85`, ` ` and ` `.
- The `$` anchor: in Python it also matches before a final newline. That case is not modelled.
- `BooksModel.OpdsBooksModel.DownloadOpdsCatalog`:
  - Its loop is bounded by `fuel`. `FuelExhausted` stands for the source looping forever on a cyclic `next` chain.
  - Later pages are read through `ReaderOf(fetch)`, which converts with the function `ClassifyAll`. The method `MakeMetadata` is proved equal to it.
- `BooksModel.OpdsBooksModel.UpdateTimestampInMetadata`: Python's rows are shared objects. When a row raises partway, the source's view shows the already-updated timestamps. The model's view keeps the old values, and the model is then not `Consistent` until the next filtering.
- `serverHeader` is `""` before the first root catalog is read. The source leaves the attribute unset.
- A link without `href` is not modelled; every `Link` has one.
- The virtual rows of the root catalog have uuid `""`.
- `_stop_pager` is called by `_navigateBack` but is not defined in the modelled files. It has no modelled effect.
- Multi-row selection loops (`downloadSelectedBooks`, `fixBookTimestamps`), `download_opds`, `dummy_books`, `about`, `config`, preferences, and the option setters of the dialog. The dialog setters only store preferences and call the model setters, which are modelled.
- `SelectFormatDialog.accept` and `gui.download_ebook`: the model stops at the list of items offered.
- `Dialog.OpdsDialog.ActivateCurrentItem`: the source raises `AttributeError` when an explicitly passed index lies past the rows, because `downloadBook` is then handed `None`. The model reports `NoItem` for it.
- `Dialog.OpdsDialog.constructor`: the widgets and the first root-catalog load of `__init__` are left out. That load is the same operation as `OpdsUrlEditorActivated`, which a caller runs after construction.
