# Anna's Archive store plugin: a Dafny model

This project models the core of calibre's Anna's Archive store plugin, `annas_archive.py`. The core does three things:

- **Search**: `search` builds the search URL. `_search` fetches the results page and walks its result cards. Each card is read directly, or from the HTML inside its first comment when it has no child elements. A card without an identifier is skipped. For the others, the info string is unpacked into its format, and a `SearchResult` record is yielded, until `max_results` records have been yielded.
- **Details**: `get_details` fetches the detail page of one record. It then walks the page's download anchors in order. An anchor whose href has the record's extension is prefixed with the base URL when it starts with `/`, and is then probed with a HEAD request. It is inserted into the record's `downloads` when the response's content type is `application/*`.
- **URLs**: `_get_url` is the detail-page URL template.

Layout:

- `wrappers.dfy` holds the `Option` type.
- `pystr.dfy` holds the Python string built-ins the code relies on: `strip`/`lstrip`/`rstrip` with a character set, `split` with and without `maxsplit`, `join`, `endswith`, and ASCII `upper`/`lower`. Their properties are proved there.
- `annas_archive.dfy` holds:
  - the data model and the URL templates;
  - the specification functions (`ExtractCard`, `Harvest`, `SearchSpec`, `Judge`, `Resolve`, `Details`);
  - the host's `SearchResult` record as a class;
  - the store's procedures as imperative methods proved against those functions.
- `extraction_facts.dfy` and `resolution_facts.dfy` prove what the two procedures promise.

Everything outside the plugin is a parameter:

- The page fetch is a function from URL to the parsed page. It gives `None` when opening the page or parsing its body raises (`annas_archive.py:28-29`, `:88-89`).
- Re-parsing a comment's text is a function from text to the card's markup. It gives `None` when the parser raises.
- The HEAD probe is a function from the link's position and URL to its outcome: a main content type, an error the code ignores, or an exception it does not catch.

Exceptions that leave the procedures are modelled as a `Failure` value returned beside what was produced before them.

Four behaviours of the code that the model keeps as they are:

- **Identifier:** the identifier joins the last `/`-segment of the href of every direct `<a>` child of the card (`annas_archive.py:43`).
- **Unpack error:** an info string with fewer than two commas raises at `annas_archive.py:54` and ends the whole search sequence (`UnpackError`).
- **Missing href:** a download anchor without an href raises at `annas_archive.py:95` (`MissingHref`).
- **Comment fallback:** the fallback strips character sets, not prefixes (`annas_archive.py:39`). So markup that starts with `<` or ends with `>` right at the comment's edges loses those characters, and when text follows the comment, the closing `-->` can stay in the recovered markup. The markup comes back intact only when it is padded, for example by newlines.

## Model

| member | source | states |
|---|---|---|
| AnnasArchive.Search | annas_archive.py:77-79 | the records are those `_search` yields for `<base>/search?q=<query>`, with the same terminating failure; each is a fresh, distinct object with an empty download map |
| AnnasArchive.RunSearch | annas_archive.py:26-61 | a fetch failure yields nothing and raises; otherwise the records are exactly the counter loop's listings over the page's cards, in order, as fresh and pairwise distinct objects with no downloads, and the failure is the loop's |
| AnnasArchive.Collect | annas_archive.py:30-61 | the loop yields exactly `Harvest` of the cards' outcomes: one fresh record per qualifying card, no two the same object, in page order, stopping when the counter reaches zero or a card raises |
| AnnasArchive.ReadCard | annas_archive.py:35-58 | the loop body on one card equals `ExtractCard`: comment fallback, skip without an identifier, `UnpackError` on a short info string, the fixed price and DRM state |
| AnnasArchive.SearchResult.constructor | annas_archive.py:47-58 | a new record holds exactly the extracted listing's fields and no downloads |
| AnnasArchive.SkipStep | annas_archive.py:40-45 | a skipped card leaves what remains to be yielded unchanged |
| AnnasArchive.YieldStep | annas_archive.py:47-61 | a qualifying card is yielded next and uses up one unit of the counter |
| AnnasArchive.AbortStep | annas_archive.py:39-54 | an exception in the loop body ends the sequence after what was already yielded |
| AnnasArchive.GetDetails | annas_archive.py:81-104 | the new download map and the failure are those of `Details`; with no format the map is unchanged and nothing is raised; only `downloads` is modified |
| AnnasArchive.ResolveLinks | annas_archive.py:90-104 | the link loop leaves the map and failure that `Resolve` gives for the links' verdicts in page order |
| AnnasArchive.JudgeLink | annas_archive.py:91-104 | the loop body on one link is `Judge`: missing href raises, wrong extension is skipped, `/`-relative links become absolute, only `application` responses are inserted, caught probe errors are ignored |
| AnnasArchive.ResolveStaysHalted | annas_archive.py:90-104 | once a link has raised, later links change neither the map nor the failure |
| ExtractionFacts.HarvestBounded | annas_archive.py:30-33 | at most `max_results` records are yielded, and none when it is not positive |
| ExtractionFacts.HarvestIsQualifyingPrefix | annas_archive.py:30-61 | the counter only truncates: with fewer qualifying cards than the bound, the result equals the unbounded loop's; otherwise it is the first `max_results` of them with no failure |
| ExtractionFacts.QualifyingAppend | annas_archive.py:31-61 | records are yielded in page order: two runs of cards yield the first run's records, then, unless it raised, the second's |
| ExtractionFacts.HarvestFromOutcomes | annas_archive.py:47-61 | every yielded record is the outcome of one of the page's cards |
| ExtractionFacts.SearchBounded | annas_archive.py:26-61 | `_search` yields at most `max_results` records |
| ExtractionFacts.ExtractCardWellFormed | annas_archive.py:35-58 | a card that yields gives a non-empty identifier, price `$0.00`, unlocked DRM and a format without lower-case letters |
| ExtractionFacts.ExtractMarkupWellFormed | annas_archive.py:43-58 | the same for a card's markup |
| ExtractionFacts.SearchResultsWellFormed | annas_archive.py:26-61 | every record `_search` yields is well formed in that sense |
| ExtractionFacts.SkippedWithoutId | annas_archive.py:43-45 | a card's markup is skipped exactly when its identifier is empty, which is exactly when every href is empty or ends in `/` |
| ExtractionFacts.DetailIdOfDetailUrl | annas_archive.py:106-107 | a card whose one anchor is the detail URL of `md5` (without `/`) gets `md5` as identifier, so `_get_url` gives that URL back |
| ExtractionFacts.CommentTextRecovered | annas_archive.py:39 | a comment with no trailing text gives back its text when that text does not start or end with a character of `<!->` |
| ExtractionFacts.CommentTailKept | annas_archive.py:39 | when text follows the comment, the comment text does not start with a character of `<!->` and the trailing text does not end with one, the recovered markup is the comment text, `-->` and the trailing text |
| ExtractionFacts.CommentLeadingTagLost | annas_archive.py:39 | comment markup that starts with `<` (followed by a character outside `<!->`) loses that `<` when text follows the comment that does not end with a character of `<!->` |
| ExtractionFacts.InfoFormatFails | annas_archive.py:53-54 | unpacking fails exactly when the `"`-stripped info string has fewer than two commas |
| ExtractionFacts.InfoFormatIsSecondField | annas_archive.py:54-55 | the format is the second field of an unbounded comma split, trimmed and upper-cased |
| ExtractionFacts.ExtensionOfInfoFormat | annas_archive.py:85 | the extension `get_details` looks for is `.` plus the trimmed raw format field, lower-cased |
| ResolutionFacts.JudgeInserts | annas_archive.py:91-102 | a link is inserted iff its href has the extension, its absolute form is probed with an `application` answer, and the key is `<FORMATS> - <link text>` |
| ResolutionFacts.JudgeHalts | annas_archive.py:91-104 | a link raises iff it has no href, or it has the extension and the probe raises an uncaught exception |
| ResolutionFacts.InsertedShape | annas_archive.py:95-102 | every inserted URL ends in `.<formats lower-cased>` and every key starts with `<FORMATS> - ` |
| ResolutionFacts.ResolveKeepsKeys | annas_archive.py:90-104 | the link loop never removes a key from the map |
| ResolutionFacts.ResolveProvenance | annas_archive.py:90-104 | every entry afterwards was there before or was inserted by some link's verdict |
| ResolutionFacts.ResolveFailure | annas_archive.py:90-104 | the loop raises iff some link's verdict raises |
| ResolutionFacts.FirstHaltDecides | annas_archive.py:90-104 | the first link that raises decides the failure, and the map keeps exactly what the links before it inserted |
| ResolutionFacts.ResolveLastWriteWins | annas_archive.py:102 | when no link raises, a key maps to the URL of the last link that inserted it |
| ResolutionFacts.DetailsKeepsKeys | annas_archive.py:81-104 | `get_details` never removes a download from the record |
| ResolutionFacts.DetailsEntries | annas_archive.py:81-104 | every download afterwards was there before, or has the format's extension under a key starting with the format |
| ResolutionFacts.DetailsFailure | annas_archive.py:81-104 | `get_details` returns normally iff the record has no format, or the page was fetched and no link raises |
| PyStr.LStripSpec | annas_archive.py:39 | `lstrip(chars)` leaves a suffix that does not start with a character of `chars` and drops only such characters |
| PyStr.RStripSpec | annas_archive.py:39 | `rstrip(chars)` leaves a prefix that does not end with a character of `chars` and drops only such characters |
| PyStr.StripIdempotent | annas_archive.py:39 | stripping twice with the same characters is stripping once |
| PyStr.LStripDrops | annas_archive.py:39 | `lstrip` removes exactly a leading run of `chars` that stops at a character outside it |
| PyStr.RStripDrops | annas_archive.py:39 | `rstrip` removes exactly a trailing run of `chars` that stops at a character outside it |
| PyStr.ConcatEmpty | annas_archive.py:43-44 | `''.join(parts)` is empty iff every part is |
| PyStr.SplitLength | annas_archive.py:43 | `split(sep)` has one more piece than `sep` occurrences |
| PyStr.SplitPiecesHaveNoSep | annas_archive.py:43 | no piece of `split(sep)` contains `sep` |
| PyStr.JoinSplit | annas_archive.py:43 | joining the pieces of `split(sep)` with `sep` gives the text back |
| PyStr.LastFieldIsSuffix | annas_archive.py:43 | `split(sep)[-1]` is the suffix after the last `sep`, or the whole text when there is none |
| PyStr.LastFieldEmpty | annas_archive.py:43-44 | `split(sep)[-1]` is empty iff the text is empty or ends in `sep` |
| PyStr.LastFieldAfter | annas_archive.py:43 | the text after a `sep` with no later `sep` is `split(sep)[-1]` |
| PyStr.SplitMaxLength | annas_archive.py:54 | `split(sep, n)` has `min(count, n) + 1` pieces |
| PyStr.SplitMaxInnerPiecesHaveNoSep | annas_archive.py:54 | every piece but the last of `split(sep, n)` is free of `sep` |
| PyStr.SplitMaxLastPiece | annas_archive.py:54 | with at most `n` pieces, the last one is free of `sep` too |
| PyStr.SplitMaxAgreesWithSplit | annas_archive.py:54 | the first `n` pieces of `split(sep, n)` are those of `split(sep)` |
| PyStr.JoinSplitMax | annas_archive.py:54 | joining the pieces of `split(sep, n)` with `sep` gives the text back |
| PyStr.LowerUpper | annas_archive.py:85 | lower-casing after upper-casing equals lower-casing |
| PyStr.EndsWithAppend | annas_archive.py:95-98 | prefixing the base URL keeps the extension suffix |

## Left out

- The network: `browser()`, `urlopen`, `closing` and the `timeout` arguments are not modelled. Page fetches and HEAD probes are parameters, and timeouts are part of the probe's outcome.
- HTML parsing and the XPath queries: a page is the sequence of its result cards, and a card holds what its queries return. Re-parsing a comment is a parameter. lxml's serialisation is modelled without escaping and on characters rather than bytes.
- `quote_plus`: `Search` takes the already-encoded query.
- Default arguments: `search`'s default `max_results=10` is not modelled; the caller passes the bound. The `timeout=60` defaults go with the network.
- `open` (the store dialog and external browser) belongs to the host UI and is not modelled.
- Generator laziness: the model produces the whole sequence a full consumer would see, plus the exception that ends it. A consumer that stops early is not modelled.
- The HEAD probe is a function of the link's position and URL. Answers that change with time beyond that are not modelled.
- `upper`, `lower` and argument-less `strip` are restricted to ASCII letters and ASCII whitespace.
- The host's `SearchResult` class: only the fields this plugin sets are modelled. A new record starts with an empty `downloads` map. `calibre/gui2/store/search_result.py` is not part of this model.
