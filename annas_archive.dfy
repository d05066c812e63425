/**
  The Anna's Archive store plugin: turning a search-results page into listings
  (`_search`), resolving one listing's download links (`get_details`) and the two URL
  templates (`_get_url`, and the one `search` builds).

  The network and the HTML parser are inputs. A page fetch is a function from URL to
  the parsed page, `None` when opening the page or parsing its body raises; re-parsing the text of a comment is a
  function from text to the parsed card, `None` when the parser raises; a HEAD probe is
  a function from the link's position and URL to its outcome.
 */
module AnnasArchive {

  import opened Wrappers
  import opened PyStr

  const BaseUrl: string := "https://annas-archive.org"

  /** Every listing is free. */
  const Price: string := "$0.00"

  /** The host record's DRM states. */
  datatype Drm = DrmLocked | DrmUnlocked | DrmUnknown

  /** Exceptions that leave the store's procedures and reach the host. */
  datatype Failure =
    | NetworkError  // opening or parsing the search page or the detail page raised
    | MarkupError   // the parser rejected the text recovered from a comment
    | UnpackError   // the info string had fewer than three comma-separated fields
    | MissingHref   // a download anchor had no href attribute
    | ProbeError    // the HEAD probe raised something other than the errors it ignores

  /** `_get_url`: the detail page of an archive entry. */
  function GetUrl(md5: string): string
  {
    BaseUrl + "/md5/" + md5
  }

  /** The URL `search` fetches, given the query already URL-encoded. */
  function SearchUrl(encodedQuery: string): string
  {
    BaseUrl + "/search?q=" + encodedQuery
  }

  // ---------------------------------------------------------------------------
  // Result extraction

  /**
    What the card's relative XPath queries return: the anchors' hrefs, the cover image
    sources, and the title, author and info texts, each in document order.
   */
  datatype Markup = Markup(hrefs: seq<string>, coverSrcs: seq<string>, titleTexts: seq<string>,
                           authorTexts: seq<string>, infoTexts: seq<string>)

  /**
    One result card: it has element children; or it has none but a first comment child
    (its text, and the tail text that follows it inside the card); or it has neither.
   */
  datatype Card = Elements(markup: Markup) | CommentOnly(text: string, tail: string) | Bare

  /** The fields `_search` sets on a result record. */
  datatype Listing = Listing(detailItem: string, coverUrl: string, title: string, author: string,
                             formats: string, price: string, drm: Drm)

  datatype CardOutcome = Skip | Yield(listing: Listing) | Abort(failure: Failure)

  /** The results yielded, in order, and the exception that ended the sequence, if any. */
  datatype SearchOutcome = SearchOutcome(results: seq<Listing>, failure: Option<Failure>)

  /** Serialising a comment node: the comment markup followed by the node's tail text. */
  function SerializeComment(text: string, tail: string): string
  {
    "<!--" + text + "-->" + tail
  }

  /** The serialised comment stripped of the characters of `<!--` and then of `-->`. */
  function UnwrapComment(text: string, tail: string): string
  {
    Strip(Strip(SerializeComment(text, tail), "<!--"), "-->")
  }

  /** The identifier of a card: the text after the last `/` of each href, joined. */
  function DetailId(hrefs: seq<string>): string
  {
    Concat(seq(|hrefs|, k requires 0 <= k < |hrefs| => LastField(hrefs[k], '/')))
  }

  /**
    The format field of the info string: strip every `"` at both ends, split at the
    first three commas, unpack into language, format, size and the rest; `None` when
    the unpacking fails. The format is trimmed and upper-cased.
   */
  function InfoFormat(info: string): Option<string>
  {
    var fields := SplitMax(Strip(info, "\""), ',', 3);
    if |fields| < 3 then None else Some(Upper(Trim(fields[1])))
  }

  /** What the loop body does with one card whose markup is known. */
  function ExtractMarkup(book: Markup): CardOutcome
  {
    var hashId := DetailId(book.hrefs);
    if hashId == "" then Skip
    else
      match InfoFormat(Concat(book.infoTexts))
      case None => Abort(UnpackError)
      case Some(format) =>
        Yield(Listing(hashId, Concat(book.coverSrcs), Concat(book.titleTexts),
                      Concat(book.authorTexts), format, Price, DrmUnlocked))
  }

  /** What the loop body does with one card. */
  function ExtractCard(card: Card, parse: string -> Option<Markup>): CardOutcome
  {
    match card
    case Bare => Skip
    case Elements(book) => ExtractMarkup(book)
    case CommentOnly(text, tail) =>
      match parse(UnwrapComment(text, tail))
      case None => Abort(MarkupError)
      case Some(book) => ExtractMarkup(book)
  }

  /** The loop body as a function from card to outcome. */
  function CardExtractor(parse: string -> Option<Markup>): Card -> CardOutcome
  {
    card => ExtractCard(card, parse)
  }

  /**
    `extract` gives the outcome of the loop body on every card. The trigger keeps the
    definition of the loop body out of proofs that only use `extract`.
   */
  ghost predicate LoopBody(extract: Card -> CardOutcome, parse: string -> Option<Markup>)
  {
    forall card {:trigger ExtractCard(card, parse)} :: extract(card) == ExtractCard(card, parse)
  }

  /** What `extract` gives for each card of the page, in page order. */
  function Outcomes(cards: seq<Card>, extract: Card -> CardOutcome): (r: seq<CardOutcome>)
    ensures |r| == |cards|
  {
    seq(|cards|, i requires 0 <= i < |cards| => extract(cards[i]))
  }

  /** What the loop body does with each card of the page, in page order. */
  function CardOutcomes(cards: seq<Card>, parse: string -> Option<Markup>): seq<CardOutcome>
  {
    Outcomes(cards, CardExtractor(parse))
  }

  /**
    The counter loop of `_search` over the cards' outcomes, with `counter` results still
    allowed: it stops before a card once the counter is used up.
   */
  function Harvest(outcomes: seq<CardOutcome>, counter: int): SearchOutcome
    decreases |outcomes|
  {
    if |outcomes| == 0 || counter <= 0 then SearchOutcome([], None)
    else
      match outcomes[0]
      case Skip => Harvest(outcomes[1..], counter)
      case Abort(f) => SearchOutcome([], Some(f))
      case Yield(l) =>
        var rest := Harvest(outcomes[1..], counter - 1);
        SearchOutcome([l] + rest.results, rest.failure)
  }

  /** The loop without a bound: every qualifying card, up to the first exception. */
  function Qualifying(outcomes: seq<CardOutcome>): SearchOutcome
    decreases |outcomes|
  {
    if |outcomes| == 0 then SearchOutcome([], None)
    else
      match outcomes[0]
      case Skip => Qualifying(outcomes[1..])
      case Abort(f) => SearchOutcome([], Some(f))
      case Yield(l) =>
        var rest := Qualifying(outcomes[1..]);
        SearchOutcome([l] + rest.results, rest.failure)
  }

  /** The outcome `o` with `listed` yielded before it. */
  function Behind(listed: seq<Listing>, o: SearchOutcome): SearchOutcome
  {
    SearchOutcome(listed + o.results, o.failure)
  }

  /** `_search(url, maxResults)`: fetch the page, then run the card loop. */
  function SearchSpec(url: string, maxResults: int, fetch: string -> Option<seq<Card>>,
                      parse: string -> Option<Markup>): SearchOutcome
  {
    match fetch(url)
    case None => SearchOutcome([], Some(NetworkError))
    case Some(cards) => Harvest(CardOutcomes(cards, parse), maxResults)
  }

  // One turn of the counter loop at card `i`, with `counter > 0` results still allowed
  // and `listed` yielded so far.

  /** A skipped card changes nothing. */
  lemma SkipStep(outcomes: seq<CardOutcome>, i: nat, counter: int, listed: seq<Listing>)
    requires i < |outcomes| && counter > 0 && outcomes[i] == Skip
    ensures Behind(listed, Harvest(outcomes[i..], counter))
         == Behind(listed, Harvest(outcomes[i + 1..], counter))
  {
    assert outcomes[i..][1..] == outcomes[i + 1..];
  }

  /** A qualifying card is yielded next and uses up one unit of the counter. */
  lemma YieldStep(outcomes: seq<CardOutcome>, i: nat, counter: int, listed: seq<Listing>, l: Listing)
    requires i < |outcomes| && counter > 0 && outcomes[i] == Yield(l)
    ensures Behind(listed, Harvest(outcomes[i..], counter))
         == Behind(listed + [l], Harvest(outcomes[i + 1..], counter - 1))
  {
    assert outcomes[i..][1..] == outcomes[i + 1..];
    var rest := Harvest(outcomes[i + 1..], counter - 1);
    assert listed + ([l] + rest.results) == (listed + [l]) + rest.results;
  }

  /** An exception ends the sequence after what was yielded so far. */
  lemma AbortStep(outcomes: seq<CardOutcome>, i: nat, counter: int, listed: seq<Listing>, f: Failure)
    requires i < |outcomes| && counter > 0 && outcomes[i] == Abort(f)
    ensures Behind(listed, Harvest(outcomes[i..], counter)) == SearchOutcome(listed, Some(f))
  {
    assert outcomes[i..][0] == outcomes[i];
  }

  // ---------------------------------------------------------------------------
  // Download resolution

  /** A download anchor of the detail page: its href attribute, if any, and its text. */
  datatype Link = Link(href: Option<string>, text: string)

  /**
    The outcome of the HEAD probe: a response with the main type of its content type;
    one of the errors the probe ignores (HTTP error, URL error, timeout, remote
    disconnect); or any other exception.
   */
  datatype Probe = Answered(mainType: string) | Refused | Crashed

  /** What the loop of `get_details` does with one link. */
  datatype Verdict = Ignore | Insert(key: string, url: string) | Halt(failure: Failure)

  /** The download map and the exception that ended resolution, if any. */
  datatype Resolution = Resolution(downloads: map<string, string>, failure: Option<Failure>)

  /** The suffix a link must have: `'.' + formats.lower()`. */
  function Extension(formats: string): string
  {
    "." + Lower(formats)
  }

  /** The key a download is stored under. */
  function DownloadKey(formats: string, text: string): string
  {
    formats + " - " + text
  }

  /** A link starting with `/` is made absolute by prefixing the base URL. */
  function Absolute(url: string): string
    requires |url| > 0
  {
    if url[0] == '/' then BaseUrl + url else url
  }

  /** The decision for link number `i`; it does not depend on the map so far. */
  function Judge(formats: string, link: Link, i: nat, probe: (nat, string) -> Probe): Verdict
  {
    match link.href
    case None => Halt(MissingHref)
    case Some(href) =>
      if !EndsWith(href, Extension(formats)) then Ignore
      else
        var url := Absolute(href);
        match probe(i, url)
        case Refused => Ignore
        case Crashed => Halt(ProbeError)
        case Answered(mainType) =>
          if mainType == "application" then Insert(DownloadKey(formats, link.text), url) else Ignore
  }

  /** The loop body of `get_details` as a function of the link and its position. */
  function LinkJudge(formats: string, probe: (nat, string) -> Probe): (Link, nat) -> Verdict
  {
    (link: Link, i: nat) => Judge(formats, link, i, probe)
  }

  /**
    `judge` gives the verdict of the loop body on every link. The trigger keeps the
    definition of the loop body out of proofs that only use `judge`.
   */
  ghost predicate LinkBody(judge: (Link, nat) -> Verdict, formats: string, probe: (nat, string) -> Probe)
  {
    forall link, i {:trigger Judge(formats, link, i, probe)} :: judge(link, i) == Judge(formats, link, i, probe)
  }

  /** What `judge` gives for each link, in page order. */
  function Judged(links: seq<Link>, judge: (Link, nat) -> Verdict): (r: seq<Verdict>)
    ensures |r| == |links|
  {
    seq(|links|, i requires 0 <= i < |links| => judge(links[i], i))
  }

  /** The verdict on every link of the detail page, in page order. */
  function Verdicts(formats: string, links: seq<Link>, probe: (nat, string) -> Probe): seq<Verdict>
  {
    Judged(links, LinkJudge(formats, probe))
  }

  /**
    The download map, starting from `d`, after the loop has acted on `verdicts` in order;
    an exception ends the loop, and the map keeps what was inserted before it.
   */
  function Resolve(d: map<string, string>, verdicts: seq<Verdict>): Resolution
  {
    if |verdicts| == 0 then Resolution(d, None)
    else
      var prev := Resolve(d, verdicts[..|verdicts| - 1]);
      if prev.failure.Some? then prev
      else
        match verdicts[|verdicts| - 1]
        case Ignore => prev
        case Insert(key, url) => Resolution(prev.downloads[key := url], None)
        case Halt(f) => Resolution(prev.downloads, Some(f))
  }

  /** `get_details` on a record with map `d`, format `formats` and identifier `detailItem`. */
  function Details(d: map<string, string>, formats: string, detailItem: string,
                   fetch: string -> Option<seq<Link>>, probe: (nat, string) -> Probe): Resolution
  {
    if formats == "" then Resolution(d, None)
    else
      match fetch(GetUrl(detailItem))
      case None => Resolution(d, Some(NetworkError))
      case Some(links) => Resolve(d, Verdicts(formats, links, probe))
  }

  /** Once a link has raised, the links after it are never looked at. */
  lemma {:induction false} ResolveStaysHalted(d: map<string, string>, verdicts: seq<Verdict>, n: nat, m: nat)
    requires n <= m <= |verdicts|
    requires Resolve(d, verdicts[..n]).failure.Some?
    ensures Resolve(d, verdicts[..m]) == Resolve(d, verdicts[..n])
    decreases m
  {
    if m > n {
      ResolveStaysHalted(d, verdicts, n, m - 1);
      assert verdicts[..m][..m - 1] == verdicts[..m - 1];
    }
  }

  // ---------------------------------------------------------------------------
  // The host's search-result record and the store's procedures

  class SearchResult {
    var detailItem: string
    var coverUrl: string
    var title: string
    var author: string
    var formats: string
    var price: string
    var drm: Drm
    var downloads: map<string, string>

    /** A record holding one extracted listing and no downloads yet. */
    constructor (l: Listing)
      ensures Fields() == l && downloads == map[]
    {
      detailItem, coverUrl, title, author := l.detailItem, l.coverUrl, l.title, l.author;
      formats, price, drm := l.formats, l.price, l.drm;
      downloads := map[];
    }

    /** The extracted fields of the record. */
    function Fields(): Listing
      reads this
    {
      Listing(detailItem, coverUrl, title, author, formats, price, drm)
    }
  }

  /**
    The body of the card loop for one card: fall back to the comment's text when the
    card has no element children, skip it without an identifier, unpack its info.
   */
  method ReadCard(data: Card, parse: string -> Option<Markup>, ghost extract: Card -> CardOutcome)
    returns (outcome: CardOutcome)
    requires LoopBody(extract, parse)
    ensures outcome == extract(data)
  {
    assert extract(data) == ExtractCard(data, parse);
    var book: Markup;
    match data {
      case Bare =>
        return Skip;
      case Elements(m) =>
        book := m;
      case CommentOnly(text, tail) =>
        var parsed := parse(UnwrapComment(text, tail));
        if parsed.None? {
          return Abort(MarkupError);
        }
        book := parsed.value;
    }
    var hashId := DetailId(book.hrefs);
    if hashId == "" {
      return Skip;
    }
    var format := InfoFormat(Concat(book.infoTexts));
    if format.None? {
      return Abort(UnpackError);
    }
    outcome := Yield(Listing(hashId, Concat(book.coverSrcs), Concat(book.titleTexts),
                             Concat(book.authorTexts), format.value, Price, DrmUnlocked));
  }

  /**
    The card loop of `_search`: walk the cards in page order, yielding one fresh record
    per qualifying card until `maxResults` records have been yielded; `extract` is the
    outcome of the loop body.
   */
  method Collect(cards: seq<Card>, maxResults: int, parse: string -> Option<Markup>,
                 ghost extract: Card -> CardOutcome)
    returns (results: seq<SearchResult>, failure: Option<Failure>)
    requires LoopBody(extract, parse)
    ensures |results| == |Harvest(Outcomes(cards, extract), maxResults).results|
    ensures failure == Harvest(Outcomes(cards, extract), maxResults).failure
    ensures forall k :: 0 <= k < |results| ==> fresh(results[k])
    ensures forall j, k :: 0 <= j < k < |results| ==> results[j] != results[k]
    ensures forall k :: 0 <= k < |results| ==> results[k].Fields() == Harvest(Outcomes(cards, extract), maxResults).results[k]
    ensures forall k :: 0 <= k < |results| ==> results[k].downloads == map[]
  {
    results, failure := [], None;
    ghost var outcomes := Outcomes(cards, extract);
    ghost var listed: seq<Listing> := [];
    var counter := maxResults;
    var i := 0;
    while i < |cards|
      invariant 0 <= i <= |cards|
      invariant counter == maxResults - |results|
      invariant Harvest(outcomes, maxResults) == Behind(listed, Harvest(outcomes[i..], counter))
      invariant |listed| == |results|
      invariant forall k :: 0 <= k < |results| ==>
                  fresh(results[k]) && results[k].Fields() == listed[k] && results[k].downloads == map[]
      invariant forall j, k :: 0 <= j < k < |results| ==> results[j] != results[k]
    {
      if counter <= 0 {
        break;
      }
      var outcome := ReadCard(cards[i], parse, extract);
      match outcome {
        case Skip =>
          SkipStep(outcomes, i, counter, listed);
        case Abort(f) =>
          AbortStep(outcomes, i, counter, listed, f);
          failure := Some(f);
          return;
        case Yield(l) =>
          YieldStep(outcomes, i, counter, listed, l);
          var s := new SearchResult(l);
          ghost var before := results;
          results := results + [s];
          listed := listed + [l];
          counter := counter - 1;
          assert forall k :: 0 <= k < |before| ==> results[k] == before[k];
      }
      i := i + 1;
    }
  }

  /** `_search`: fetch `url`, then run the card loop on its cards. */
  method RunSearch(url: string, maxResults: int, fetch: string -> Option<seq<Card>>,
                   parse: string -> Option<Markup>)
    returns (results: seq<SearchResult>, failure: Option<Failure>)
    ensures |results| == |SearchSpec(url, maxResults, fetch, parse).results|
    ensures failure == SearchSpec(url, maxResults, fetch, parse).failure
    ensures forall k :: 0 <= k < |results| ==> fresh(results[k])
    ensures forall j, k :: 0 <= j < k < |results| ==> results[j] != results[k]
    ensures forall k :: 0 <= k < |results| ==> results[k].Fields() == SearchSpec(url, maxResults, fetch, parse).results[k]
    ensures forall k :: 0 <= k < |results| ==> results[k].downloads == map[]
  {
    var page := fetch(url);
    if page.None? {
      return [], Some(NetworkError);
    }
    results, failure := Collect(page.value, maxResults, parse, CardExtractor(parse));
  }

  /** `search`: run `_search` on the search URL of the (already encoded) query. */
  method Search(encodedQuery: string, maxResults: int, fetch: string -> Option<seq<Card>>,
                parse: string -> Option<Markup>)
    returns (results: seq<SearchResult>, failure: Option<Failure>)
    ensures |results| == |SearchSpec(SearchUrl(encodedQuery), maxResults, fetch, parse).results|
    ensures failure == SearchSpec(SearchUrl(encodedQuery), maxResults, fetch, parse).failure
    ensures forall k :: 0 <= k < |results| ==> fresh(results[k])
    ensures forall j, k :: 0 <= j < k < |results| ==> results[j] != results[k]
    ensures forall k :: 0 <= k < |results| ==>
              results[k].Fields() == SearchSpec(SearchUrl(encodedQuery), maxResults, fetch, parse).results[k]
    ensures forall k :: 0 <= k < |results| ==> results[k].downloads == map[]
  {
    results, failure := RunSearch(SearchUrl(encodedQuery), maxResults, fetch, parse);
  }

  /**
    The body of the link loop of `get_details` for link number `i`: skip a link without
    the extension, make it absolute, probe it, and keep it when the probe reports an
    `application` content type.
   */
  method JudgeLink(formats: string, ext: string, link: Link, i: nat, probe: (nat, string) -> Probe,
                   ghost judge: (Link, nat) -> Verdict)
    returns (verdict: Verdict)
    requires ext == Extension(formats) && LinkBody(judge, formats, probe)
    ensures verdict == judge(link, i)
  {
    assert judge(link, i) == Judge(formats, link, i, probe);
    if link.href.None? {
      return Halt(MissingHref);
    }
    var url := link.href.value;
    if !EndsWith(url, ext) {
      return Ignore;
    }
    if url[0] == '/' {
      url := BaseUrl + url;
    }
    match probe(i, url) {
      case Refused =>
        verdict := Ignore;
      case Crashed =>
        verdict := Halt(ProbeError);
      case Answered(mainType) =>
        verdict := if mainType == "application" then Insert(formats + " - " + link.text, url) else Ignore;
    }
  }

  /**
    The link loop of `get_details`: act on every link in page order, inserting the
    downloads the loop body accepts, until a link raises; `judge` is the verdict of the
    loop body.
   */
  method ResolveLinks(sr: SearchResult, ext: string, links: seq<Link>, probe: (nat, string) -> Probe,
                      ghost judge: (Link, nat) -> Verdict)
    returns (failure: Option<Failure>)
    requires ext == Extension(sr.formats) && LinkBody(judge, sr.formats, probe)
    modifies sr`downloads
    ensures Resolve(old(sr.downloads), Judged(links, judge)) == Resolution(sr.downloads, failure)
  {
    ghost var d0 := sr.downloads;
    ghost var verdicts := Judged(links, judge);
    var i := 0;
    while i < |links|
      invariant 0 <= i <= |links|
      invariant Resolve(d0, verdicts[..i]) == Resolution(sr.downloads, None)
    {
      var verdict := JudgeLink(sr.formats, ext, links[i], i, probe, judge);
      assert verdicts[..i + 1][..i] == verdicts[..i];
      match verdict {
        case Ignore =>
        case Insert(key, url) =>
          sr.downloads := sr.downloads[key := url];
        case Halt(f) =>
          ResolveStaysHalted(d0, verdicts, i + 1, |links|);
          assert verdicts[..|links|] == verdicts;
          return Some(f);
      }
      i := i + 1;
    }
    assert verdicts[..i] == verdicts;
    failure := None;
  }

  /**
    `get_details`: unless the record has no format, fetch its detail page and insert
    every download link that has the format's extension and whose probe reports an
    `application` content type. Only `downloads` changes.
   */
  method GetDetails(sr: SearchResult, fetch: string -> Option<seq<Link>>, probe: (nat, string) -> Probe)
    returns (failure: Option<Failure>)
    modifies sr`downloads
    ensures sr.downloads == Details(old(sr.downloads), sr.formats, sr.detailItem, fetch, probe).downloads
    ensures failure == Details(old(sr.downloads), sr.formats, sr.detailItem, fetch, probe).failure
    ensures sr.formats == "" ==> sr.downloads == old(sr.downloads) && failure == None
  {
    if sr.formats == "" {
      return None;
    }
    var ext := "." + Lower(sr.formats);
    var page := fetch(GetUrl(sr.detailItem));
    if page.None? {
      return Some(NetworkError);
    }
    failure := ResolveLinks(sr, ext, page.value, probe, LinkJudge(sr.formats, probe));
  }
}
