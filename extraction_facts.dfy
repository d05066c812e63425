/**
  Properties of result extraction in `_search`: the counter bound, the order in which
  listings are yielded, what a yielded listing looks like, how a card's identifier
  relates to its detail page, and what the comment fallback and the info unpacking
  recover.
 */
module ExtractionFacts {

  import opened Wrappers
  import opened PyStr
  import opened AnnasArchive

  // ---------------------------------------------------------------------------
  // The counter loop

  /** At most `maxResults` listings are yielded, and none when it is not positive. */
  lemma {:induction false} HarvestBounded(outcomes: seq<CardOutcome>, counter: int)
    ensures |Harvest(outcomes, counter).results| <= (if counter <= 0 then 0 else counter)
    ensures counter <= 0 ==> Harvest(outcomes, counter) == SearchOutcome([], None)
    decreases |outcomes|
  {
    if |outcomes| > 0 && counter > 0 {
      match outcomes[0]
      case Skip => HarvestBounded(outcomes[1..], counter);
      case Abort(_) =>
      case Yield(_) => HarvestBounded(outcomes[1..], counter - 1);
    }
  }

  /**
    The counter only cuts the sequence short: with fewer qualifying cards than the
    bound the loop yields all of them and ends as the unbounded loop does; otherwise it
    yields the first `maxResults` of them and stops before it can raise.
   */
  lemma {:induction false} HarvestIsQualifyingPrefix(outcomes: seq<CardOutcome>, counter: int)
    ensures |Qualifying(outcomes).results| < counter ==> Harvest(outcomes, counter) == Qualifying(outcomes)
    ensures counter <= |Qualifying(outcomes).results| ==>
              Harvest(outcomes, counter).results == Qualifying(outcomes).results[..if counter < 0 then 0 else counter]
              && Harvest(outcomes, counter).failure == None
    decreases |outcomes|
  {
    if |outcomes| > 0 && counter > 0 {
      match outcomes[0]
      case Skip => HarvestIsQualifyingPrefix(outcomes[1..], counter);
      case Abort(_) =>
      case Yield(l) =>
        HarvestIsQualifyingPrefix(outcomes[1..], counter - 1);
        var rest := Qualifying(outcomes[1..]);
        if counter - 1 <= |rest.results| {
          assert ([l] + rest.results)[..counter] == [l] + rest.results[..counter - 1];
        }
    }
  }

  /**
    Listings come out in page order: the unbounded loop over two runs of cards yields
    those of the first run, then, unless the first run raised, those of the second.
   */
  lemma {:induction false} QualifyingAppend(a: seq<CardOutcome>, b: seq<CardOutcome>)
    ensures Qualifying(a + b)
         == if Qualifying(a).failure.Some? then Qualifying(a) else Behind(Qualifying(a).results, Qualifying(b))
    decreases |a|
  {
    if |a| == 0 {
      assert a + b == b;
    } else {
      assert (a + b)[0] == a[0];
      assert (a + b)[1..] == a[1..] + b;
      QualifyingAppend(a[1..], b);
      match a[0]
      case Skip =>
      case Abort(_) =>
      case Yield(l) =>
        var ra := Qualifying(a[1..]);
        assert [l] + (ra.results + Qualifying(b).results) == ([l] + ra.results) + Qualifying(b).results;
    }
  }

  /** Every yielded listing is the outcome of some card. */
  lemma {:induction false} HarvestFromOutcomes(outcomes: seq<CardOutcome>, counter: int)
    ensures forall k :: 0 <= k < |Harvest(outcomes, counter).results| ==>
              Yield(Harvest(outcomes, counter).results[k]) in outcomes
    decreases |outcomes|
  {
    if |outcomes| > 0 && counter > 0 {
      match outcomes[0]
      case Skip =>
        HarvestFromOutcomes(outcomes[1..], counter);
        assert forall o :: o in outcomes[1..] ==> o in outcomes;
      case Abort(_) =>
      case Yield(l) =>
        HarvestFromOutcomes(outcomes[1..], counter - 1);
        assert forall o :: o in outcomes[1..] ==> o in outcomes;
    }
  }

  /** `_search` yields at most `maxResults` records. */
  lemma SearchBounded(url: string, maxResults: int, fetch: string -> Option<seq<Card>>,
                      parse: string -> Option<Markup>)
    ensures |SearchSpec(url, maxResults, fetch, parse).results| <= (if maxResults <= 0 then 0 else maxResults)
  {
    if fetch(url).Some? {
      HarvestBounded(CardOutcomes(fetch(url).value, parse), maxResults);
    }
  }

  // ---------------------------------------------------------------------------
  // Yielded listings

  /**
    What every yielded record carries: a non-empty identifier, the fixed price, the
    unlocked DRM state, and a format without lower-case ASCII letters.
   */
  predicate WellFormed(l: Listing)
  {
    && l.detailItem != ""
    && l.price == Price
    && l.drm == DrmUnlocked
    && forall i :: 0 <= i < |l.formats| ==> !('a' <= l.formats[i] <= 'z')
  }

  /** One card never yields a listing that is not well formed. */
  lemma ExtractCardWellFormed(card: Card, parse: string -> Option<Markup>)
    ensures ExtractCard(card, parse).Yield? ==> WellFormed(ExtractCard(card, parse).listing)
  {
    var book: Markup;
    match card
    case Bare =>
    case Elements(m) => book := m; ExtractMarkupWellFormed(book);
    case CommentOnly(text, tail) =>
      if parse(UnwrapComment(text, tail)).Some? {
        ExtractMarkupWellFormed(parse(UnwrapComment(text, tail)).value);
      }
  }

  /** Markup that yields a listing yields a well-formed one. */
  lemma ExtractMarkupWellFormed(book: Markup)
    ensures ExtractMarkup(book).Yield? ==> WellFormed(ExtractMarkup(book).listing)
  {
    var info := Concat(book.infoTexts);
    if InfoFormat(info).Some? {
      var f := Trim(SplitMax(Strip(info, "\""), ',', 3)[1]);
      assert forall i :: 0 <= i < |Upper(f)| ==> Upper(f)[i] == UpperChar(f[i]);
    }
  }

  /** Every record `_search` yields is well formed. */
  lemma SearchResultsWellFormed(url: string, maxResults: int, fetch: string -> Option<seq<Card>>,
                                parse: string -> Option<Markup>)
    ensures forall k :: 0 <= k < |SearchSpec(url, maxResults, fetch, parse).results| ==>
              WellFormed(SearchSpec(url, maxResults, fetch, parse).results[k])
  {
    if fetch(url).Some? {
      var cards := fetch(url).value;
      var outcomes := CardOutcomes(cards, parse);
      HarvestFromOutcomes(outcomes, maxResults);
      forall k | 0 <= k < |Harvest(outcomes, maxResults).results|
        ensures WellFormed(Harvest(outcomes, maxResults).results[k])
      {
        var l := Harvest(outcomes, maxResults).results[k];
        var i :| 0 <= i < |outcomes| && outcomes[i] == Yield(l);
        ExtractCardWellFormed(cards[i], parse);
      }
    }
  }

  // ---------------------------------------------------------------------------
  // Identifiers and detail pages

  /**
    A card's markup is skipped exactly when its identifier is empty, that is when every
    href is empty or ends in `/`.
   */
  lemma SkippedWithoutId(book: Markup)
    ensures ExtractMarkup(book).Skip? <==> DetailId(book.hrefs) == ""
    ensures DetailId(book.hrefs) == "" <==> forall k :: 0 <= k < |book.hrefs| ==> LastField(book.hrefs[k], '/') == ""
    ensures DetailId(book.hrefs) == "" <==>
              forall k :: 0 <= k < |book.hrefs| ==> |book.hrefs[k]| == 0 || book.hrefs[k][|book.hrefs[k]| - 1] == '/'
  {
    var hrefs := book.hrefs;
    var parts := seq(|hrefs|, k requires 0 <= k < |hrefs| => LastField(hrefs[k], '/'));
    assert DetailId(hrefs) == Concat(parts);
    ConcatEmpty(parts);
    assert forall k :: 0 <= k < |hrefs| ==> parts[k] == LastField(hrefs[k], '/');
    forall k | 0 <= k < |hrefs| {
      LastFieldEmpty(hrefs[k], '/');
    }
  }

  /**
    A card whose one anchor links to the detail page of `md5` gets `md5` as its
    identifier, so `get_details` fetches that same page.
   */
  lemma DetailIdOfDetailUrl(md5: string)
    requires '/' !in md5
    ensures DetailId([GetUrl(md5)]) == md5
    ensures GetUrl(DetailId([GetUrl(md5)])) == GetUrl(md5)
  {
    assert GetUrl(md5) == (BaseUrl + "/md5") + ['/'] + md5;
    LastFieldAfter(BaseUrl + "/md5", '/', md5);
    var parts := seq(1, k requires 0 <= k < 1 => LastField([GetUrl(md5)][k], '/'));
    assert parts == [md5];
    assert Concat(parts) == md5 + Concat([]);
  }

  // ---------------------------------------------------------------------------
  // The comment fallback

  /**
    A comment with nothing after it inside the card gives back its text, provided the
    text neither starts nor ends with a character of `<!->`.
   */
  lemma CommentTextRecovered(text: string)
    requires |text| > 0 && text[0] !in "<!->" && text[|text| - 1] !in "<!->"
    ensures UnwrapComment(text, "") == text
  {
    var x := SerializeComment(text, "");
    assert x == "<!--" + (text + "-->");
    LStripDrops("<!--", text + "-->", "<!--");
    assert (text + "-->")[|text + "-->"| - 1] == '>';
    RStripDrops(text + "-->", "", "<!--");
    assert text + "-->" + "" == text + "-->";
    LStripDrops("", text + "-->", "-->");
    assert "" + (text + "-->") == text + "-->";
    RStripDrops(text, "-->", "-->");
  }

  /**
    When text follows the comment inside the card, that text is kept and the closing
    `-->` survives between the two, provided the comment text does not start and the
    trailing text does not end with a character of `<!->`.
   */
  lemma CommentTailKept(text: string, tail: string)
    requires |text| > 0 && text[0] !in "<!->"
    requires |tail| > 0 && tail[|tail| - 1] !in "<!->"
    ensures UnwrapComment(text, tail) == text + "-->" + tail
  {
    var body := text + "-->" + tail;
    assert SerializeComment(text, tail) == "<!--" + body;
    assert body[0] == text[0];
    assert body[|body| - 1] == tail[|tail| - 1];
    LStripDrops("<!--", body, "<!--");
    RStripDrops(body, "", "<!--");
    assert body + "" == body;
    LStripDrops("", body, "-->");
    assert "" + body == body;
    RStripDrops(body, "", "-->");
  }

  /**
    Markup that starts with `<` right after the comment's opening loses that `<`: it
    belongs to the stripped character set, so only padded markup comes back intact.
   */
  lemma CommentLeadingTagLost(text: string, tail: string)
    requires |text| > 1 && text[0] == '<' && text[1] !in "<!->"
    requires |tail| > 0 && tail[|tail| - 1] !in "<!->"
    ensures UnwrapComment(text, tail) == text[1..] + "-->" + tail
  {
    var body := text[1..] + "-->" + tail;
    assert SerializeComment(text, tail) == "<!--<" + body;
    assert body[0] == text[1];
    assert body[|body| - 1] == tail[|tail| - 1];
    LStripDrops("<!--<", body, "<!--");
    RStripDrops(body, "", "<!--");
    assert body + "" == body;
    LStripDrops("", body, "-->");
    assert "" + body == body;
    RStripDrops(body, "", "-->");
  }

  // ---------------------------------------------------------------------------
  // The info string

  /** Unpacking fails exactly when the stripped info string has fewer than two commas. */
  lemma InfoFormatFails(info: string)
    ensures InfoFormat(info).None? <==> Count(Strip(info, "\""), ',') < 2
  {
    SplitMaxLength(Strip(info, "\""), ',', 3);
  }

  /**
    The format is the second comma-separated field of the stripped info string, as an
    unbounded split would give it, trimmed and upper-cased.
   */
  lemma InfoFormatIsSecondField(info: string)
    requires InfoFormat(info).Some?
    ensures |Split(Strip(info, "\""), ',')| >= 3
    ensures InfoFormat(info).value == Upper(Trim(Split(Strip(info, "\""), ',')[1]))
  {
    var s := Strip(info, "\"");
    InfoFormatFails(info);
    SplitLength(s, ',');
    SplitMaxAgreesWithSplit(s, ',', 3, 1);
  }

  /**
    The extension `get_details` looks for on a listing's links is `.` and the trimmed
    format field of the info string, lower-cased: the upper-casing done at extraction
    is undone.
   */
  lemma ExtensionOfInfoFormat(info: string)
    requires InfoFormat(info).Some?
    ensures |SplitMax(Strip(info, "\""), ',', 3)| >= 3
    ensures Extension(InfoFormat(info).value) == "." + Lower(Trim(SplitMax(Strip(info, "\""), ',', 3)[1]))
  {
    LowerUpper(Trim(SplitMax(Strip(info, "\""), ',', 3)[1]));
  }
}
