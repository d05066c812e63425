/**
  Properties of download resolution in `get_details`: which links are inserted and
  under what key, that nothing is ever removed from the map, where every entry comes
  from, which insertion wins, and when the procedure raises.
 */
module ResolutionFacts {

  import opened Wrappers
  import opened PyStr
  import opened AnnasArchive

  // ---------------------------------------------------------------------------
  // One link

  /**
    A link is inserted exactly when it has an href ending in the format's extension
    whose absolute form the probe answers with an `application` content type; it is
    stored under the format and the link text, as that absolute URL.
   */
  lemma JudgeInserts(formats: string, link: Link, i: nat, probe: (nat, string) -> Probe, key: string, url: string)
    ensures Judge(formats, link, i, probe) == Insert(key, url)
        <==> && link.href.Some? && EndsWith(link.href.value, Extension(formats))
             && |link.href.value| > 0 && url == Absolute(link.href.value)
             && probe(i, url) == Answered("application")
             && key == DownloadKey(formats, link.text)
  {
  }

  /**
    A link raises exactly when it has no href, or when its href has the extension and
    the probe of its absolute form fails with an error the procedure does not catch.
   */
  lemma JudgeHalts(formats: string, link: Link, i: nat, probe: (nat, string) -> Probe, f: Failure)
    ensures Judge(formats, link, i, probe) == Halt(f)
        <==> || (link.href.None? && f == MissingHref)
             || (&& link.href.Some? && EndsWith(link.href.value, Extension(formats))
                 && |link.href.value| > 0 && probe(i, Absolute(link.href.value)) == Crashed
                 && f == ProbeError)
  {
  }

  /** Every inserted URL ends in the format's extension and every key names the format. */
  lemma InsertedShape(formats: string, link: Link, i: nat, probe: (nat, string) -> Probe)
    requires Judge(formats, link, i, probe).Insert?
    ensures EndsWith(Judge(formats, link, i, probe).url, Extension(formats))
    ensures StartsWith(Judge(formats, link, i, probe).key, formats + " - ")
  {
    var href := link.href.value;
    if href[0] == '/' {
      EndsWithAppend(BaseUrl, href, Extension(formats));
    }
    assert DownloadKey(formats, link.text)[..|formats + " - "|] == formats + " - ";
  }

  // ---------------------------------------------------------------------------
  // The loop over the links

  /** The map only grows: no key present before resolution is removed. */
  lemma {:induction false} ResolveKeepsKeys(d: map<string, string>, verdicts: seq<Verdict>)
    ensures forall key :: key in d ==> key in Resolve(d, verdicts).downloads
    decreases |verdicts|
  {
    if |verdicts| > 0 {
      ResolveKeepsKeys(d, verdicts[..|verdicts| - 1]);
    }
  }

  /**
    Every entry of the resulting map is either an entry that was there before or one
    that some verdict inserted.
   */
  lemma {:induction false} ResolveProvenance(d: map<string, string>, verdicts: seq<Verdict>)
    ensures forall key :: key in Resolve(d, verdicts).downloads ==>
              || (key in d && Resolve(d, verdicts).downloads[key] == d[key])
              || Insert(key, Resolve(d, verdicts).downloads[key]) in verdicts
    decreases |verdicts|
  {
    if |verdicts| > 0 {
      var init := verdicts[..|verdicts| - 1];
      ResolveProvenance(d, init);
      assert forall v :: v in init ==> v in verdicts;
      assert verdicts[|verdicts| - 1] in verdicts;
    }
  }

  /** The procedure raises exactly when some link does. */
  lemma {:induction false} ResolveFailure(d: map<string, string>, verdicts: seq<Verdict>)
    ensures Resolve(d, verdicts).failure.None? <==> forall i :: 0 <= i < |verdicts| ==> !verdicts[i].Halt?
    decreases |verdicts|
  {
    if |verdicts| > 0 {
      var n := |verdicts| - 1;
      var init := verdicts[..n];
      ResolveFailure(d, init);
      assert forall i :: 0 <= i < n ==> init[i] == verdicts[i];
    }
  }

  /**
    When link `i` is the first to raise, the procedure raises its failure and the map
    keeps exactly what the links before it inserted.
   */
  lemma FirstHaltDecides(d: map<string, string>, verdicts: seq<Verdict>, i: nat)
    requires i < |verdicts| && verdicts[i].Halt?
    requires forall j :: 0 <= j < i ==> !verdicts[j].Halt?
    ensures Resolve(d, verdicts) == Resolution(Resolve(d, verdicts[..i]).downloads, Some(verdicts[i].failure))
  {
    var init := verdicts[..i];
    ResolveFailure(d, init);
    assert forall j :: 0 <= j < i ==> init[j] == verdicts[j];
    assert verdicts[..i + 1][..i] == init;
    ResolveStaysHalted(d, verdicts, i + 1, |verdicts|);
    assert verdicts[..|verdicts|] == verdicts;
  }

  /**
    The last insertion wins: when no link raises, a key inserted by verdict `j` and by
    no later verdict maps to the URL verdict `j` gave.
   */
  lemma {:induction false} ResolveLastWriteWins(d: map<string, string>, verdicts: seq<Verdict>, j: nat)
    requires j < |verdicts| && verdicts[j].Insert?
    requires forall i :: 0 <= i < |verdicts| ==> !verdicts[i].Halt?
    requires forall i :: j < i < |verdicts| && verdicts[i].Insert? ==> verdicts[i].key != verdicts[j].key
    ensures verdicts[j].key in Resolve(d, verdicts).downloads
    ensures Resolve(d, verdicts).downloads[verdicts[j].key] == verdicts[j].url
    decreases |verdicts|
  {
    var n := |verdicts| - 1;
    var init := verdicts[..n];
    ResolveFailure(d, init);
    assert forall i :: 0 <= i < n ==> init[i] == verdicts[i];
    if j < n {
      ResolveLastWriteWins(d, init, j);
    }
  }

  // ---------------------------------------------------------------------------
  // `get_details` as a whole

  /** `get_details` never removes a download from the record. */
  lemma DetailsKeepsKeys(d: map<string, string>, formats: string, detailItem: string,
                         fetch: string -> Option<seq<Link>>, probe: (nat, string) -> Probe)
    ensures forall key :: key in d ==> key in Details(d, formats, detailItem, fetch, probe).downloads
  {
    if formats != "" && fetch(GetUrl(detailItem)).Some? {
      ResolveKeepsKeys(d, Verdicts(formats, fetch(GetUrl(detailItem)).value, probe));
    }
  }

  /**
    Every download of the record after `get_details` was there before, or is a URL with
    the format's extension stored under a key that starts with the format.
   */
  lemma DetailsEntries(d: map<string, string>, formats: string, detailItem: string,
                       fetch: string -> Option<seq<Link>>, probe: (nat, string) -> Probe)
    ensures forall key :: key in Details(d, formats, detailItem, fetch, probe).downloads ==>
              || (key in d && Details(d, formats, detailItem, fetch, probe).downloads[key] == d[key])
              || (&& StartsWith(key, formats + " - ")
                  && EndsWith(Details(d, formats, detailItem, fetch, probe).downloads[key], Extension(formats)))
  {
    if formats != "" && fetch(GetUrl(detailItem)).Some? {
      var links := fetch(GetUrl(detailItem)).value;
      var verdicts := Verdicts(formats, links, probe);
      var m := Resolve(d, verdicts).downloads;
      ResolveProvenance(d, verdicts);
      forall key | key in m && !(key in d && m[key] == d[key])
        ensures StartsWith(key, formats + " - ") && EndsWith(m[key], Extension(formats))
      {
        var i :| 0 <= i < |verdicts| && verdicts[i] == Insert(key, m[key]);
        assert Judge(formats, links[i], i, probe) == verdicts[i];
        InsertedShape(formats, links[i], i, probe);
      }
    }
  }

  /**
    `get_details` returns normally exactly when the record has no format, or the
    detail page was fetched and no download link on it raises.
   */
  lemma DetailsFailure(d: map<string, string>, formats: string, detailItem: string,
                       fetch: string -> Option<seq<Link>>, probe: (nat, string) -> Probe)
    ensures Details(d, formats, detailItem, fetch, probe).failure.None?
        <==> || formats == ""
             || (&& fetch(GetUrl(detailItem)).Some?
                 && forall i :: 0 <= i < |fetch(GetUrl(detailItem)).value| ==>
                      !Judge(formats, fetch(GetUrl(detailItem)).value[i], i, probe).Halt?)
  {
    if formats != "" && fetch(GetUrl(detailItem)).Some? {
      var links := fetch(GetUrl(detailItem)).value;
      var verdicts := Verdicts(formats, links, probe);
      ResolveFailure(d, verdicts);
      assert forall i :: 0 <= i < |links| ==> verdicts[i] == Judge(formats, links[i], i, probe);
    }
  }
}
