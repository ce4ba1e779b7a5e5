/**
 The free-PDF cascade. A DOI is looked up at Unpaywall and, only when that finds nothing, at
 Semantic Scholar; a title is looked up with one Semantic Scholar search. Each provider call is
 one GET through the `http` oracle, and every lookup reports the URLs it requested, in order,
 so that short-circuiting can be stated. A provider failure of any kind (an exception, a
 non-200 status, a body that is not JSON or not shaped as expected) yields no PDF.
 */
module PdfLookup {
  import opened Wrappers
  import opened Json
  import Strings
  import Url
  import Http

  const UnpaywallEmail: string := "grayson@research.app"
  const UnpaywallBase: string := "https://api.unpaywall.org/v2/"
  const PaperByDoi: string := "https://api.semanticscholar.org/graph/v1/paper/DOI:"
  const PaperSearch: string := "https://api.semanticscholar.org/graph/v1/paper/search?query="
  const HttpsDoi: string := "https://doi.org/"
  const HttpDoi: string := "http://doi.org/"

  // ---------------------------------------------------------------------------
  // Requests
  // ---------------------------------------------------------------------------

  /** `quote(doi, safe='')`: nothing that could end the path segment survives, and nothing is lost. */
  function DoiSegment(doi: string): (seg: string)
    ensures forall i :: 0 <= i < |seg| ==> seg[i] != '/' && seg[i] != '?' && seg[i] != '&' && seg[i] != '#'
    ensures Url.PercentDecode(seg) == Some(Url.Utf8String(doi))
  {
    Url.DecodeEncode(doi, "", false);
    QuoteKeepsSegment(doi);
    Url.Quote(doi, "")
  }

  /** With nothing safe, `quote` writes no path, query or fragment delimiter. */
  lemma QuoteKeepsSegment(doi: string)
    ensures var seg := Url.Quote(doi, "");
            forall i :: 0 <= i < |seg| ==> seg[i] != '/' && seg[i] != '?' && seg[i] != '&' && seg[i] != '#'
  {
    var seg := Url.Quote(doi, "");
    Url.EncodeAlphabet(doi, "", false);
    forall i | 0 <= i < |seg|
      ensures seg[i] != '/' && seg[i] != '?' && seg[i] != '&' && seg[i] != '#'
    {
      assert Url.EncodedChar(seg[i], "", false);
    }
  }

  /** A value between the text before it and the text after it. */
  lemma Between(a: string, x: string, b: string, c: string)
    ensures var u := a + x + b + c;
            |a| + |x| <= |u| && u[|a|..|a| + |x|] == x && u[|a| + |x|..] == b + c
  {
    var u := a + x + b + c;
    assert u == a + (x + (b + c));
    assert u[|a|..] == x + (b + c);
  }

  /**
   The Unpaywall request: the DOI's path segment right after the endpoint, then the query
   string with the contact e-mail. The segment holds no `?`, so it is the whole path segment.
   */
  function UnpaywallUrl(doi: string): (u: string)
    ensures UnpaywallBase <= u
    ensures var seg := DoiSegment(doi);
            |UnpaywallBase| + |seg| <= |u| && u[|UnpaywallBase|..|UnpaywallBase| + |seg|] == seg
            && u[|UnpaywallBase| + |seg|..] == "?email=" + UnpaywallEmail
  {
    Between(UnpaywallBase, DoiSegment(doi), "?email=", UnpaywallEmail);
    UnpaywallBase + DoiSegment(doi) + "?email=" + UnpaywallEmail
  }

  /** The Semantic Scholar DOI request: `DOI:` and the DOI's path segment, then the fields asked for. */
  function SemanticScholarDoiUrl(doi: string): (u: string)
    ensures PaperByDoi <= u
    ensures var seg := DoiSegment(doi);
            |PaperByDoi| + |seg| <= |u| && u[|PaperByDoi|..|PaperByDoi| + |seg|] == seg
            && u[|PaperByDoi| + |seg|..] == "?fields=openAccessPdf"
  {
    Between(PaperByDoi, DoiSegment(doi), "?fields=openAccessPdf", "");
    PaperByDoi + DoiSegment(doi) + "?fields=openAccessPdf" + ""
  }

  /** `quote(title)` writes no parameter or fragment delimiter and loses nothing. */
  lemma QuotedTitle(title: string)
    ensures var q := Url.Quote(title, "/");
            '&' !in q && '#' !in q && '?' !in q && Url.PercentDecode(q) == Some(Url.Utf8String(title))
  {
    Url.EncodeAvoids(title, "/", false, '&');
    Url.EncodeAvoids(title, "/", false, '#');
    Url.EncodeAvoids(title, "/", false, '?');
    Url.DecodeEncode(title, "/", false);
  }

  /**
   The title search: `quote(title)` keeps `/` and encodes everything else outside the
   unreserved set, so the `query` value holds no `&`, `#` or `?`, ends where the next
   parameter begins, and decodes back to the title's bytes.
   */
  function SemanticScholarSearchUrl(title: string): (u: string)
    ensures PaperSearch <= u
    ensures var q := Url.Quote(title, "/");
            |PaperSearch| + |q| <= |u| && u[|PaperSearch|..|PaperSearch| + |q|] == q
            && u[|PaperSearch| + |q|..] == "&fields=openAccessPdf&limit=1"
            && '&' !in q && '#' !in q && '?' !in q
            && Url.PercentDecode(q) == Some(Url.Utf8String(title))
  {
    Between(PaperSearch, Url.Quote(title, "/"), "&fields=openAccessPdf&limit=1", "");
    QuotedTitle(title);
    PaperSearch + Url.Quote(title, "/") + "&fields=openAccessPdf&limit=1" + ""
  }

  // ---------------------------------------------------------------------------
  // Response selection
  // ---------------------------------------------------------------------------

  /**
   The JSON object of a successful response. Anything else makes the provider's `try` block
   give up: a failed request, a status other than 200, a body that is not JSON, or a body whose
   `get` fails because it is not an object.
   */
  function Body200(o: Http.Outcome): (r: Option<Entries>)
    ensures r.Some? <==> o.Response? && o.status == 200 && o.body.Some? && o.body.value.Dict?
    ensures r.Some? ==> r.value == o.body.value.entries
  {
    if o.Response? && o.status == 200 && o.body.Some? && o.body.value.Dict? then Some(o.body.value.entries) else None
  }

  /**
   `if oa and oa.get(key): return oa[key]`: the value under `key` of a truthy object, when
   truthy. A truthy value that is not an object has no `get`, which ends the lookup.
   */
  function Pick(oa: Value, key: string): (r: Option<Value>)
    ensures r.Some? <==> oa.Dict? && Truthy(GetOr(oa.entries, key, Null))
    ensures r.Some? ==> r.value == GetOr(oa.entries, key, Null) && Truthy(r.value)
  {
    if Truthy(oa) && oa.Dict? && Truthy(GetOr(oa.entries, key, Null)) then Some(GetOr(oa.entries, key, Null)) else None
  }

  /**
   The loop over `oa_locations`: the index of the first location that is not an object or that
   has a truthy `url_for_pdf`, or the number of locations when there is none.
   */
  function FirstStop(locations: seq<Value>): (k: nat)
    ensures k <= |locations|
    ensures forall j :: 0 <= j < k ==> locations[j].Dict? && !Truthy(GetOr(locations[j].entries, "url_for_pdf", Null))
    ensures k < |locations| ==> !locations[k].Dict? || Truthy(GetOr(locations[k].entries, "url_for_pdf", Null))
    decreases |locations|
  {
    if |locations| == 0 then 0
    else if !locations[0].Dict? || Truthy(GetOr(locations[0].entries, "url_for_pdf", Null)) then 0
    else 1 + FirstStop(locations[1..])
  }

  /** The first location's PDF; a location that is not an object ends the lookup with nothing. */
  function FromLocations(locations: seq<Value>): (r: Option<Value>)
    ensures r.Some? ==> Truthy(r.value)
    ensures r.Some? <==> FirstStop(locations) < |locations| && locations[FirstStop(locations)].Dict?
    ensures r.Some? ==> r.value == GetOr(locations[FirstStop(locations)].entries, "url_for_pdf", Null)
  {
    var k := FirstStop(locations);
    if k < |locations| && locations[k].Dict? then Some(GetOr(locations[k].entries, "url_for_pdf", Null)) else None
  }

  /**
   `_try_unpaywall`'s selection: `best_oa_location.url_for_pdf` when truthy, otherwise the first
   `oa_locations` entry with a truthy `url_for_pdf`. A truthy `best_oa_location` that is not an
   object ends the lookup before the other locations are read. Only a list of locations can
   yield a PDF: any other value either iterates to nothing or cannot be iterated.
   */
  function SelectUnpaywall(o: Http.Outcome): (r: Option<Value>)
    ensures Body200(o).None? ==> r.None?
    ensures r.Some? ==> Truthy(r.value)
    ensures Body200(o).Some? && Pick(GetOr(Body200(o).value, "best_oa_location", Null), "url_for_pdf").Some? ==>
              r == Pick(GetOr(Body200(o).value, "best_oa_location", Null), "url_for_pdf")
    ensures Body200(o).Some? && (var best := GetOr(Body200(o).value, "best_oa_location", Null); Truthy(best) && !best.Dict?) ==>
              r.None?
    ensures Body200(o).Some? ==>
              var data := Body200(o).value;
              var best := GetOr(data, "best_oa_location", Null);
              !(Truthy(best) && !best.Dict?) && Pick(best, "url_for_pdf").None? ==>
                r == (match GetOr(data, "oa_locations", List([])) case List(ls) => FromLocations(ls) case _ => None)
  {
    match Body200(o)
    case None => None
    case Some(data) =>
      var best := GetOr(data, "best_oa_location", Null);
      if Truthy(best) && !best.Dict? then None
      else match Pick(best, "url_for_pdf")
        case Some(u) => Some(u)
        case None =>
          match GetOr(data, "oa_locations", List([]))
          case List(locations) => FromLocations(locations)
          case _ => None
  }

  /**
   Where an Unpaywall PDF comes from: the best location's `url_for_pdf`, or else the
   `url_for_pdf` of the first listed location, every location before it being an object
   without one.
   */
  lemma UnpaywallPdfComesFromResponse(o: Http.Outcome)
    requires SelectUnpaywall(o).Some?
    ensures var data := Body200(o).value;
            var best := GetOr(data, "best_oa_location", Null);
            var u := SelectUnpaywall(o).value;
            (best.Dict? && u == GetOr(best.entries, "url_for_pdf", Null))
            || (GetOr(data, "oa_locations", Null).List?
                && var ls := GetOr(data, "oa_locations", Null).items;
                   FirstStop(ls) < |ls| && ls[FirstStop(ls)].Dict?
                   && u == GetOr(ls[FirstStop(ls)].entries, "url_for_pdf", Null)
                   && forall j :: 0 <= j < FirstStop(ls) ==> ls[j].Dict? && !Truthy(GetOr(ls[j].entries, "url_for_pdf", Null)))
  {
    var data := Body200(o).value;
    var best := GetOr(data, "best_oa_location", Null);
    if Pick(best, "url_for_pdf").None? {
      var locs := GetOr(data, "oa_locations", List([]));
      assert locs.List?;
      assert GetOr(data, "oa_locations", Null) == locs;
    }
  }

  /** `_try_semantic_scholar`'s selection: `openAccessPdf.url` when truthy. */
  function SelectSemanticScholar(o: Http.Outcome): (r: Option<Value>)
    ensures r.Some? ==> Truthy(r.value)
    ensures r.Some? <==> Body200(o).Some? && Pick(GetOr(Body200(o).value, "openAccessPdf", Null), "url").Some?
  {
    match Body200(o)
    case None => None
    case Some(data) => Pick(GetOr(data, "openAccessPdf", Null), "url")
  }

  /**
   `_try_semantic_scholar_search`'s selection: the first paper's `openAccessPdf.url`. Only a
   non-empty list of papers whose first element is an object can yield a PDF.
   */
  function SelectSearch(o: Http.Outcome): (r: Option<Value>)
    ensures r.Some? ==> Truthy(r.value)
    ensures r.Some? ==> Body200(o).Some? && var papers := GetOr(Body200(o).value, "data", List([]));
                        papers.List? && |papers.items| > 0 && papers.items[0].Dict?
                        && r == Pick(GetOr(papers.items[0].entries, "openAccessPdf", Null), "url")
    ensures Body200(o).Some? ==>
              var papers := GetOr(Body200(o).value, "data", List([]));
              papers.List? && |papers.items| > 0 && papers.items[0].Dict? ==>
                r == Pick(GetOr(papers.items[0].entries, "openAccessPdf", Null), "url")
  {
    match Body200(o)
    case None => None
    case Some(data) =>
      var papers := GetOr(data, "data", List([]));
      if papers.List? && |papers.items| > 0 && papers.items[0].Dict? then
        Pick(GetOr(papers.items[0].entries, "openAccessPdf", Null), "url")
      else None
  }

  /** Only the first search result is read: the papers after it make no difference. */
  lemma SearchReadsFirstOnly(data: Entries, first: Value, rest1: seq<Value>, rest2: seq<Value>)
    ensures SelectSearch(Http.Response(200, Some(Dict(Set(data, "data", List([first] + rest1))))))
         == SelectSearch(Http.Response(200, Some(Dict(Set(data, "data", List([first] + rest2))))))
  {
    var a := Set(data, "data", List([first] + rest1));
    var b := Set(data, "data", List([first] + rest2));
    assert GetOr(a, "data", List([])) == List([first] + rest1);
    assert GetOr(b, "data", List([])) == List([first] + rest2);
  }

  // ---------------------------------------------------------------------------
  // Lookups
  // ---------------------------------------------------------------------------

  /** The PDF found, if any, and the URLs requested to find it, in request order. */
  datatype Lookup = Lookup(pdf: Option<Value>, requests: seq<string>)

  /** `doi.replace("https://doi.org/", "").replace("http://doi.org/", "")`. */
  function CleanDoi(doi: string): (c: string)
    ensures |c| <= |doi|
    ensures !Strings.Contains(doi, HttpsDoi) && !Strings.Contains(doi, HttpDoi) ==> c == doi
  {
    var once := Strings.ReplaceAll(doi, HttpsDoi, "");
    Strings.ReplaceAllDeleteShorter(doi, HttpsDoi);
    Strings.ReplaceAllDeleteShorter(once, HttpDoi);
    Strings.ReplaceAllAbsent(doi, HttpsDoi, "");
    Strings.ReplaceAllAbsent(once, HttpDoi, "");
    Strings.ReplaceAll(once, HttpDoi, "")
  }

  /**
   Cleaning strips either URL prefix from a DOI, and leaves a bare DOI alone, whenever the rest
   of the DOI does not itself contain one of the prefixes.
   */
  lemma CleanDoiStripsPrefix(rest: string)
    requires !Strings.Contains(rest, HttpsDoi) && !Strings.Contains(rest, HttpDoi)
    ensures CleanDoi(rest) == rest
    ensures CleanDoi(HttpsDoi + rest) == rest
    ensures CleanDoi(HttpDoi + rest) == rest
  {
    Strings.ReplaceAllAbsent(rest, HttpsDoi, "");
    Strings.ReplaceAllAbsent(rest, HttpDoi, "");
    Strings.ReplaceAllAtFront(HttpsDoi, rest, "");
    assert "" + rest == rest;
    FirstReplaceSkipsHttp(rest);
    Strings.ReplaceAllAtFront(HttpDoi, rest, "");
  }

  /** A pattern does not occur at `i` when one of its characters differs there. */
  lemma MismatchAt(pat: string, s: string, i: nat, j: nat)
    requires i <= |s| && j < |pat|
    requires i + j < |s| ==> s[i + j] != pat[j]
    ensures !(pat <= s[i..])
  {
  }

  /** The two prefixes, cut where their first character `h` occurs. */
  lemma PrefixPieces(a: string, t: string, u: string)
    requires a == "ttps://doi." && t == "org/" && u == "ttp://doi.org/"
    ensures HttpDoi == "h" + u && HttpsDoi == "h" + a + t
    ensures 'h' !in a && 'h' !in t && 'h' !in u
    ensures |a| == 11 && HttpsDoi[4] == 's' && HttpsDoi[12] == 'o' && HttpDoi[0] == 'h' && HttpDoi[4] == ':'
  {
  }

  /** The `https` prefix does not start anywhere inside the `http` prefix. */
  lemma FirstReplaceSkipsHttp(rest: string)
    ensures Strings.ReplaceAll(HttpDoi + rest, HttpsDoi, "") == HttpDoi + Strings.ReplaceAll(rest, HttpsDoi, "")
  {
    var u := "ttp://doi.org/";
    PrefixPieces("ttps://doi.", "org/", u);
    var s := HttpDoi + rest;
    assert s == "h" + (u + rest);
    MismatchAt(HttpsDoi, s, 0, 4);
    Strings.ReplaceAllSkip("h", u + rest, HttpsDoi, "");
    Strings.ReplaceAllSkipFree(u, rest, HttpsDoi, "");
  }

  /** The first replacement finds nothing to remove in `https://doi.http://doi.org/org/`. */
  lemma FirstReplaceKeeps(a: string, t: string)
    requires a == "ttps://doi." && t == "org/"
    ensures Strings.ReplaceAll("h" + a + HttpDoi + t, HttpsDoi, "") == "h" + a + HttpDoi + t
  {
    PrefixPieces(a, t, "ttp://doi.org/");
    var s := "h" + a + HttpDoi + t;
    assert s == "h" + (a + (HttpDoi + t));
    assert s[12] == HttpDoi[0];
    MismatchAt(HttpsDoi, s, 0, 12);
    Strings.ReplaceAllSkip("h", a + (HttpDoi + t), HttpsDoi, "");
    Strings.ReplaceAllSkipFree(a, HttpDoi + t, HttpsDoi, "");
    FirstReplaceSkipsHttp(t);
    Strings.ReplaceAllSkipFree(t, "", HttpsDoi, "");
    assert t + "" == t;
  }

  /** Removing a whole `http` prefix between two stretches free of `h` joins the stretches. */
  lemma ReplaceJoinsAround(a: string, t: string)
    requires 'h' !in a && 'h' !in t && !(HttpDoi <= "h" + (a + (HttpDoi + t)))
    ensures Strings.ReplaceAll("h" + (a + (HttpDoi + t)), HttpDoi, "") == "h" + (a + t)
  {
    assert HttpDoi[0] == 'h';
    Strings.ReplaceAllSkip("h", a + (HttpDoi + t), HttpDoi, "");
    Strings.ReplaceAllSkipFree(a, HttpDoi + t, HttpDoi, "");
    Strings.ReplaceAllAtFront(HttpDoi, t, "");
    Strings.ReplaceAllSkipFree(t, "", HttpDoi, "");
    assert t + "" == t;
    assert "" + t == t;
  }

  /** The second replacement removes the `http` prefix in the middle and joins what surrounds it. */
  lemma SecondReplaceJoins(a: string, t: string)
    requires a == "ttps://doi." && t == "org/"
    ensures Strings.ReplaceAll("h" + a + HttpDoi + t, HttpDoi, "") == HttpsDoi
  {
    PrefixPieces(a, t, "ttp://doi.org/");
    var s := "h" + (a + (HttpDoi + t));
    assert "h" + a + HttpDoi + t == s;
    MismatchAt(HttpDoi, s, 0, 4);
    ReplaceJoinsAround(a, t);
  }

  /**
   The two replacements run once each, so removing the `http` prefix can bring a new `https`
   prefix together: cleaning does not remove every occurrence.
   */
  lemma CleanDoiCanLeavePrefix()
    ensures CleanDoi("https://doi.http://doi.org/org/") == HttpsDoi
  {
    var a := "ttps://doi.";
    var t := "org/";
    assert "h" + a + HttpDoi + t == "https://doi.http://doi.org/org/";
    FirstReplaceKeeps(a, t);
    SecondReplaceJoins(a, t);
  }

  /**
   `lookup_pdf_by_doi`: an empty DOI makes no request. Otherwise the cleaned DOI goes to
   Unpaywall, and to Semantic Scholar only when Unpaywall found nothing; the first hit wins.
   */
  function LookupByDoi(doi: string, http: Http.Fetch): (r: Lookup)
    ensures doi == "" ==> r == Lookup(None, [])
    ensures doi != "" ==> 1 <= |r.requests| <= 2 && r.requests[0] == UnpaywallUrl(CleanDoi(doi))
    ensures doi != "" ==> (|r.requests| == 1 <==> SelectUnpaywall(http(r.requests[0])).Some?)
    ensures doi != "" && |r.requests| == 2 ==> r.requests[1] == SemanticScholarDoiUrl(CleanDoi(doi))
    ensures r.pdf.Some? ==> Truthy(r.pdf.value)
    ensures doi != "" ==> r.pdf == (if SelectUnpaywall(http(r.requests[0])).Some? then SelectUnpaywall(http(r.requests[0]))
                                    else SelectSemanticScholar(http(r.requests[1])))
  {
    if doi == "" then Lookup(None, [])
    else
      var clean := CleanDoi(doi);
      var first := UnpaywallUrl(clean);
      match SelectUnpaywall(http(first))
      case Some(u) => Lookup(Some(u), [first])
      case None =>
        var second := SemanticScholarDoiUrl(clean);
        Lookup(SelectSemanticScholar(http(second)), [first, second])
  }

  /**
   The cascade never asks Semantic Scholar about a DOI Unpaywall has a PDF for, and it finds a
   PDF exactly when one of the two providers does.
   */
  lemma DoiCascadeShortCircuits(doi: string, http: Http.Fetch)
    requires doi != ""
    ensures var r := LookupByDoi(doi, http);
            var up := SelectUnpaywall(http(UnpaywallUrl(CleanDoi(doi))));
            var s2 := SelectSemanticScholar(http(SemanticScholarDoiUrl(CleanDoi(doi))));
            (up.Some? ==> r == Lookup(up, [UnpaywallUrl(CleanDoi(doi))]))
            && (r.pdf.Some? <==> up.Some? || s2.Some?)
  {
  }

  /**
   `lookup_pdf_by_title`: a falsy title makes no request. A title that is not a string makes
   `quote` fail inside the provider's `try`, before any request, and so finds nothing.
   */
  function LookupByTitle(title: Value, http: Http.Fetch): (r: Lookup)
    ensures !(title.Str? && |title.s| > 0) ==> r == Lookup(None, [])
    ensures title.Str? && |title.s| > 0 ==> r.requests == [SemanticScholarSearchUrl(title.s)]
                                             && r.pdf == SelectSearch(http(r.requests[0]))
    ensures r.pdf.Some? ==> Truthy(r.pdf.value)
  {
    if !Truthy(title) || !title.Str? then Lookup(None, [])
    else
      var u := SemanticScholarSearchUrl(title.s);
      Lookup(SelectSearch(http(u)), [u])
  }

  // ---------------------------------------------------------------------------
  // enrich_sources_with_pdfs
  // ---------------------------------------------------------------------------

  /** `"doi.org" in str(doi) or (isinstance(doi, str) and doi.startswith("10."))`. */
  predicate DoiCandidate(doi: Value, render: Value -> string)
  {
    Strings.Contains(PyStr(doi, render), "doi.org") || (doi.Str? && "10." <= doi.s)
  }

  /**
   URLs at either resolver and bare `10.` DOIs are DOI-like; a missing value (`None`) is not.
   */
  lemma DoiLikeValues(rest: string, render: Value -> string)
    ensures DoiCandidate(Str(HttpsDoi + rest), render)
    ensures DoiCandidate(Str(HttpDoi + rest), render)
    ensures DoiCandidate(Str("10." + rest), render)
    ensures !DoiCandidate(Null, render)
  {
    assert HttpsDoi == "https://" + "doi.org/";
    assert HttpsDoi + rest == "https://" + ("doi.org/" + rest);
    Strings.ContainsAfter("https://", "doi.org/" + rest, "doi.org");
    assert HttpDoi == "http://" + "doi.org/";
    assert HttpDoi + rest == "http://" + ("doi.org/" + rest);
    Strings.ContainsAfter("http://", "doi.org/" + rest, "doi.org");
    Strings.ShorterLacks("None", "doi.org");
  }

  /** The value the DOI test looks at: `doi`, falling back to `url` (default `""`). */
  function DoiField(src: Entries): (v: Value)
    ensures Truthy(GetOr(src, "doi", Null)) ==> v == GetOr(src, "doi", Null)
    ensures !Truthy(GetOr(src, "doi", Null)) && Get(src, "url").None? ==> v == Str("")
    ensures !Truthy(GetOr(src, "doi", Null)) && Get(src, "url").Some? ==> v == Get(src, "url").value
  {
    Or(GetOr(src, "doi", Null), GetOr(src, "url", Str("")))
  }

  /** One source after enrichment, with the URLs requested for it. */
  datatype Enriched = Enriched(entry: Entries, requests: seq<string>)

  /** The DOI half of one source's enrichment; a truthy DOI that is not a string has no `replace`. */
  function DoiAttempt(doi: Value, render: Value -> string, http: Http.Fetch): (r: Result<Lookup>)
    ensures r.Err? <==> DoiCandidate(doi, render) && Truthy(doi) && !doi.Str?
    ensures !DoiCandidate(doi, render) ==> r == Ok(Lookup(None, []))
    ensures DoiCandidate(doi, render) && doi.Str? ==> r == Ok(LookupByDoi(doi.s, http))
  {
    if !DoiCandidate(doi, render) || !Truthy(doi) then Ok(Lookup(None, []))
    else if !doi.Str? then Err("object has no attribute 'replace'")
    else Ok(LookupByDoi(doi.s, http))
  }

  /**
   One source: a DOI lookup is attempted exactly for DOI-like values, and the title search runs
   only when that found nothing. The call fails exactly when the DOI value cannot be cleaned.
   */
  function EnrichOne(src: Entries, render: Value -> string, http: Http.Fetch): (r: Result<Enriched>)
    ensures r.Err? <==> DoiCandidate(DoiField(src), render) && Truthy(DoiField(src)) && !DoiField(src).Str?
    ensures r.Ok? ==> var d := DoiAttempt(DoiField(src), render, http).value;
                      d.pdf.Some? ==> r.value == Enriched(Set(src, "free_pdf", d.pdf.value), d.requests)
    ensures r.Ok? ==> var d := DoiAttempt(DoiField(src), render, http).value;
                      var t := LookupByTitle(GetOr(src, "title", Null), http);
                      d.pdf.None? ==>
                        r.value.entry == (if t.pdf.Some? then Set(src, "free_pdf", t.pdf.value) else src)
                        && r.value.requests == d.requests + t.requests
  {
    match DoiAttempt(DoiField(src), render, http)
    case Err(e) => Err(e)
    case Ok(d) =>
      if d.pdf.Some? then Ok(Enriched(Set(src, "free_pdf", d.pdf.value), d.requests))
      else
        var t := LookupByTitle(GetOr(src, "title", Null), http);
        Ok(Enriched(if t.pdf.Some? then Set(src, "free_pdf", t.pdf.value) else src, d.requests + t.requests))
  }

  /**
   What enrichment attaches: the DOI lookup's PDF when it has one, otherwise the title
   search's; with neither, the source is returned as it was.
   */
  lemma EnrichOneAddsOnlyPdf(src: Entries, render: Value -> string, http: Http.Fetch)
    requires EnrichOne(src, render, http).Ok?
    ensures var e := EnrichOne(src, render, http).value.entry;
            var d := DoiAttempt(DoiField(src), render, http).value;
            var t := LookupByTitle(GetOr(src, "title", Null), http);
            var found := if d.pdf.Some? then d.pdf else t.pdf;
            (found.None? ==> e == src)
            && (found.Some? ==> Truthy(found.value) && e == Set(src, "free_pdf", found.value) && Get(e, "free_pdf") == found)
  {
  }

  /**
   The order of requests for one source: the DOI lookup's requests come first; a DOI hit makes
   no title search, a DOI miss is followed by exactly the title search's requests; a value that
   does not look like a DOI makes no DOI request.
   */
  lemma EnrichOneRequestOrder(src: Entries, render: Value -> string, http: Http.Fetch)
    requires EnrichOne(src, render, http).Ok?
    ensures var r := EnrichOne(src, render, http).value;
            var d := DoiAttempt(DoiField(src), render, http).value;
            d.requests <= r.requests
            && (d.pdf.Some? ==> r.requests == d.requests)
            && (d.pdf.None? ==> r.requests == d.requests + LookupByTitle(GetOr(src, "title", Null), http).requests)
            && (!DoiCandidate(DoiField(src), render) ==> r.requests == LookupByTitle(GetOr(src, "title", Null), http).requests)
  {
  }

  /**
   Enrichment preserves every key of the source, and the value of every key but `free_pdf`.
   */
  lemma EnrichKeepsOtherKeys(src: Entries, render: Value -> string, http: Http.Fetch, k: string)
    requires EnrichOne(src, render, http).Ok?
    ensures var e := EnrichOne(src, render, http).value.entry;
            (k != "free_pdf" ==> Get(e, k) == Get(src, k))
            && (Get(src, k).Some? ==> Get(e, k).Some?)
  {
  }

  /**
   Every request the sources' steps make, source by source in order; a `None` source and a
   failing step make none.
   */
  function AllRequests(sources: seq<Option<Entries>>, step: Entries -> Result<Enriched>): seq<string>
    decreases |sources|
  {
    if |sources| == 0 then []
    else AllRequests(sources[..|sources| - 1], step) + SourceRequests(sources[|sources| - 1], step)
  }

  /** The requests of one source's step: none for `None` or a failing step. */
  function SourceRequests(source: Option<Entries>, step: Entries -> Result<Enriched>): (q: seq<string>)
    ensures source.None? ==> q == []
    ensures source.Some? && step(source.value).Ok? ==> q == step(source.value).value.requests
  {
    if source.Some? && step(source.value).Ok? then step(source.value).value.requests else []
  }

  /** Sources that are all `None` make no request. */
  lemma {:induction false} NoSourcesNoRequests(sources: seq<Option<Entries>>, step: Entries -> Result<Enriched>)
    requires forall i :: 0 <= i < |sources| ==> sources[i].None?
    ensures AllRequests(sources, step) == []
    decreases |sources|
  {
    if |sources| > 0 {
      NoSourcesNoRequests(sources[..|sources| - 1], step);
    }
  }

  /** Dropping the last element of `a + b` drops the last element of `b`. */
  lemma DropLastOfAppend<T>(a: seq<T>, b: seq<T>)
    requires |b| > 0
    ensures (a + b)[..|a + b| - 1] == a + b[..|b| - 1] && (a + b)[|a + b| - 1] == b[|b| - 1]
  {
  }

  /** The requests of two runs of sources are those of the first run, then those of the second. */
  lemma {:induction false} AllRequestsAppend(a: seq<Option<Entries>>, b: seq<Option<Entries>>, step: Entries -> Result<Enriched>)
    ensures AllRequests(a + b, step) == AllRequests(a, step) + AllRequests(b, step)
    decreases |b|
  {
    if |b| == 0 {
      assert a + b == a;
    } else {
      var n := |b| - 1;
      var ab := a + b;
      DropLastOfAppend(a, b);
      var tail := SourceRequests(b[n], step);
      AllRequestsAppend(a, b[..n], step);
      var x, y := AllRequests(a, step), AllRequests(b[..n], step);
      assert AllRequests(ab, step) == (x + y) + tail;
      assert AllRequests(b, step) == y + tail;
      assert (x + y) + tail == x + (y + tail);
    }
  }

  /** Source `k` is the first whose step fails: every source before it succeeds or is `None`. */
  predicate FirstFailure(sources: seq<Option<Entries>>, step: Entries -> Result<Enriched>, k: int)
  {
    0 <= k < |sources| && sources[k].Some? && step(sources[k].value).Err?
    && forall j :: 0 <= j < k && sources[j].Some? ==> step(sources[j].value).Ok?
  }

  /** At most one source is the first failure. */
  lemma FirstFailureUnique(sources: seq<Option<Entries>>, step: Entries -> Result<Enriched>, k1: int, k2: int)
    requires FirstFailure(sources, step, k1) && FirstFailure(sources, step, k2)
    ensures k1 == k2
  {
  }

  /**
   The loop of `enrich_sources_with_pdfs` for any per-source step: `None` stays `None` at its
   index, every other source becomes what the step makes of it, and the first failing step
   ends the whole call with its error. Requests are made source by source, in order.
   */
  method EnrichEach(sources: seq<Option<Entries>>, step: Entries -> Result<Enriched>)
    returns (r: Result<seq<Option<Entries>>>, requests: seq<string>)
    ensures r.Ok? <==> forall i :: 0 <= i < |sources| && sources[i].Some? ==> step(sources[i].value).Ok?
    ensures r.Ok? ==> |r.value| == |sources|
    ensures r.Ok? ==> forall i :: 0 <= i < |sources| ==> (sources[i].None? <==> r.value[i].None?)
    ensures r.Ok? ==> forall i :: 0 <= i < |sources| && sources[i].Some? ==> r.value[i] == Some(step(sources[i].value).value.entry)
    ensures r.Ok? ==> requests == AllRequests(sources, step)
    ensures r.Err? ==> exists k :: FirstFailure(sources, step, k) && step(sources[k].value) == Err(r.message)
                                   && requests == AllRequests(sources[..k], step)
  {
    var out: seq<Option<Entries>> := [];
    requests := [];
    for n := 0 to |sources|
      invariant |out| == n
      invariant forall i :: 0 <= i < n && sources[i].Some? ==> step(sources[i].value).Ok?
      invariant forall i :: 0 <= i < n ==> (sources[i].None? <==> out[i].None?)
      invariant forall i :: 0 <= i < n && sources[i].Some? ==> out[i] == Some(step(sources[i].value).value.entry)
      invariant requests == AllRequests(sources[..n], step)
    {
      assert sources[..n + 1][..n] == sources[..n] && sources[..n + 1][n] == sources[n];
      assert AllRequests(sources[..n + 1], step) == AllRequests(sources[..n], step) + SourceRequests(sources[n], step);
      if sources[n].None? {
        out := out + [None];
      } else {
        var e := step(sources[n].value);
        if e.Err? {
          assert FirstFailure(sources, step, n) && step(sources[n].value) == Err(e.message);
          r := Err(e.message);
          assert FirstFailure(sources, step, n) && step(sources[n].value) == Err(r.message)
                 && requests == AllRequests(sources[..n], step);
          return;
        }
        out := out + [Some(e.value.entry)];
        requests := requests + e.value.requests;
      }
    }
    assert sources[..|sources|] == sources;
    r := Ok(out);
  }

  /**
   `enrich_sources_with_pdfs`: the output has the input's length, `None` entries stay `None`
   at their index, and every other entry is the enriched copy of its source.
   */
  method EnrichSourcesWithPdfs(sources: seq<Option<Entries>>, render: Value -> string, http: Http.Fetch)
    returns (r: Result<seq<Option<Entries>>>, requests: seq<string>)
    ensures r.Ok? <==> forall i :: 0 <= i < |sources| && sources[i].Some? ==> EnrichOne(sources[i].value, render, http).Ok?
    ensures r.Ok? ==> |r.value| == |sources|
    ensures r.Ok? ==> forall i :: 0 <= i < |sources| ==> (sources[i].None? <==> r.value[i].None?)
    ensures r.Ok? ==> forall i :: 0 <= i < |sources| && sources[i].Some? ==>
              r.value[i] == Some(EnrichOne(sources[i].value, render, http).value.entry)
    ensures r.Ok? ==> requests == AllRequests(sources, EnrichStep(render, http))
    ensures r.Err? ==> exists k :: FirstFailure(sources, EnrichStep(render, http), k)
                                   && EnrichOne(sources[k].value, render, http) == Err(r.message)
                                   && requests == AllRequests(sources[..k], EnrichStep(render, http))
  {
    r, requests := EnrichEach(sources, EnrichStep(render, http));
  }

  /** `EnrichOne` as a per-source step. */
  function EnrichStep(render: Value -> string, http: Http.Fetch): Entries -> Result<Enriched>
  {
    src => EnrichOne(src, render, http)
  }
}
