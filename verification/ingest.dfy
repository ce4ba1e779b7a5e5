/**
 The source adapter: OpenAlex and Semantic Scholar search results turned into paper records,
 OpenAlex's word-to-positions abstracts turned back into text, and the records the store
 ingests. Each search performs one GET through the `http` oracle.
 */
module Ingest {
  import opened Wrappers
  import opened Json
  import Strings
  import Url
  import Http

  /** OpenAlex concept ids: philosophy, theology, religious studies, religion, biblical studies. */
  const TheologyConcepts: seq<string> := ["C138885662", "C2778407487", "C175444787", "C41008148", "C2522767166"]
  const ConceptBase: string := "https://openalex.org/"
  const FilterPrefix: string := "concepts.id:"
  const OpenAlexWorks: string := "https://api.openalex.org/works"
  const SemanticScholarSearch: string := "https://api.semanticscholar.org/graph/v1/paper/search"
  const SemanticScholarFields: string := "title,abstract,year,doi,url,externalIds"
  /** The subject words appended to every Semantic Scholar query. */
  const DomainKeywords: string := " theology philosophy religion"

  // ---------------------------------------------------------------------------
  // Query construction
  // ---------------------------------------------------------------------------

  function ConceptUrls(): (urls: seq<string>)
    ensures |urls| == |TheologyConcepts|
    ensures forall i :: 0 <= i < |urls| ==> urls[i] == ConceptBase + TheologyConcepts[i]
  {
    seq(|TheologyConcepts|, i requires 0 <= i < |TheologyConcepts| => ConceptBase + TheologyConcepts[i])
  }

  /** The OpenAlex `filter` value: the concept URLs OR-ed with `|`. */
  function ConceptFilter(): string
  {
    FilterPrefix + Strings.Join("|", ConceptUrls())
  }

  /**
   The filter names exactly the five concepts, in order: after `concepts.id:` it splits on `|`
   into one `https://openalex.org/<id>` per concept.
   */
  lemma ConceptFilterLists()
    ensures FilterPrefix <= ConceptFilter()
    ensures Strings.Split('|', ConceptFilter()[|FilterPrefix|..]) == ConceptUrls()
    ensures |ConceptUrls()| == 5
  {
    var urls := ConceptUrls();
    forall i | 0 <= i < |urls|
      ensures '|' !in urls[i]
    {
      assert urls[i] == ConceptBase + TheologyConcepts[i];
      assert '|' !in ConceptBase;
      assert '|' !in TheologyConcepts[i];
    }
    Strings.SplitJoin('|', urls);
    assert ConceptFilter()[|FilterPrefix|..] == Strings.Join("|", urls);
  }

  /** The OpenAlex request: `urlencode` of search, per-page and filter with `:` and `|` left unescaped. */
  function OpenAlexUrl(query: string, perPage: int): string
  {
    OpenAlexUrlWith(query, perPage, ConceptFilter())
  }

  function OpenAlexUrlWith(query: string, perPage: int, filter: string): string
  {
    OpenAlexWorks + "?search=" + Url.QuotePlus(query, ":|")
    + "&per-page=" + Url.QuotePlus(Strings.IntToDecimal(perPage), ":|")
    + "&filter=" + Url.QuotePlus(filter, ":|")
  }

  /** The request ends with the encoded filter, which decodes back to the filter's own bytes. */
  lemma OpenAlexUrlCarriesFilter(query: string, perPage: int, filter: string)
    ensures var u := OpenAlexUrlWith(query, perPage, filter);
            var f := Url.QuotePlus(filter, ":|");
            |f| <= |u| && u[|u| - |f|..] == f
            && Url.PercentDecode(f) == Some(Url.Utf8String(filter))
  {
    Url.DecodeEncode(filter, ":|", true);
  }

  /**
   The `search` parameter of the OpenAlex request holds the query, encoded without `&` (so it
   ends where the `per-page` parameter begins), and decoding it gives back the query's bytes.
   */
  lemma OpenAlexUrlCarriesSearch(query: string, perPage: int, filter: string)
    ensures var u := OpenAlexUrlWith(query, perPage, filter);
            var q := Url.QuotePlus(query, ":|");
            var start := |OpenAlexWorks + "?search="|;
            start + |q| + 10 <= |u| && u[start..start + |q|] == q && u[start + |q|..start + |q| + 10] == "&per-page="
            && '&' !in q
            && Url.PercentDecode(q) == Some(Url.Utf8String(query))
  {
    ParameterAt(OpenAlexWorks + "?search=", Url.QuotePlus(query, ":|"), "&per-page=",
                Url.QuotePlus(Strings.IntToDecimal(perPage), ":|"), "&filter=", Url.QuotePlus(filter, ":|"));
    QuotedParameter(query, ":|");
  }

  /** The Semantic Scholar query: the user's words followed by the subject keywords. */
  function EnhancedQuery(query: string): (q: string)
    ensures query <= q
    ensures q[|query|..] == " theology philosophy religion"
  {
    query + DomainKeywords
  }

  /** The Semantic Scholar request as `requests` encodes `params` (query, limit, fields). */
  function SemanticScholarUrl(query: string, limit: int): string
  {
    SemanticScholarUrlWith(query, limit, SemanticScholarFields)
  }

  function SemanticScholarUrlWith(query: string, limit: int, fields: string): string
  {
    SemanticScholarSearch + "?query=" + Url.QuotePlus(EnhancedQuery(query), "")
    + "&limit=" + Url.QuotePlus(Strings.IntToDecimal(limit), "")
    + "&fields=" + Url.QuotePlus(fields, "")
  }

  /** A parameter value between the text before it and the next parameter's name. */
  lemma ParameterAt(a: string, q: string, name: string, x: string, y: string, z: string)
    ensures var u := a + q + name + x + y + z;
            |a| + |q| + |name| <= |u| && u[|a|..|a| + |q|] == q && u[|a| + |q|..|a| + |q| + |name|] == name
  {
    var u := a + q + name + x + y + z;
    var rest := x + y + z;
    assert u == a + (q + (name + rest));
    assert u[|a|..] == q + (name + rest);
  }

  /**
   The `query` parameter of the Semantic Scholar request holds the enhanced query, encoded
   without `&` (so it ends where the `limit` parameter begins), and decoding it gives back the
   enhanced query's own bytes.
   */
  lemma SemanticScholarUrlCarriesQuery(query: string, limit: int, fields: string)
    ensures var u := SemanticScholarUrlWith(query, limit, fields);
            var q := Url.QuotePlus(EnhancedQuery(query), "");
            var start := |SemanticScholarSearch + "?query="|;
            start + |q| + 7 <= |u| && u[start..start + |q|] == q && u[start + |q|..start + |q| + 7] == "&limit="
            && '&' !in q
            && Url.PercentDecode(q) == Some(Url.Utf8String(EnhancedQuery(query)))
  {
    var q := Url.QuotePlus(EnhancedQuery(query), "");
    ParameterAt(SemanticScholarSearch + "?query=", q, "&limit=", Url.QuotePlus(Strings.IntToDecimal(limit), ""),
                "&fields=", Url.QuotePlus(fields, ""));
    QuotedParameter(EnhancedQuery(query), "");
  }

  /**
   A `quote_plus` parameter value whose extra kept characters include none of `&`, `%` and `+`
   holds no `&`, and decodes back to the text's bytes.
   */
  lemma QuotedParameter(text: string, safe: string)
    requires '&' !in safe && '%' !in safe && '+' !in safe
    ensures var q := Url.QuotePlus(text, safe);
            '&' !in q && Url.PercentDecode(q) == Some(Url.Utf8String(text))
  {
    Url.DecodeEncode(text, safe, true);
    Url.EncodeAvoids(text, safe, true, '&');
  }

  // ---------------------------------------------------------------------------
  // Inverted-index abstracts
  // ---------------------------------------------------------------------------

  /** A decoded inverted index: each word with the positions it occupies, in dict order. */
  type Index = seq<(string, seq<int>)>

  /** A position/word pair of the flattened index. */
  type Slot = (int, string)

  /**
   The positions of one word. A list of integers decodes; an empty string or empty dict
   iterates to nothing; every other shape is the model's failing case.
   */
  function DecodePositions(v: Value): Option<seq<int>>
  {
    match v
    case List(items) => DecodeInts(items)
    case Str(s) => if |s| == 0 then Some([]) else None
    case Dict(e) => if |e| == 0 then Some([]) else None
    case _ => None
  }

  /** A list of positions decodes exactly when every element is an integer, element by element. */
  function DecodeInts(items: seq<Value>): (r: Option<seq<int>>)
    ensures r.Some? <==> forall i :: 0 <= i < |items| ==> items[i].Int?
    ensures r.Some? ==> |r.value| == |items| && forall i :: 0 <= i < |items| ==> r.value[i] == items[i].i
  {
    if |items| == 0 then Some([])
    else if !items[0].Int? then None
    else match DecodeInts(items[1..])
      case Some(rest) => Some([items[0].i] + rest)
      case None => None
  }

  /** An index decodes exactly when every word's positions do; words keep their dict order. */
  function DecodeIndex(entries: Entries): (r: Option<Index>)
    ensures r.Some? <==> forall i :: 0 <= i < |entries| ==> DecodePositions(entries[i].1).Some?
    ensures r.Some? ==> |r.value| == |entries|
                        && forall i :: 0 <= i < |entries| ==> r.value[i] == (entries[i].0, DecodePositions(entries[i].1).value)
  {
    if |entries| == 0 then Some([])
    else match (DecodePositions(entries[0].1), DecodeIndex(entries[1..]))
      case (Some(ps), Some(rest)) => Some([(entries[0].0, ps)] + rest)
      case _ => None
  }

  function TotalPositions(idx: Index): nat
  {
    if |idx| == 0 then 0 else |idx[0].1| + TotalPositions(idx[1..])
  }

  /** `(pos, word)` for every position of every word, words in dict order, positions in list order. */
  function Flatten(idx: Index): (slots: seq<Slot>)
    ensures |slots| == TotalPositions(idx)
  {
    if |idx| == 0 then []
    else
      var (w, ps) := idx[0];
      seq(|ps|, i requires 0 <= i < |ps| => (ps[i], w)) + Flatten(idx[1..])
  }

  predicate SortedByPos(s: seq<Slot>)
  {
    forall i, j :: 0 <= i < j < |s| ==> s[i].0 <= s[j].0
  }

  /** The slots at position `p`, in their order in `s`. */
  function AtPos(s: seq<Slot>, p: int): seq<Slot>
  {
    if |s| == 0 then [] else (if s[0].0 == p then [s[0]] else []) + AtPos(s[1..], p)
  }

  /** The slots at `p` of a sequence with one more slot in front. */
  lemma AtPosCons(y: Slot, rest: seq<Slot>, p: int)
    ensures AtPos([y] + rest, p) == (if y.0 == p then [y] else []) + AtPos(rest, p)
  {
    assert ([y] + rest)[1..] == rest;
  }

  lemma {:induction false} AtPosAppend(a: seq<Slot>, b: seq<Slot>, p: int)
    ensures AtPos(a + b, p) == AtPos(a, p) + AtPos(b, p)
    decreases |a|
  {
    if |a| == 0 {
      assert a + b == b;
    } else {
      var h: seq<Slot> := if a[0].0 == p then [a[0]] else [];
      assert a + b == [a[0]] + (a[1..] + b);
      assert a == [a[0]] + a[1..];
      AtPosCons(a[0], a[1..] + b, p);
      AtPosCons(a[0], a[1..], p);
      AtPosAppend(a[1..], b, p);
      assert h + (AtPos(a[1..], p) + AtPos(b, p)) == (h + AtPos(a[1..], p)) + AtPos(b, p);
    }
  }

  /** Places `x` before the first slot whose position is not smaller: after every smaller one. */
  function InsertByPos(x: Slot, s: seq<Slot>): (r: seq<Slot>)
    ensures |r| == |s| + 1
    decreases |s|
  {
    if |s| == 0 || x.0 <= s[0].0 then [x] + s
    else [s[0]] + InsertByPos(x, s[1..])
  }

  /** Insertion adds `x` and loses nothing. */
  lemma {:induction false} InsertByPosPermutes(x: Slot, s: seq<Slot>)
    ensures multiset(InsertByPos(x, s)) == multiset(s) + multiset{x}
    decreases |s|
  {
    if |s| > 0 && x.0 > s[0].0 {
      InsertByPosPermutes(x, s[1..]);
      assert s == [s[0]] + s[1..];
    }
  }

  /** A bound below `x` and below every slot of `s` stays below every slot after insertion. */
  lemma {:induction false} InsertByPosAbove(x: Slot, s: seq<Slot>, lo: int)
    requires lo <= x.0
    requires forall i :: 0 <= i < |s| ==> lo <= s[i].0
    ensures forall i :: 0 <= i < |s| + 1 ==> lo <= InsertByPos(x, s)[i].0
    decreases |s|
  {
    if |s| > 0 && x.0 > s[0].0 {
      InsertByPosAbove(x, s[1..], lo);
      var r := InsertByPos(x, s);
      var rest := InsertByPos(x, s[1..]);
      assert r == [s[0]] + rest;
      forall i | 0 < i < |s| + 1
        ensures lo <= r[i].0
      {
        assert r[i] == rest[i - 1];
      }
    }
  }

  /** Insertion into an ordered sequence keeps it ordered. */
  lemma {:induction false} InsertByPosSorted(x: Slot, s: seq<Slot>)
    requires SortedByPos(s)
    ensures SortedByPos(InsertByPos(x, s))
    decreases |s|
  {
    if |s| > 0 && x.0 > s[0].0 {
      var tail := s[1..];
      var rest := InsertByPos(x, tail);
      assert SortedByPos(tail);
      InsertByPosSorted(x, tail);
      forall i | 0 <= i < |tail|
        ensures s[0].0 <= tail[i].0
      {
        assert tail[i] == s[i + 1];
      }
      InsertByPosAbove(x, tail, s[0].0);
      var r := [s[0]] + rest;
      assert InsertByPos(x, s) == r;
      forall i, j | 0 <= i < j < |r|
        ensures r[i].0 <= r[j].0
      {
        assert r[j] == rest[j - 1];
        if i > 0 {
          assert r[i] == rest[i - 1];
        }
      }
    }
  }

  /** Moving `x` past a slot at a smaller position does not change the slots at any one position. */
  lemma SwapPastSmaller(x: Slot, y: Slot, tail: seq<Slot>, rest: seq<Slot>, p: int)
    requires x.0 > y.0
    requires AtPos(rest, p) == AtPos([x] + tail, p)
    ensures AtPos([y] + rest, p) == AtPos([x] + ([y] + tail), p)
  {
    AtPosCons(y, rest, p);
    AtPosCons(x, tail, p);
    AtPosCons(y, tail, p);
    AtPosCons(x, [y] + tail, p);
  }

  /** Insertion keeps, at every position, the order `x` first and then the slots of `s`. */
  lemma {:induction false} InsertByPosStable(x: Slot, s: seq<Slot>, p: int)
    ensures AtPos(InsertByPos(x, s), p) == AtPos([x] + s, p)
    decreases |s|
  {
    if |s| > 0 && x.0 > s[0].0 {
      var rest := InsertByPos(x, s[1..]);
      InsertByPosStable(x, s[1..], p);
      assert InsertByPos(x, s) == [s[0]] + rest;
      SwapPastSmaller(x, s[0], s[1..], rest, p);
      assert [s[0]] + s[1..] == s;
    }
  }

  /** Inserting the first slot into anything with the same slots per position as the rest gives back those of the whole. */
  lemma InsertKeepsPositions(s: seq<Slot>, rest: seq<Slot>)
    requires |s| > 0
    requires forall p :: AtPos(rest, p) == AtPos(s[1..], p)
    ensures forall p :: AtPos(InsertByPos(s[0], rest), p) == AtPos(s, p)
  {
    forall p
      ensures AtPos(InsertByPos(s[0], rest), p) == AtPos(s, p)
    {
      InsertByPosStable(s[0], rest, p);
      AtPosCons(s[0], rest, p);
      AtPosCons(s[0], s[1..], p);
      assert [s[0]] + s[1..] == s;
    }
  }


  /** One step of the sort: inserting the first slot into the sorted rest sorts the whole. */
  lemma SortStep(s: seq<Slot>, rest: seq<Slot>)
    requires |s| > 0 && |rest| == |s| - 1
    requires multiset(rest) == multiset(s[1..]) && SortedByPos(rest)
    requires forall p :: AtPos(rest, p) == AtPos(s[1..], p)
    ensures var r := InsertByPos(s[0], rest);
            |r| == |s| && multiset(r) == multiset(s) && SortedByPos(r)
            && forall p :: AtPos(r, p) == AtPos(s, p)
  {
    assert s == [s[0]] + s[1..];
    InsertByPosPermutes(s[0], rest);
    InsertByPosSorted(s[0], rest);
    InsertKeepsPositions(s, rest);
  }

  /**
   Python's stable `list.sort(key=position)`: the result is ordered by position and, at every
   position, holds exactly the input's slots in the input's order. Those two facts determine a
   stable sort's output, so this is its complete description.
   */
  function SortByPos(s: seq<Slot>): (r: seq<Slot>)
    ensures |r| == |s|
    ensures multiset(r) == multiset(s)
    ensures SortedByPos(r)
    ensures forall p :: AtPos(r, p) == AtPos(s, p)
    decreases |s|
  {
    if |s| == 0 then []
    else
      var rest := SortByPos(s[1..]);
      SortStep(s, rest);
      InsertByPos(s[0], rest)
  }

  function Words(slots: seq<Slot>): (ws: seq<string>)
    ensures |ws| == |slots|
    ensures forall i :: 0 <= i < |slots| ==> ws[i] == slots[i].1
  {
    seq(|slots|, i requires 0 <= i < |slots| => slots[i].1)
  }

  /** The reconstructed word order: every position once, ascending, ties in dict order. */
  function Reconstruct(idx: Index): (slots: seq<Slot>)
    ensures |slots| == TotalPositions(idx)
    ensures SortedByPos(slots)
    ensures forall p :: AtPos(slots, p) == AtPos(Flatten(idx), p)
  {
    SortByPos(Flatten(idx))
  }

  /**
   `_inverted_index_to_text`: an empty or non-dict value gives `""`; otherwise the words in
   position order joined by single spaces. Malformed positions are the case Python fails on.
   */
  function InvertedIndexToText(v: Value): (r: Result<string>)
    ensures !Truthy(v) || !v.Dict? ==> r == Ok("")
    ensures Truthy(v) && v.Dict? ==> (r.Ok? <==> DecodeIndex(v.entries).Some?)
    ensures Truthy(v) && v.Dict? && DecodeIndex(v.entries).Some? ==>
              r == Ok(Strings.Join(" ", Words(Reconstruct(DecodeIndex(v.entries).value))))
  {
    if !Truthy(v) || !v.Dict? then Ok("")
    else match DecodeIndex(v.entries)
      case None => Err("unsupported positions in inverted index")
      case Some(idx) => Ok(Strings.Join(" ", Words(Reconstruct(idx))))
  }

  /**
   The word count of the text is the number of positions: when no word contains a space and
   there is at least one position, splitting the text on spaces gives back the words in order.
   */
  lemma ReconstructedTextSplits(idx: Index)
    requires TotalPositions(idx) >= 1
    requires forall i :: 0 <= i < |idx| ==> ' ' !in idx[i].0
    ensures var ws := Words(Reconstruct(idx));
            Strings.Split(' ', Strings.Join(" ", ws)) == ws && |ws| == TotalPositions(idx)
  {
    var slots := Reconstruct(idx);
    var flat := Flatten(idx);
    FlattenWords(idx);
    forall i | 0 <= i < |slots|
      ensures ' ' !in slots[i].1
    {
      assert slots[i] in multiset(flat);
      assert slots[i] in flat;
    }
    Strings.SplitJoin(' ', Words(slots));
  }

  /** Every flattened slot carries a word of the index. */
  lemma {:induction false} FlattenWords(idx: Index)
    ensures forall s :: s in Flatten(idx) ==> exists i :: 0 <= i < |idx| && s.1 == idx[i].0
    decreases |idx|
  {
    if |idx| > 0 {
      FlattenWords(idx[1..]);
      var (w, ps) := idx[0];
      var head := seq(|ps|, i requires 0 <= i < |ps| => (ps[i], w));
      assert Flatten(idx) == head + Flatten(idx[1..]);
      forall s | s in Flatten(idx)
        ensures exists i :: 0 <= i < |idx| && s.1 == idx[i].0
      {
        if s in head {
          assert s.1 == idx[0].0;
        } else {
          assert s in Flatten(idx[1..]);
          var j :| 0 <= j < |idx[1..]| && s.1 == idx[1..][j].0;
          assert s.1 == idx[j + 1].0;
        }
      }
    }
  }

  lemma FoxIndexDecodes()
    ensures DecodeIndex([("the", List([Int(0), Int(2)])), ("fox", List([Int(1)]))]) == Some([("the", [0, 2]), ("fox", [1])])
  {
    var e := [("the", List([Int(0), Int(2)])), ("fox", List([Int(1)]))];
    assert DecodeInts([]) == Some([]);
    assert [Int(1)][1..] == [] && [Int(0), Int(2)][1..] == [Int(2)] && [Int(2)][1..] == [];
    assert DecodeInts([Int(1)]) == Some([1] + []);
    assert [1] + [] == [1] && [2] + [] == [2] && [0] + [2] == [0, 2];
    assert DecodeInts([Int(2)]) == Some([2] + []);
    assert DecodeInts([Int(0), Int(2)]) == Some([0] + [2]);
    assert e[1..][1..] == [];
    assert DecodeIndex(e[1..]) == Some([("fox", [1])] + []);
    assert [("fox", [1])] + [] == [("fox", [1])];
    assert DecodeIndex(e) == Some([("the", [0, 2])] + [("fox", [1])]);
    assert [("the", [0, 2])] + [("fox", [1])] == [("the", [0, 2]), ("fox", [1])];
  }

  lemma FlattenFox(idx: Index)
    requires idx == [("the", [0, 2]), ("fox", [1])]
    ensures Flatten(idx) == [(0, "the"), (2, "the"), (1, "fox")]
  {
    var the := seq(2, i requires 0 <= i < 2 => ([0, 2][i], "the"));
    var fox := seq(1, i requires 0 <= i < 1 => ([1][i], "fox"));
    assert the[0] == (0, "the") && the[1] == (2, "the");
    assert the == [(0, "the"), (2, "the")];
    assert fox == [(1, "fox")];
    assert idx[1..][1..] == [];
    assert Flatten(idx[1..]) == fox + Flatten([]);
    assert Flatten(idx) == the + Flatten(idx[1..]);
  }

  lemma FoxIndexReconstructs()
    ensures Words(Reconstruct([("the", [0, 2]), ("fox", [1])])) == ["the", "fox", "the"]
  {
    var idx: Index := [("the", [0, 2]), ("fox", [1])];
    var flat: seq<Slot> := [(0, "the"), (2, "the"), (1, "fox")];
    var sorted: seq<Slot> := [(0, "the"), (1, "fox"), (2, "the")];
    FlattenFox(idx);
    SortedExample(flat, sorted);
    WordsOfSorted(sorted);
  }

  /** The words of the sorted example, read off in position order. */
  lemma WordsOfSorted(sorted: seq<Slot>)
    requires sorted == [(0, "the"), (1, "fox"), (2, "the")]
    ensures Words(sorted) == ["the", "fox", "the"]
  {
  }

  /** Sorting takes the first slot and inserts it into the sorted rest. */
  lemma SortByPosStep(s: seq<Slot>)
    requires |s| > 0
    ensures SortByPos(s) == InsertByPos(s[0], SortByPos(s[1..]))
  {
  }

  lemma InsertLastThe()
    ensures InsertByPos((2, "the"), [(1, "fox")]) == [(1, "fox"), (2, "the")]
  {
    var one: seq<Slot> := [(1, "fox")];
    assert one[1..] == [];
    assert InsertByPos((2, "the"), []) == [(2, "the")];
  }

  lemma InsertFirstThe()
    ensures InsertByPos((0, "the"), [(1, "fox"), (2, "the")]) == [(0, "the"), (1, "fox"), (2, "the")]
  {
  }

  /** Sorting the flattened example, one insertion at a time. */
  lemma SortedExample(flat: seq<Slot>, sorted: seq<Slot>)
    requires flat == [(0, "the"), (2, "the"), (1, "fox")]
    requires sorted == [(0, "the"), (1, "fox"), (2, "the")]
    ensures SortByPos(flat) == sorted
  {
    var one: seq<Slot> := [(1, "fox")];
    var two: seq<Slot> := [(2, "the"), (1, "fox")];
    SortByPosStep(one);
    assert one[1..] == [];
    assert InsertByPos((1, "fox"), []) == [(1, "fox")];
    SortByPosStep(two);
    assert two[1..] == one;
    InsertLastThe();
    SortByPosStep(flat);
    assert flat[1..] == two;
    InsertFirstThe();
  }

  /** The worked example: `{"the": [0, 2], "fox": [1]}` reads `"the fox the"`. */
  lemma TheFoxThe()
    ensures InvertedIndexToText(Dict([("the", List([Int(0), Int(2)])), ("fox", List([Int(1)]))])) == Ok("the fox the")
  {
    var e := [("the", List([Int(0), Int(2)])), ("fox", List([Int(1)]))];
    var idx: Index := [("the", [0, 2]), ("fox", [1])];
    FoxIndexDecodes();
    FoxIndexReconstructs();
    JoinFox();
    TextOfDecodedIndex(e, idx, ["the", "fox", "the"], "the fox the");
  }

  /** The example's words joined by single spaces. */
  lemma JoinFox()
    ensures Strings.Join(" ", ["the", "fox", "the"]) == "the fox the"
  {
  }

  lemma TextOfDecodedIndex(e: Entries, idx: Index, ws: seq<string>, text: string)
    requires |e| > 0 && DecodeIndex(e) == Some(idx)
    requires Words(Reconstruct(idx)) == ws && Strings.Join(" ", ws) == text
    ensures InvertedIndexToText(Dict(e)) == Ok(text)
  {
  }

  // ---------------------------------------------------------------------------
  // Provider items
  // ---------------------------------------------------------------------------

  /**
   A search result as `search_openalex` / `search_semanticscholar` return it. `url` is
   `None` for OpenAlex results, which carry no such key.
   */
  datatype Paper = Paper(id: Value, title: Value, doi: Value, abstractText: Value, year: Value, url: Option<Value>)

  /**
   One OpenAlex item: a truthy inverted index wins (even one that reconstructs to `""`),
   otherwise a truthy plain `abstract`, otherwise `""`.
   */
  function OpenAlexPaper(item: Entries): (r: Result<Paper>)
    ensures var ii := GetOr(item, "abstract_inverted_index", Null);
            r.Err? <==> (Truthy(ii) && InvertedIndexToText(ii).Err?)
    ensures var ii := GetOr(item, "abstract_inverted_index", Null);
            Truthy(ii) && InvertedIndexToText(ii).Ok? ==> r.Ok? && r.value.abstractText == Str(InvertedIndexToText(ii).value)
    ensures var ii := GetOr(item, "abstract_inverted_index", Null);
            var plain := GetOr(item, "abstract", Null);
            !Truthy(ii) ==> r.Ok? && r.value.abstractText == (if Truthy(plain) then plain else Str(""))
    ensures r.Ok? ==> r.value.id == GetOr(item, "id", Null) && r.value.title == GetOr(item, "title", Null)
                      && r.value.doi == GetOr(item, "doi", Null) && r.value.year == GetOr(item, "publication_year", Null)
                      && r.value.url == None
  {
    var ii := GetOr(item, "abstract_inverted_index", Null);
    var plain := GetOr(item, "abstract", Null);
    var abstractText: Result<Value> :=
      if Truthy(ii) then
        (match InvertedIndexToText(ii) case Ok(t) => Ok(Str(t)) case Err(e) => Err(e))
      else if Truthy(plain) then Ok(plain)
      else Ok(Str(""));
    match abstractText
    case Err(e) => Err(e)
    case Ok(a) =>
      Ok(Paper(GetOr(item, "id", Null), GetOr(item, "title", Null), GetOr(item, "doi", Null), a,
               GetOr(item, "publication_year", Null), None))
  }

  /**
   One Semantic Scholar item: the DOI comes from `externalIds.DOI`; a missing or falsy
   `externalIds` gives no DOI; a truthy non-dict one is the case Python fails on.
   */
  function SemanticScholarPaper(el: Entries): (r: Result<Paper>)
    ensures var ext := GetOr(el, "externalIds", Null);
            r.Err? <==> (Truthy(ext) && !ext.Dict?)
    ensures !Truthy(GetOr(el, "externalIds", Null)) ==> r.Ok? && r.value.doi == Null
    ensures var ext := GetOr(el, "externalIds", Null);
            Truthy(ext) && ext.Dict? ==> r.Ok? && r.value.doi == GetOr(ext.entries, "DOI", Null)
    ensures r.Ok? ==> r.value.id == GetOr(el, "paperId", Null) && r.value.abstractText == GetOr(el, "abstract", Null)
                      && r.value.title == GetOr(el, "title", Null) && r.value.year == GetOr(el, "year", Null)
                      && r.value.url == Some(GetOr(el, "url", Null))
  {
    var ext := Or(GetOr(el, "externalIds", Null), Dict([]));
    if !ext.Dict? then Err("externalIds has no attribute 'get'")
    else
      Ok(Paper(GetOr(el, "paperId", Null), GetOr(el, "title", Null), GetOr(ext.entries, "DOI", Null),
               GetOr(el, "abstract", Null), GetOr(el, "year", Null), Some(GetOr(el, "url", Null))))
  }

  /** Iterating a JSON value whose elements must be dicts; failure is the case Python fails on. */
  function DictItems(v: Value): (r: Result<seq<Entries>>)
    ensures v.List? && (forall i :: 0 <= i < |v.items| ==> v.items[i].Dict?) ==>
              r.Ok? && |r.value| == |v.items| && forall i :: 0 <= i < |v.items| ==> r.value[i] == v.items[i].entries
    ensures r.Ok? <==> (v.List? && forall i :: 0 <= i < |v.items| ==> v.items[i].Dict?)
                       || (v.Str? && |v.s| == 0) || (v.Dict? && |v.entries| == 0)
    ensures r.Ok? && !v.List? ==> r.value == []
  {
    match v
    case List(items) =>
      if forall i :: 0 <= i < |items| ==> items[i].Dict? then Ok(seq(|items|, i requires 0 <= i < |items| => items[i].entries))
      else Err("result item has no attribute 'get'")
    case Str(s) => if |s| == 0 then Ok([]) else Err("result item has no attribute 'get'")
    case Dict(e) => if |e| == 0 then Ok([]) else Err("result item has no attribute 'get'")
    case _ => Err("results are not iterable")
  }

  /** Maps every item, in order, or fails at the first item that fails. */
  function MapPapers(items: seq<Entries>, f: Entries -> Result<Paper>): (r: Result<seq<Paper>>)
    ensures r.Ok? <==> forall i :: 0 <= i < |items| ==> f(items[i]).Ok?
    ensures r.Ok? ==> |r.value| == |items| && forall i :: 0 <= i < |items| ==> r.value[i] == f(items[i]).value
    decreases |items|
  {
    if |items| == 0 then Ok([])
    else match (f(items[0]), MapPapers(items[1..], f))
      case (Ok(p), Ok(ps)) => Ok([p] + ps)
      case (Err(e), _) => Err(e)
      case (_, Err(e)) => Err(e)
  }

  /**
   The list under `key` in a successful JSON response. `raise_for_status` rejects 4xx/5xx,
   a body that is not JSON or not an object fails, and a missing key means no results.
   */
  function ResponseItems(resp: Http.Outcome, key: string): (r: Result<seq<Entries>>)
    ensures resp.Failed? ==> r.Err?
    ensures resp.Response? && 400 <= resp.status < 600 ==> r.Err?
    ensures r.Ok? ==> resp.Response? && resp.body.Some? && resp.body.value.Dict?
    ensures (resp.Response? && !(400 <= resp.status < 600) && resp.body.Some? && resp.body.value.Dict?
             && Get(resp.body.value.entries, key).None?) ==> r == Ok([])
    ensures (resp.Response? && !(400 <= resp.status < 600) && resp.body.Some? && resp.body.value.Dict?
             && Get(resp.body.value.entries, key).Some?) ==> r == DictItems(Get(resp.body.value.entries, key).value)
  {
    match resp
    case Failed(e) => Err(e)
    case Response(status, body) =>
      if 400 <= status < 600 then Err("HTTP error status")
      else match body
        case None => Err("response is not JSON")
        case Some(data) =>
          if !data.Dict? then Err("response has no attribute 'get'")
          else DictItems(GetOr(data.entries, key, List([])))
  }

  /** `search_openalex`: one request, one paper per item of `results`, in order. */
  function SearchOpenAlex(query: string, perPage: int, http: Http.Fetch): (r: Result<seq<Paper>>)
    ensures var items := ResponseItems(http(OpenAlexUrl(query, perPage)), "results");
            r.Ok? <==> (items.Ok? && forall i :: 0 <= i < |items.value| ==> OpenAlexPaper(items.value[i]).Ok?)
    ensures var items := ResponseItems(http(OpenAlexUrl(query, perPage)), "results");
            r.Ok? ==> |r.value| == |items.value|
                      && forall i :: 0 <= i < |r.value| ==> r.value[i] == OpenAlexPaper(items.value[i]).value
  {
    match ResponseItems(http(OpenAlexUrl(query, perPage)), "results")
    case Err(e) => Err(e)
    case Ok(items) => MapPapers(items, OpenAlexPaper)
  }

  /** `search_semanticscholar`: one request, one paper per item of `data`, in order. */
  function SearchSemanticScholar(query: string, limit: int, http: Http.Fetch): (r: Result<seq<Paper>>)
    ensures var items := ResponseItems(http(SemanticScholarUrl(query, limit)), "data");
            r.Ok? <==> (items.Ok? && forall i :: 0 <= i < |items.value| ==> SemanticScholarPaper(items.value[i]).Ok?)
    ensures var items := ResponseItems(http(SemanticScholarUrl(query, limit)), "data");
            r.Ok? ==> |r.value| == |items.value|
                      && forall i :: 0 <= i < |r.value| ==> r.value[i] == SemanticScholarPaper(items.value[i]).value
  {
    match ResponseItems(http(SemanticScholarUrl(query, limit)), "data")
    case Err(e) => Err(e)
    case Ok(items) => MapPapers(items, SemanticScholarPaper)
  }

  // ---------------------------------------------------------------------------
  // Records
  // ---------------------------------------------------------------------------

  /** The canonical document record handed to the vector store. */
  datatype Record = Record(id: Value, title: Value, text: Value, metadata: Entries)
  {
    /** The record as the dict the store receives. */
    function AsDict(): Entries
    {
      [("id", id), ("title", title), ("text", text), ("metadata", Dict(metadata))]
    }
  }

  /**
   The record of one paper: `text` is the abstract or `""`; metadata holds `title`, `doi`
   (default `""`), `year` (default `0`) and `url` (the DOI, else the id, else `""`).
   */
  function ToRecord(p: Paper): (rec: Record)
    ensures rec.id == p.id && rec.title == p.title
    ensures rec.text == (if Truthy(p.abstractText) then p.abstractText else Str(""))
    ensures Keys(rec.metadata) == ["title", "doi", "year", "url"]
    ensures Get(rec.metadata, "title") == Some(if Truthy(p.title) then p.title else Str(""))
    ensures Get(rec.metadata, "doi") == Some(if Truthy(p.doi) then p.doi else Str(""))
    ensures Get(rec.metadata, "year") == Some(if Truthy(p.year) then p.year else Int(0))
    ensures Get(rec.metadata, "url") == Some(if Truthy(p.doi) then p.doi else if Truthy(p.id) then p.id else Str(""))
  {
    var m := [("title", Or(p.title, Str(""))), ("doi", Or(p.doi, Str(""))),
              ("year", Or(p.year, Int(0))), ("url", Or(p.doi, Or(p.id, Str(""))))];
    assert Get(m, "year") == Get(m[1..], "year") == Get(m[2..], "year");
    assert Get(m, "url") == Get(m[1..], "url") == Get(m[2..], "url") == Get(m[3..], "url");
    Record(p.id, p.title, Or(p.abstractText, Str("")), m)
  }

  /** `ingest_openalex_query`: exactly one record per search result, in the same order. */
  function IngestOpenAlexQuery(query: string, maxResults: int, http: Http.Fetch): (r: Result<seq<Record>>)
    ensures r.Ok? <==> SearchOpenAlex(query, maxResults, http).Ok?
    ensures r.Ok? ==> var papers := SearchOpenAlex(query, maxResults, http).value;
                      |r.value| == |papers| && forall i :: 0 <= i < |papers| ==> r.value[i] == ToRecord(papers[i])
  {
    var found := SearchOpenAlex(query, maxResults, http);
    if found.Err? then Err(found.message) else Ok(Records(found.value))
  }

  function Records(papers: seq<Paper>): (recs: seq<Record>)
    ensures |recs| == |papers|
    ensures forall i :: 0 <= i < |papers| ==> recs[i] == ToRecord(papers[i])
  {
    seq(|papers|, i requires 0 <= i < |papers| => ToRecord(papers[i]))
  }
}
