/**
 Answer composition. The library links percent-encode a query into the OMNI and JSTOR search
 URLs. The prompt gives one block per retrieved hit, and the placeholder answer is built from
 the top hits without any model. `Generate` is the mode dispatch, with the budget gate, the
 missing-key fallback and the usage accounting of the API path. The chat model is the oracle
 `chat`; the prose instructions of the prompt are an opaque constant.
 */
module Llm {
  import opened Wrappers
  import opened Json
  import Strings
  import Url
  import Usage
  import VectorStore

  const OmniSearch: string := "https://omni.scholarsportal.info/search?q="
  const JstorSearch: string := "https://www.jstor.org/action/doBasicSearch?Query="

  /** How many characters of a document the prompt and the placeholder quote. */
  const PromptExcerpt: nat := 1500
  const PlaceholderExcerpt: nat := 300
  /** How many hits the placeholder lists. */
  const PlaceholderHits: nat := 3

  /** `quote_plus` of anything but a string fails with this error. */
  const QuoteTypeError: string := "quote_from_bytes() expected bytes"
  const ErrorPrefix: string := "Error calling OpenAI: "

  // ---------------------------------------------------------------------------
  // Library links
  // ---------------------------------------------------------------------------

  datatype Links = Links(omni: string, jstor: string)

  /** `generate_library_links`: both links end in the same `quote_plus` encoding of the query. */
  function LibraryLinks(query: string): (l: Links)
    ensures OmniSearch <= l.omni && JstorSearch <= l.jstor
    ensures l.omni[|OmniSearch|..] == l.jstor[|JstorSearch|..] == Url.QuotePlus(query, "")
  {
    var q := Url.QuotePlus(query, "");
    Links(OmniSearch + q, JstorSearch + q)
  }

  /**
   What the links carry: the encoded query has no space, decodes back to the query's UTF-8
   bytes, and is the query itself when the query has only unreserved characters.
   */
  lemma LibraryLinksCarryQuery(query: string)
    ensures var enc := LibraryLinks(query).omni[|OmniSearch|..];
            ' ' !in enc
            && Url.PercentDecode(enc) == Some(Url.Utf8String(query))
            && ((forall i :: 0 <= i < |query| ==> Url.Unreserved(query[i])) ==> enc == query)
  {
    Url.DecodeEncode(query, "", true);
    if forall i :: 0 <= i < |query| ==> Url.Unreserved(query[i]) {
      Url.EncodeUnreserved(query, "", true);
    }
  }

  /** The links for a title from the store, which may hold any value: only strings can be encoded. */
  function TitleLinks(title: Value): (r: Result<Links>)
    ensures r.Ok? <==> title.Str?
    ensures title.Str? ==> r == Ok(LibraryLinks(title.s))
  {
    if title.Str? then Ok(LibraryLinks(title.s)) else Err(QuoteTypeError)
  }

  // ---------------------------------------------------------------------------
  // The prompt
  // ---------------------------------------------------------------------------

  /** The role statement and the heading of the context section, which precede the context. */
  const Preamble: string := " \"You are GRAYSON, a scholarly research assistant.\n\nCONTEXT FROM RETRIEVED SOURCES:\n"
  /** The answering instructions and response format, which follow the question. */
  const Instructions: string := "INSTRUCTIONS:\n(answer the question first; cite the OMNI and JSTOR links; end with \"Have you considered?\")"

  /** `d.get('metadata', {}).get('title', d.get('id'))`. */
  function PromptTitle(h: VectorStore.Hit): Value
  {
    GetOr(h.metadata, "title", Str(h.id))
  }

  /** The source URL shown: `doi`, else `url`, else `N/A`, chosen by presence of the key. */
  function OriginalUrl(meta: Entries, fallback: string): (v: Value)
    ensures Get(meta, "doi").Some? ==> v == Get(meta, "doi").value
    ensures Get(meta, "doi").None? && Get(meta, "url").Some? ==> v == Get(meta, "url").value
    ensures Get(meta, "doi").None? && Get(meta, "url").None? ==> v == Str(fallback)
  {
    GetOr(meta, "doi", GetOr(meta, "url", Str(fallback)))
  }

  /** The `Free PDF:` line's value: the link when truthy, else `Not available`. */
  function FreePdfText(meta: Entries, render: Value -> string): (t: string)
    ensures Truthy(GetOr(meta, "free_pdf", Null)) ==> t == PyStr(GetOr(meta, "free_pdf", Null), render)
    ensures !Truthy(GetOr(meta, "free_pdf", Null)) ==> t == "Not available"
  {
    var f := GetOr(meta, "free_pdf", Null);
    if Truthy(f) then PyStr(f, render) else "Not available"
  }

  /** Everything of a block before the excerpt. */
  function BlockHeader(h: VectorStore.Hit, links: Links, render: Value -> string): string
  {
    "Source: " + PyStr(PromptTitle(h), render) + "\n"
    + "Original URL: " + PyStr(OriginalUrl(h.metadata, "N/A"), render) + "\n"
    + "OMNI Link: " + links.omni + "\n"
    + "JSTOR Link: " + links.jstor + "\n"
    + "Free PDF: " + FreePdfText(h.metadata, render) + "\n"
  }

  /**
   One hit's block: the header, then the first (at most) 1500 characters of the document. A
   falsy title gets empty links; a truthy title that is not a string cannot be encoded.
   */
  function Block(h: VectorStore.Hit, render: Value -> string): (r: Result<string>)
    ensures r.Err? <==> Truthy(PromptTitle(h)) && !PromptTitle(h).Str?
    ensures !Truthy(PromptTitle(h)) ==> r == Ok(BlockHeader(h, Links("", ""), render) + Strings.Take(h.document, PromptExcerpt))
    ensures r.Ok? && Truthy(PromptTitle(h)) ==>
              r == Ok(BlockHeader(h, LibraryLinks(PromptTitle(h).s), render) + Strings.Take(h.document, PromptExcerpt))
  {
    var title := PromptTitle(h);
    var links := if Truthy(title) then TitleLinks(title) else Ok(Links("", ""));
    match links
    case Err(e) => Err(e)
    case Ok(l) => Ok(BlockHeader(h, l, render) + Strings.Take(h.document, PromptExcerpt))
  }

  /** Every block ends in its excerpt: a prefix of the document of at most 1500 characters. */
  lemma BlockEndsInExcerpt(h: VectorStore.Hit, render: Value -> string)
    requires Block(h, render).Ok?
    ensures var b := Block(h, render).value;
            var x := Strings.Take(h.document, PromptExcerpt);
            |x| <= |b| && b[|b| - |x|..] == x
            && x <= h.document && |x| <= PromptExcerpt
            && (|h.document| >= PromptExcerpt ==> |x| == PromptExcerpt)
  {
    var b := Block(h, render).value;
    var x := Strings.Take(h.document, PromptExcerpt);
    var n := |b| - |x|;
    assert b[n..] == x;
  }

  /** The blocks of all hits, in order; the first hit whose block fails fails them all. */
  function Blocks(hits: seq<VectorStore.Hit>, render: Value -> string): (r: Result<seq<string>>)
    ensures r.Ok? <==> forall i :: 0 <= i < |hits| ==> Block(hits[i], render).Ok?
    ensures r.Ok? ==> |r.value| == |hits| && forall i :: 0 <= i < |hits| ==> r.value[i] == Block(hits[i], render).value
    decreases |hits|
  {
    if |hits| == 0 then Ok([])
    else match (Block(hits[0], render), Blocks(hits[1..], render))
      case (Ok(b), Ok(bs)) => Ok([b] + bs)
      case (Err(e), _) => Err(e)
      case (_, Err(e)) => Err(e)
  }

  /**
   `_build_prompt`: the preamble, the blocks separated by blank lines, the question, then the
   instructions.
   */
  function BuildPrompt(question: string, hits: seq<VectorStore.Hit>, render: Value -> string): (r: Result<string>)
    ensures r.Ok? <==> Blocks(hits, render).Ok?
    ensures r.Ok? ==> var ctx := Strings.Join("\n\n", Blocks(hits, render).value);
                      |r.value| >= |Preamble| + |ctx| && Preamble <= r.value
                      && r.value[|Preamble|..|Preamble| + |ctx|] == ctx
                      && r.value[|Preamble| + |ctx|..] == "\n\nUSER QUESTION: " + question + "\n\n" + Instructions
  {
    match Blocks(hits, render)
    case Err(e) => Err(e)
    case Ok(blocks) =>
      var ctx := Strings.Join("\n\n", blocks);
      var tail := "\n\nUSER QUESTION: " + question + "\n\n" + Instructions;
      Strings.ConcatParts(Preamble, ctx, tail);
      Ok(Preamble + ctx + tail)
  }

  /** With one hit the context is exactly that hit's block; with none it is empty. */
  lemma PromptContextOfFewHits(question: string, hits: seq<VectorStore.Hit>, render: Value -> string)
    requires |hits| <= 1 && BuildPrompt(question, hits, render).Ok?
    ensures var p := BuildPrompt(question, hits, render).value;
            var tail := "\n\nUSER QUESTION: " + question + "\n\n" + Instructions;
            p == Preamble + (if |hits| == 0 then "" else Block(hits[0], render).value) + tail
  {
    var blocks := Blocks(hits, render).value;
    if |hits| == 0 {
      assert blocks == [];
    } else {
      assert blocks == [Block(hits[0], render).value];
    }
  }

  // ---------------------------------------------------------------------------
  // The placeholder answer
  // ---------------------------------------------------------------------------

  /** `d.get('metadata', {}).get('title', '')`. */
  function PlaceholderTitle(h: VectorStore.Hit): Value
  {
    GetOr(h.metadata, "title", Str(""))
  }

  /** One listed source: title, link and the first (at most) 300 characters, then `...`. */
  function Snippet(h: VectorStore.Hit, render: Value -> string): (s: string)
    ensures var x := Strings.Take(h.document, PlaceholderExcerpt);
            |s| >= |x| + 3 && s[|s| - 3..] == "..." && s[|s| - 3 - |x|..|s| - 3] == x
  {
    var x := Strings.Take(h.document, PlaceholderExcerpt);
    var s := "- [" + PyStr(PlaceholderTitle(h), render) + "](" + PyStr(OriginalUrl(h.metadata, ""), render) + ")\n  " + x + "...";
    assert s[|s| - 3 - |x|..|s| - 3] == x;
    s
  }

  /** The first `n` hits (Python's `hits[:n]`). */
  function Top(hits: seq<VectorStore.Hit>, n: nat): (t: seq<VectorStore.Hit>)
    ensures |t| == if |hits| < n then |hits| else n
    ensures t <= hits
  {
    if |hits| <= n then hits else hits[..n]
  }

  function Snippets(hits: seq<VectorStore.Hit>, render: Value -> string): (s: seq<string>)
    ensures |s| == |hits|
    ensures forall i :: 0 <= i < |hits| ==> s[i] == Snippet(hits[i], render)
  {
    seq(|hits|, i requires 0 <= i < |hits| => Snippet(hits[i], render))
  }

  /** The source list: the top three snippets, one per line, or `No sources found.`. */
  function SourcesText(hits: seq<VectorStore.Hit>, render: Value -> string): (t: string)
    ensures |hits| == 0 ==> t == "No sources found."
    ensures |hits| > 0 ==> t == Strings.Join("\n", Snippets(Top(hits, PlaceholderHits), render))
  {
    var snippets := Snippets(Top(hits, PlaceholderHits), render);
    if |snippets| == 0 then "No sources found." else Strings.Join("\n", snippets)
  }

  /** A "Have you considered?" entry: the title and its links, or nothing when the hit is absent. */
  function Suggestion(hits: seq<VectorStore.Hit>, i: nat): (r: Result<(Value, Links)>)
    ensures |hits| <= i ==> r == Ok((Str(""), Links("", "")))
    ensures i < |hits| ==> (r.Ok? <==> PlaceholderTitle(hits[i]).Str?)
    ensures i < |hits| && r.Ok? ==> r.value == (PlaceholderTitle(hits[i]), LibraryLinks(PlaceholderTitle(hits[i]).s))
  {
    if |hits| <= i then Ok((Str(""), Links("", "")))
    else
      var title := PlaceholderTitle(hits[i]);
      match TitleLinks(title)
      case Err(e) => Err(e)
      case Ok(l) => Ok((title, l))
  }

  const PlaceholderIntro: string := "Based on the available research, here are relevant sources for your query:\n\n"

  /** One suggestion line: `- [title](url) (LIBRARY)`. */
  function LinkLine(title: string, url: string, library: string): string
  {
    "- [" + title + "](" + url + ") (" + library + ")"
  }

  const ConsideredHeading: string := "\n\n**Have you considered?**\n"

  /** The closing section listing the first and second suggestions. */
  function Considered(first: (Value, Links), second: (Value, Links), render: Value -> string): string
  {
    var t1 := PyStr(first.0, render);
    var t2 := PyStr(second.0, render);
    ConsideredHeading
    + LinkLine(t1, first.1.omni, "OMNI") + "\n"
    + LinkLine(t1, first.1.jstor, "JSTOR") + "\n"
    + LinkLine(t2, second.1.omni, "OMNI") + "\n"
    + LinkLine(t2, second.1.jstor, "JSTOR")
  }

  /**
   `_generate_placeholder`: the top three hits as a source list (or `No sources found.`), then
   suggestions from hits 0 and 1, empty where absent. The question plays no part. A suggested
   title that is not a string cannot be encoded.
   */
  function Placeholder(hits: seq<VectorStore.Hit>, render: Value -> string): (r: Result<string>)
    ensures r.Err? <==> (|hits| >= 1 && !PlaceholderTitle(hits[0]).Str?) || (|hits| >= 2 && !PlaceholderTitle(hits[1]).Str?)
    ensures |hits| == 0 ==> r == Ok(PlaceholderIntro + "No sources found." + Considered((Str(""), Links("", "")), (Str(""), Links("", "")), render))
    ensures r.Ok? ==> r.value == PlaceholderIntro + SourcesText(hits, render)
                                 + Considered(Suggestion(hits, 0).value, Suggestion(hits, 1).value, render)
  {
    match (Suggestion(hits, 0), Suggestion(hits, 1))
    case (Ok(first), Ok(second)) => Ok(PlaceholderIntro + SourcesText(hits, render) + Considered(first, second, render))
    case (Err(e), _) => Err(e)
    case (_, Err(e)) => Err(e)
  }

  /**
   The suggestions follow the source list and name the first two hits' titles with their
   OMNI and JSTOR search links; a missing second hit leaves its lines empty.
   */
  lemma PlaceholderSuggestsTopTwo(hits: seq<VectorStore.Hit>, render: Value -> string)
    requires |hits| >= 1 && Placeholder(hits, render).Ok?
    ensures var a := Placeholder(hits, render).value;
            var start := |PlaceholderIntro + SourcesText(hits, render)|;
            var t0 := PlaceholderTitle(hits[0]).s;
            var t1 := if |hits| >= 2 then PlaceholderTitle(hits[1]).s else "";
            var l0 := LibraryLinks(t0);
            var l1 := if |hits| >= 2 then LibraryLinks(t1) else Links("", "");
            start <= |a|
            && a[start..] == ConsideredHeading
                             + LinkLine(t0, l0.omni, "OMNI") + "\n"
                             + LinkLine(t0, l0.jstor, "JSTOR") + "\n"
                             + LinkLine(t1, l1.omni, "OMNI") + "\n"
                             + LinkLine(t1, l1.jstor, "JSTOR")
  {
    var head := PlaceholderIntro + SourcesText(hits, render);
    var tail := Considered(Suggestion(hits, 0).value, Suggestion(hits, 1).value, render);
    assert (head + tail)[|head|..] == tail;
  }

  /** The placeholder reads only the top three hits: hits after them make no difference. */
  lemma PlaceholderReadsTopThree(hits1: seq<VectorStore.Hit>, hits2: seq<VectorStore.Hit>, render: Value -> string)
    requires |hits1| >= PlaceholderHits && |hits2| >= PlaceholderHits
    requires hits1[..PlaceholderHits] == hits2[..PlaceholderHits]
    ensures Placeholder(hits1, render) == Placeholder(hits2, render)
  {
    assert hits1[0] == hits1[..PlaceholderHits][0] == hits2[0];
    assert hits1[1] == hits1[..PlaceholderHits][1] == hits2[1];
    assert Top(hits1, PlaceholderHits) == Top(hits2, PlaceholderHits);
  }

  // ---------------------------------------------------------------------------
  // generate
  // ---------------------------------------------------------------------------

  /** What the chat model returned: `usage` is the prompt and completion token counts when reported. */
  datatype ChatOutcome =
    | ChatFailed(error: string)
    | ChatReply(content: Option<string>, usage: Option<(int, int)>)

  /**
   One answer: the text, the usage ledger as stored afterwards, and the prompts sent to the
   chat model (none, or the one prompt).
   */
  datatype Generation = Generation(answer: string, ledger: Usage.Ledger, prompts: seq<string>)

  /** The input and output usage of one reply, recorded one after the other. */
  function RecordReply(saved: Usage.Ledger, now: Usage.Date, usage: Option<(int, int)>): (l: Usage.Ledger)
    ensures usage.None? ==> l == saved
  {
    match usage
    case None => saved
    case Some((p, c)) =>
      var afterInput := Usage.RecordUsage(saved, now, Usage.ChatInput, p).ledger;
      Usage.RecordUsage(afterInput, now, Usage.ChatOutput, c).ledger
  }

  /**
   The model call: the prompt is sent once; a failure becomes an answer; a reply's usage is
   recorded (input, then output) before its content is stripped.
   */
  function CallModel(prompt: string, saved: Usage.Ledger, now: Usage.Date, chat: string -> ChatOutcome): (g: Generation)
    ensures g.prompts == [prompt]
    ensures chat(prompt).ChatFailed? ==> g.answer == ErrorPrefix + chat(prompt).error && g.ledger == saved
    ensures chat(prompt).ChatReply? ==> g.ledger == RecordReply(saved, now, chat(prompt).usage)
    ensures chat(prompt).ChatReply? && chat(prompt).content.Some? ==>
              g.answer == Strings.Strip(chat(prompt).content.value)
    ensures chat(prompt).ChatReply? && chat(prompt).content.None? ==>
              g.answer == ErrorPrefix + "'NoneType' object has no attribute 'strip'"
  {
    match chat(prompt)
    case ChatFailed(e) => Generation(ErrorPrefix + e, saved, [prompt])
    case ChatReply(content, usage) =>
      var ledger := RecordReply(saved, now, usage);
      match content
      case None => Generation(ErrorPrefix + "'NoneType' object has no attribute 'strip'", ledger, [prompt])
      case Some(text) => Generation(Strings.Strip(text), ledger, [prompt])
  }

  /**
   `_generate_with_openai`: every failure becomes an answer. A denial answers with the gate's
   message; a missing key answers with the placeholder; otherwise the prompt is sent once.
   */
  function GenerateWithApi(question: string, hits: seq<VectorStore.Hit>, loaded: Usage.Ledger, now: Usage.Date,
                           apiKey: string, chat: string -> ChatOutcome, render: Value -> string): (g: Generation)
    ensures var (check, saved) := Usage.CheckUsageLimit(loaded, now);
            !check.allowed ==> g == Generation(check.message, saved, [])
    ensures var (check, saved) := Usage.CheckUsageLimit(loaded, now);
            check.allowed && apiKey == "" ==>
              g.prompts == [] && g.ledger == saved
              && g.answer == (match Placeholder(hits, render) case Ok(a) => a case Err(e) => ErrorPrefix + e)
    ensures |g.prompts| <= 1
    ensures var (check, saved) := Usage.CheckUsageLimit(loaded, now);
            |g.prompts| == 1 <==> check.allowed && apiKey != "" && BuildPrompt(question, hits, render).Ok?
    ensures var (check, saved) := Usage.CheckUsageLimit(loaded, now);
            |g.prompts| == 1 ==> BuildPrompt(question, hits, render) == Ok(g.prompts[0])
                                 && g == CallModel(g.prompts[0], saved, now, chat)
                                 && Usage.Total(saved) < Usage.MonthlyLimit && saved.month == Some(Usage.MonthKey(now))
    ensures var (check, saved) := Usage.CheckUsageLimit(loaded, now);
            check.allowed && apiKey != "" && BuildPrompt(question, hits, render).Err? ==>
              g == Generation(ErrorPrefix + BuildPrompt(question, hits, render).message, saved, [])
  {
    var (check, saved) := Usage.CheckUsageLimit(loaded, now);
    if !check.allowed then Generation(check.message, saved, [])
    else if apiKey == "" then
      match Placeholder(hits, render)
      case Ok(a) => Generation(a, saved, [])
      case Err(e) => Generation(ErrorPrefix + e, saved, [])
    else match BuildPrompt(question, hits, render)
      case Err(e) => Generation(ErrorPrefix + e, saved, [])
      case Ok(prompt) => CallModel(prompt, saved, now, chat)
  }

  /**
   `generate`: the API path exactly for mode `api`, which always answers; every other mode
   gives the placeholder, touches no ledger and calls no model.
   */
  function Generate(mode: string, question: string, hits: seq<VectorStore.Hit>, loaded: Usage.Ledger, now: Usage.Date,
                    apiKey: string, chat: string -> ChatOutcome, render: Value -> string): (r: Result<Generation>)
    ensures mode == "api" ==> r == Ok(GenerateWithApi(question, hits, loaded, now, apiKey, chat, render))
    ensures mode != "api" ==> (r.Ok? <==> Placeholder(hits, render).Ok?)
    ensures mode != "api" && r.Ok? ==> r.value == Generation(Placeholder(hits, render).value, loaded, [])
  {
    if mode == "api" then Ok(GenerateWithApi(question, hits, loaded, now, apiKey, chat, render))
    else match Placeholder(hits, render)
      case Ok(a) => Ok(Generation(a, loaded, []))
      case Err(e) => Err(e)
  }

  /** Recording a reply's usage in the month the ledger belongs to adds the cost of both counts. */
  lemma RecordReplyCharges(saved: Usage.Ledger, now: Usage.Date, p: int, c: int)
    requires saved.month == Some(Usage.MonthKey(now))
    ensures Usage.Total(RecordReply(saved, now, Some((p, c))))
            == Usage.Total(saved) + p as real * Usage.Price(Usage.ChatInput) + c as real * Usage.Price(Usage.ChatOutput)
  {
    var afterInput := Usage.RecordUsage(saved, now, Usage.ChatInput, p).ledger;
    assert Usage.MaybeResetMonth(saved, now) == saved;
    assert Usage.MaybeResetMonth(afterInput, now) == afterInput;
  }

  /**
   A reply with usage, in the month the saved ledger belongs to, is charged for exactly its
   prompt and completion tokens: the month's total rises by their cost. The API path only
   reaches the model with the ledger the gate saved, whose month is the current one.
   */
  lemma ModelCallCharged(prompt: string, saved: Usage.Ledger, now: Usage.Date, chat: string -> ChatOutcome)
    requires saved.month == Some(Usage.MonthKey(now))
    requires chat(prompt).ChatReply? && chat(prompt).usage.Some?
    ensures var (p, c) := chat(prompt).usage.value;
            Usage.Total(CallModel(prompt, saved, now, chat).ledger)
            == Usage.Total(saved) + p as real * Usage.Price(Usage.ChatInput) + c as real * Usage.Price(Usage.ChatOutput)
  {
    var usage := chat(prompt).usage;
    RecordReplyCharges(saved, now, usage.value.0, usage.value.1);
  }
}
