# GRAYSON research assistant: a Dafny model of its core

GRAYSON is a retrieval-augmented research assistant for theology, philosophy and religious
studies. This project models in Dafny the parts of it that decide what is fetched, stored,
asked and charged:

- **the source adapter** (`src/ingest.py`). It builds the OpenAlex and Semantic Scholar search
  requests, including the concept filter and the subject-word query suffix. It maps each
  provider result to a paper. It turns OpenAlex's word-to-positions abstracts back into text.
  It builds the `{id, title, text, metadata}` records that are ingested.
- **the vector-store adapter** (`src/vectorstore.py`). It sanitises document ids, reduces
  metadata to scalar values, and normalises the store's column-shaped query answer into a list
  of hits.
- **the answer composer** (`src/llm.py`). It builds the OMNI and JSTOR library links and the
  prompt. It has a placeholder answer for when no model is available. Its API path puts the
  usage gate, the model call and the usage recording around that prompt.
- **the PDF finder** (`src/pdf_lookup.py`). It cleans DOIs and runs the Unpaywall then Semantic
  Scholar cascade. It selects a PDF link from each response, falls back to a title search,
  and enriches a list of sources with a `free_pdf` link.
- **the usage ledger** (`src/usage_tracker.py`). It resets the ledger each month and gates
  calls at a $5.00 monthly limit. It records each call's cost per model and reports
  statistics.

## How Python is represented

- **Values.** A Python value read from JSON or from a document dict is a `Json.Value`: null,
  bool, int, float (an exact `real`), str, list or dict. A dict is an ordered list of
  key/value pairs.
  - `Json.Truthy`, `Json.Or`, `Json.Get`, `Json.GetOr` and `Json.Set` give Python's
    truthiness, `a or b`, `d.get(k, default)` and `d[k] = v`.
  - `Json.PyStr` is `str()`. The text of a float, list or dict is an oracle `render`, because
    Python's float formatting is not modelled.
- **Network.** Every network call goes through an oracle, `Http.Fetch`, from URL to outcome:
  a failure, or a status with an optional parsed JSON body. Each lookup also returns the list
  of URLs it requested, so the order and short-circuiting of requests can be stated.
- **Other external services.** The chat model is an oracle from prompt to reply. The
  vector-store search is an oracle from query and `k` to the column-shaped answer.
- **Exceptions** that the source lets propagate become `Result.Err`. Those it catches become
  the value it returns in their place.
- **Time and the ledger file.** The clock is a `Usage.Date` parameter (year and month). The
  usage ledger read from disk is a `Usage.Ledger` parameter. Each operation returns the
  ledger it would write back.
- **URL encoding.** `Url.Quote` and `Url.QuotePlus` model `urllib.parse.quote` and
  `quote_plus` over the UTF-8 bytes of the text. `Url.PercentDecode` is their inverse, used to
  state round trips.

## Model

| member | source | states |
|---|---|---|
| Ingest.ConceptUrls | src/ingest.py:26-32 | one OpenAlex concept URL per theology concept id, in the order of the id list |
| Ingest.ConceptFilterLists | src/ingest.py:55 | the filter value starts with `concepts.id:` and splits on `\|` into exactly the five concept URLs, in order |
| Ingest.OpenAlexUrlCarriesFilter | src/ingest.py:57-62 | the OpenAlex request ends with the filter encoded with `:` and `\|` kept, and that encoding decodes back to the filter's own bytes |
| Ingest.OpenAlexUrlCarriesSearch | src/ingest.py:57-62 | the `search` parameter holds the query encoded with `quote_plus` (keeping `:` and `\|`), followed by `&per-page=`; the encoding has no `&` and decodes back to the query's UTF-8 bytes |
| Ingest.EnhancedQuery | src/ingest.py:95 | the Semantic Scholar query is the user's query followed by exactly " theology philosophy religion" |
| Ingest.SemanticScholarUrlCarriesQuery | src/ingest.py:95-103 | the `query` parameter holds the enhanced query encoded with `quote_plus`, followed by `&limit=`; the encoding has no `&` and decodes back to the enhanced query's UTF-8 bytes |
| Ingest.QuotedParameter | src/ingest.py:57-62 | a parameter value encoded with `quote_plus`, keeping none of `&`, `%` and `+`, holds no `&` and decodes back to the text's UTF-8 bytes |
| Ingest.Flatten | src/ingest.py:39-42 | the flattened index has one (position, word) pair per listed position |
| Ingest.DecodeInts | src/ingest.py:41-42 | a word's position list is read exactly when every element is an integer, and then element by element |
| Ingest.DecodeIndex | src/ingest.py:40-42 | the index is read exactly when every word's positions are, one entry per word in dict order |
| Ingest.AtPosAppend | src/ingest.py:43 | the pairs at one position in a concatenation are those of the first part, then those of the second |
| Ingest.InsertByPosPermutes | src/ingest.py:43 | inserting a pair by position adds exactly that pair: the result is a permutation of the input plus the pair |
| Ingest.InsertByPosSorted | src/ingest.py:43 | inserting into a position-sorted list keeps it sorted |
| Ingest.InsertByPosStable | src/ingest.py:43 | insertion puts the new pair before every pair with the same position, as a stable sort of the pair in front would |
| Ingest.SortByPos | src/ingest.py:43 | the sort is a permutation, is ordered by position, and keeps the relative order of pairs that share a position (Python's stable `sort`) |
| Ingest.Reconstruct | src/ingest.py:39-43 | the reconstructed pairs are sorted by position, and at each position they are the flattened index's pairs in dict order |
| Ingest.InvertedIndexToText | src/ingest.py:35-44 | a falsy or non-dict index gives `""`; a dict succeeds exactly when every word's positions decode, and then gives the reconstructed words joined by one space |
| Ingest.ReconstructedTextSplits | src/ingest.py:35-44 | when no word contains a space, splitting the reconstructed text on spaces gives back the words in position order |
| Ingest.FlattenWords | src/ingest.py:39-42 | every word of the flattened index is one of the index's words |
| Ingest.FoxIndexDecodes | src/ingest.py:40-42 | the index `{"the": [0, 2], "fox": [1]}` decodes to its words and positions |
| Ingest.FlattenFox | src/ingest.py:39-42 | that index flattens to (0, the), (2, the), (1, fox) |
| Ingest.SortedExample | src/ingest.py:43 | sorting those pairs gives (0, the), (1, fox), (2, the) |
| Ingest.FoxIndexReconstructs | src/ingest.py:39-43 | the words of that reconstruction are the, fox, the |
| Ingest.TheFoxThe | src/ingest.py:35-44 | that index converts to the text "the fox the" |
| Ingest.OpenAlexPaper | src/ingest.py:69-83 | a truthy inverted index gives the abstract, and the item fails exactly when that index does not decode; otherwise a truthy `abstract` is used, otherwise `""`; id, title, doi and year are copied from the item |
| Ingest.SemanticScholarPaper | src/ingest.py:108-116 | the DOI is `externalIds.DOI`; a falsy `externalIds` gives no DOI; a truthy non-dict `externalIds` is exactly the failing case; the id, title, year, abstract and url fields are copied |
| Ingest.DictItems | src/ingest.py:69 | items are read exactly from a list of dicts, or from an empty string or dict; a list yields every dict, in order, and the empty string or dict yields none |
| Ingest.MapPapers | src/ingest.py:68-84 | the mapping succeeds exactly when every item maps, and then gives one paper per item, in order |
| Ingest.ResponseItems | src/ingest.py:64-69 | a failed request or a 4xx/5xx status fails; success needs a JSON object body; a missing result key gives no items, and a present one gives exactly the items read from its value |
| Ingest.SearchOpenAlex | src/ingest.py:47-84 | one request to the OpenAlex URL; it succeeds exactly when the response's `results` are dicts that all map, and gives their papers in order |
| Ingest.SearchSemanticScholar | src/ingest.py:87-117 | one request to the Semantic Scholar URL; it succeeds exactly when the response's `data` are dicts that all map, and gives their papers in order |
| Ingest.ToRecord | src/ingest.py:128-141 | the record keeps id and title; its text is the abstract or `""`; its metadata has exactly the keys title, doi, year and url, with defaults `""`, `""` and `0`, and the url is the DOI, else the id, else `""` |
| Ingest.IngestOpenAlexQuery | src/ingest.py:120-142 | ingestion fails exactly when the search fails, and otherwise gives one record per search result, in the same order |
| Json.GetFindsKey | src/vectorstore.py:52-57 | `get` finds a value exactly when the key is among the dict's keys |
| Json.Set | src/pdf_lookup.py:154 | after assignment the key holds the new value and every other key reads as before |
| Json.SetKeys | src/pdf_lookup.py:154 | assigning an existing key keeps the key order; a new key is appended at the end |
| VectorStore.SanitizeId | src/vectorstore.py:52 | the id is `str(id or "")` with `/` and `:` replaced by `_`, character for character; it contains neither, and a falsy id gives `""` |
| VectorStore.SanitizeIdIdempotent | src/vectorstore.py:52 | sanitising an already sanitised id changes nothing |
| VectorStore.SlashAndColonCollide | src/vectorstore.py:52 | the ids `a/b` and `a:b` sanitise to the same id |
| VectorStore.DocumentText | src/vectorstore.py:53 | the stored text is the document's truthy `text`; a missing or falsy text is stored as `""` |
| VectorStore.CleanValue | src/vectorstore.py:62-67 | a cleaned value is always a scalar; scalars are kept, None becomes `""`, and a list or dict becomes `str()` of it |
| VectorStore.CleanEntries | src/vectorstore.py:60-68 | cleaning keeps every key, in order, and cleans each value |
| VectorStore.CleanEntriesGet | src/vectorstore.py:60-68 | looking up a key in the cleaned metadata gives the cleaned original value |
| VectorStore.CleanEntriesScalar | src/vectorstore.py:60-68 | metadata whose values are all scalars is stored unchanged |
| VectorStore.CleanMetadata | src/vectorstore.py:57-68 | dict metadata is cleaned key by key; truthy non-dict metadata becomes `{"value": str(m)}`; falsy non-dict metadata becomes `{}`; every stored value is a scalar |
| VectorStore.CleanMetadataIdempotent | src/vectorstore.py:57-68 | cleaning cleaned metadata changes nothing |
| VectorStore.PrepareBatch | src/vectorstore.py:42-68 | each document contributes its sanitised id, its text and its cleaned metadata at the same index of the batch |
| VectorStore.NormaliseHits | src/vectorstore.py:78-88 | no first id row, or an empty one, gives no hits; otherwise there is one hit per id, with the document, metadata and distance at the same index, or `""`, `{}` and None when that column is missing; indexing past a column is the failing case |
| VectorStore.HitsKeepStoreOrder | src/vectorstore.py:79-88 | the hits keep the store's ranking: their ids are the first id row, in order |
| VectorStore.Query | src/vectorstore.py:73-89 | the query fails exactly when a present column is too short for the ids; otherwise the hits' ids are the store's first id row in order, each with the document, metadata and distance at its index, or the defaults when a column is missing |
| Llm.LibraryLinks | src/llm.py:24-30 | both links are their fixed search prefix followed by the query encoded with `quote_plus` |
| Llm.LibraryLinksCarryQuery | src/llm.py:24-30 | the encoded query has no spaces and decodes back to the query's UTF-8 bytes |
| Llm.TitleLinks | src/llm.py:26 | links exist exactly for a string title; any other title is the failing case of `quote_plus` |
| Llm.OriginalUrl | src/llm.py:86 | the prompt's original URL is the metadata's `doi` if present, else its `url` if present, else `N/A` |
| Llm.FreePdfText | src/llm.py:87-94 | a truthy `free_pdf` is shown as its string, and otherwise "Not available" |
| Llm.Block | src/llm.py:84-96 | a block fails exactly when the title is truthy but not a string; a falsy title gets empty links; every block ends with the document's first 1500 characters |
| Llm.BlockEndsInExcerpt | src/llm.py:95 | a block ends with the document's first 1500 characters, or all of it when shorter |
| Llm.Blocks | src/llm.py:84-96 | the blocks exist exactly when every hit's block does, one per hit, in order |
| Llm.BuildPrompt | src/llm.py:82-123 | the prompt exists exactly when every block does, and it is the preamble, the blocks joined by blank lines, the question and the instructions |
| Llm.PromptContextOfFewHits | src/llm.py:97-101 | with no hits the context is empty, and with one hit it is that hit's block alone |
| Llm.Snippet | src/llm.py:131 | a snippet ends with the document's first 300 characters (or all of it when shorter) followed by `...` |
| Llm.SourcesText | src/llm.py:127-133 | no hits gives "No sources found."; otherwise the snippets of the first three hits, one per line |
| Llm.Suggestion | src/llm.py:136-148 | a missing hit gives an empty title and empty links; an existing hit fails exactly when its title is not a string, and otherwise gives the title with its library links |
| Llm.Placeholder | src/llm.py:125-158 | the placeholder fails exactly when one of the first two hits has a non-string title; it is the introduction, the sources text and the suggestions of hits 0 and 1; with no hits everything suggested is empty |
| Llm.PlaceholderSuggestsTopTwo | src/llm.py:135-158 | after the sources come the OMNI and JSTOR links of the first hit's title, then those of the second hit's title, or empty lines when there is no second hit |
| Llm.PlaceholderReadsTopThree | src/llm.py:128-148 | the placeholder depends only on the first three hits |
| Llm.RecordReply | src/llm.py:74-76 | a reply without usage leaves the ledger as it was |
| Llm.CallModel | src/llm.py:64-80 | the prompt is sent once; a failed call becomes "Error calling OpenAI: ..." and leaves the ledger alone; a reply's usage is recorded and its content is stripped; a reply without content answers with the error of stripping None |
| Llm.GenerateWithApi | src/llm.py:49-80 | a denial answers with the gate's message and sends nothing; without a key the answer is the placeholder; otherwise the prompt is sent exactly when it can be built, and only while under the limit in the current month; a prompt that cannot be built answers "Error calling OpenAI: ..." with the gate's ledger |
| Llm.Generate | src/llm.py:38-47 | mode `api` always answers through the API path; any other mode gives the placeholder, keeps the ledger and calls no model |
| Llm.RecordReplyCharges | src/llm.py:74-76 | recording a reply in the ledger's own month adds exactly the input and output token costs to the total |
| Llm.ModelCallCharged | src/llm.py:66-76 | a reply with usage raises the month's total by exactly its prompt and completion token costs |
| PdfLookup.DoiSegment | src/pdf_lookup.py:75 | the DOI path segment contains no `/`, `?`, `&` or `#`, and decodes back to the DOI's UTF-8 bytes |
| PdfLookup.UnpaywallUrl | src/pdf_lookup.py:75 | the Unpaywall request is the DOI endpoint, then the DOI's path segment, then the contact e-mail parameter |
| PdfLookup.SemanticScholarDoiUrl | src/pdf_lookup.py:98 | the Semantic Scholar request is the DOI endpoint, then the DOI's path segment, then the `openAccessPdf` field selector |
| PdfLookup.QuotedTitle | src/pdf_lookup.py:115 | the quoted title contains no `&`, `#` or `?` and decodes back to the title's UTF-8 bytes |
| PdfLookup.SemanticScholarSearchUrl | src/pdf_lookup.py:115 | the title search request is the search endpoint, then the quoted title, then the field and limit parameters |
| PdfLookup.Body200 | src/pdf_lookup.py:77-80 | a body is read exactly from a status-200 response with a JSON object |
| PdfLookup.Pick | src/pdf_lookup.py:82-84 | a link is picked exactly from a dict whose key holds a truthy value, and it is that value |
| PdfLookup.FirstStop | src/pdf_lookup.py:86-89 | the scan passes exactly the leading locations that are dicts without a PDF link |
| PdfLookup.FromLocations | src/pdf_lookup.py:86-89 | a location link is found exactly when the first location that stops the scan is a dict, and then it is that location's truthy `url_for_pdf` |
| PdfLookup.SelectUnpaywall | src/pdf_lookup.py:72-92 | no JSON object at status 200 gives nothing; a best location with a link wins; a truthy non-dict best location gives nothing; otherwise the answer is the scan of `oa_locations`; any link found is truthy |
| PdfLookup.UnpaywallPdfComesFromResponse | src/pdf_lookup.py:81-89 | a selected link is the best location's link, or the link of the first location the scan stops at, every earlier location being a dict without a link |
| PdfLookup.SelectSemanticScholar | src/pdf_lookup.py:101-105 | a link is found exactly when the status-200 object's `openAccessPdf` is a dict with a truthy `url` |
| PdfLookup.SelectSearch | src/pdf_lookup.py:118-124 | when the first paper of a status-200 answer's `data` is a dict, the answer is exactly its truthy `openAccessPdf.url`; any link found comes from that paper and is truthy |
| PdfLookup.SearchReadsFirstOnly | src/pdf_lookup.py:120-124 | the title search's answer depends only on the first paper |
| PdfLookup.CleanDoi | src/pdf_lookup.py:40 | cleaning never lengthens a DOI and leaves a DOI without resolver prefixes unchanged |
| PdfLookup.CleanDoiStripsPrefix | src/pdf_lookup.py:40 | a DOI free of both resolver prefixes is unchanged, and a single leading `https://doi.org/` or `http://doi.org/` is removed |
| PdfLookup.CleanDoiCanLeavePrefix | src/pdf_lookup.py:40 | a DOI with one prefix nested inside the other cleans to `https://doi.org/` itself |
| PdfLookup.LookupByDoi | src/pdf_lookup.py:25-52 | an empty DOI requests nothing; otherwise Unpaywall is asked first with the cleaned DOI, and Semantic Scholar second exactly when Unpaywall gives nothing; the first link found is the answer |
| PdfLookup.DoiCascadeShortCircuits | src/pdf_lookup.py:43-50 | when Unpaywall has a link, Semantic Scholar is never asked and the answer is Unpaywall's |
| PdfLookup.LookupByTitle | src/pdf_lookup.py:55-69 | a title that is not a non-empty string requests nothing; otherwise exactly the one title search is made; any link found is truthy |
| PdfLookup.DoiField | src/pdf_lookup.py:150 | the value tested is a truthy `doi`, otherwise `url`, otherwise `""` |
| PdfLookup.DoiLikeValues | src/pdf_lookup.py:151 | URLs at either resolver and strings starting with `10.` are looked up as DOIs; None is not |
| PdfLookup.DoiAttempt | src/pdf_lookup.py:150-156 | only a value that mentions `doi.org` or starts with `10.` is looked up; a truthy non-string candidate is exactly the failing case |
| PdfLookup.EnrichOne | src/pdf_lookup.py:147-165 | enriching fails exactly in the DOI attempt's failing case; a DOI link sets `free_pdf` and ends the requests; after a DOI miss the title search's link, if any, sets `free_pdf`, and its requests follow the DOI requests |
| PdfLookup.EnrichOneAddsOnlyPdf | src/pdf_lookup.py:147-163 | the link attached is the DOI lookup's, else the title search's; with neither the source is unchanged, otherwise `free_pdf` holds that truthy link |
| PdfLookup.EnrichOneRequestOrder | src/pdf_lookup.py:150-163 | the DOI requests come first; a DOI link ends the source with no title search; a DOI miss is followed by exactly the title search's requests; a value that does not look like a DOI makes only those |
| PdfLookup.EnrichKeepsOtherKeys | src/pdf_lookup.py:147 | every key other than `free_pdf` reads as in the original source, and no key of the source is lost |
| PdfLookup.EnrichEach | src/pdf_lookup.py:142-166 | a None source stays None and every other source is enriched, in order; the list fails exactly when some source fails, and then with the first failing source's error, after the requests of the sources before it |
| PdfLookup.FirstFailureUnique | src/pdf_lookup.py:142-166 | at most one source is the first failing one, so the raised error is determined |
| PdfLookup.AllRequestsAppend | src/pdf_lookup.py:142-166 | the requests of two runs of sources are those of the first run followed by those of the second |
| PdfLookup.NoSourcesNoRequests | src/pdf_lookup.py:142-145 | a list of None sources makes no request |
| PdfLookup.EnrichSourcesWithPdfs | src/pdf_lookup.py:131-167 | one entry per source in order, None kept as None, each other source replaced by its enriched copy; failure exactly when some source's DOI attempt fails, raised by the first such source after the requests of the sources before it; otherwise the requests are each source's enrichment requests, source by source |
| Usage.Price | src/usage_tracker.py:21-25 | prices are never negative, and a model outside the price list costs nothing |
| Usage.MonthKey | src/usage_tracker.py:33-35 | the month key is the year's digits, a dash and the two-digit month, and both parts read back as the year and the month |
| Usage.MonthKeyInjective | src/usage_tracker.py:33-58 | distinct months have distinct keys |
| Usage.NextMonth | src/usage_tracker.py:77-79 | the resume date is exactly one month later, in the same year except after December |
| Usage.LimitMessage | src/usage_tracker.py:77-84 | the denial message names the $5.00 limit, then the first day of the following month with its English name and year |
| Usage.DecemberResumesInJanuary | src/usage_tracker.py:77-84 | a denial in December names January 1 of the next year |
| Usage.MaybeResetMonth | src/usage_tracker.py:55-60 | afterwards the ledger belongs to the current month; a ledger already of that month is kept, any other becomes an empty one |
| Usage.MaybeResetIdempotent | src/usage_tracker.py:55-60 | resetting twice in one month is resetting once |
| Usage.ResetExactlyOnMonthChange | src/usage_tracker.py:58 | a ledger is reset exactly when it was written in another month |
| Usage.CheckUsageLimit | src/usage_tracker.py:63-87 | a call is allowed exactly while the reset ledger's total is below $5.00, with the rest of the budget remaining; a denial has nothing remaining and says when service resumes |
| Usage.RecordUsage | src/usage_tracker.py:90-114 | the cost is tokens times price; after the month reset the total and the model's entry rise by the cost, and every other entry is kept |
| Usage.RecordInNewMonth | src/usage_tracker.py:100-111 | the first record of a month leaves just that call's cost, in total and in the breakdown |
| Usage.UnknownModelIsFree | src/usage_tracker.py:103-106 | recording an unpriced model costs nothing and leaves the total unchanged |
| Usage.SumUpdate | src/usage_tracker.py:111 | changing one breakdown entry changes the breakdown's sum by the difference |
| Usage.FreshConsistent | src/usage_tracker.py:59 | an empty ledger's total equals its breakdown's sum |
| Usage.RecordKeepsConsistent | src/usage_tracker.py:100-113 | the month reset and every recorded call keep the total equal to the breakdown's sum |
| Usage.DeniedUntilMonthChanges | src/usage_tracker.py:63-114 | once denied, recording more in the same month keeps it denied, and the first check of another month allows the whole budget |
| Usage.GetUsageStats | src/usage_tracker.py:117-129 | the statistics report the current month, the reset ledger's total and per-model breakdown, and the $5.00 limit, with the remaining budget floored at 0 |
| Usage.StatsAgreeWithCheck | src/usage_tracker.py:73-127 | the statistics and the gate report the same remaining budget and write back the same ledger |
| Pipeline.IngestedRecordStoredIntact | src/ingest.py:128-141 | a paper whose title, DOI, year and id are plain values reaches the store with its metadata unchanged, its text as built and its id sanitised |
| Url.Utf8 | src/pdf_lookup.py:75 | a character encodes to one to four bytes, and to itself exactly when it is ASCII |
| Url.DecodeEncode | src/llm.py:26 | percent-decoding the output of `quote` or `quote_plus` gives back the text's UTF-8 bytes |
| Url.EncodeAlphabet | src/llm.py:26 | encoded text uses only kept characters, `%` and, for `quote_plus`, `+`; `quote_plus` output has no space |
| Url.EncodeAvoids | src/pdf_lookup.py:115 | a character the encoder never emits appears in no encoding |
| Url.EncodeUnreserved | src/pdf_lookup.py:75 | text of unreserved characters encodes to itself |
| Url.EncodeAppend | src/llm.py:26 | encoding distributes over concatenation |
| Url.QuotePlus | src/llm.py:26 | `quote_plus` output contains no space |
| Strings.SplitJoin | src/ingest.py:55 | splitting a join on its separator gives back the parts when no part contains the separator |
| Strings.ReplaceCharPointwise | src/vectorstore.py:52 | replacing one character by another changes exactly the positions that held it |
| Strings.ReplaceAllAbsent | src/pdf_lookup.py:40 | replacing a pattern that does not occur changes nothing |
| Strings.Take | src/llm.py:95 | a slice `[:n]` is the first `n` characters, or all of them when there are fewer |
| Strings.Strip | src/llm.py:78 | the stripped text starts and ends with non-space, and only whitespace is removed from both ends |
| Strings.DecimalRoundTrip | src/usage_tracker.py:35 | the decimal digits of a number read back as that number |
| Strings.Pad2 | src/usage_tracker.py:35 | a month is written as two digits that read back as the month |

## Left out

- Network access, timeouts, headers and API keys: every request is an `Http.Fetch` oracle
  from URL to outcome. The Semantic Scholar API key header and the `requests` timeouts are
  not modelled.
- `requests`' own re-quoting of a URL's characters before sending is not modelled. The
  Semantic Scholar search parameters are encoded as `urlencode` would encode them.
- Asynchronous execution and concurrency are not modelled. This includes two processes
  racing on the usage file.
- The embedding model and the store's nearest-neighbour search: `src/embeddings.py` is not
  part of this model. `VectorStore.Query` takes the store's answer from a search oracle.
  Persistence and `collection.add` itself are not modelled: `VectorStore.PrepareBatch` stops
  at the three columns handed to it.
- `VectorStore.PrepareBatch`: the batch is handed to `collection.add`. No upsert or overwrite
  semantics for ids already in the store are claimed.
- The model does not cover a store answer with a None document or metadata inside a present
  column, nor documents that are not strings.
- Reading and writing the usage file: `json.load`/`json.dump`, a missing or unreadable file,
  and a file holding something other than the expected dict. The loaded ledger is a
  parameter, with each of its three keys possibly missing.
- The clock: `datetime.now()` is read several times in the source. The model reads it once,
  as the `now` parameter.
- The `datetime` year range (1 to 9999): the model's years are unbounded naturals.
- `strftime` follows the C locale: English month names, and `%Y` written without padding.
- Floating point: money, prices and token costs are exact reals, so rounding in the running
  totals is not modelled.
- `Usage.GetUsageStats`: when the budget is spent, the source's `max(0, ...)` returns the
  integer `0`. The model returns `0.0`.
- `Usage.DeniedUntilMonthChanges`: states the same-month denial only for non-negative token
  counts, because a negative count would lower the total.
- `Json.PyStr`: `str()` of floats, lists and dicts comes from the `render` oracle. The text of
  `repr` is not modelled.
- The prompt's fixed instruction text is abbreviated to the `Llm.Preamble` and
  `Llm.Instructions` constants. Their exact wording plays no part in any stated property.
- `Llm.CallModel`: the model name, `max_tokens` and `temperature` are part of the chat oracle.
  A reply without choices, and one whose text is not a string, are folded into `ChatFailed`,
  so usage recorded before such a failure is not modelled.
- Logging and the debug prints are not modelled.
- `PdfLookup.EnrichSourcesWithPdfs`: every source is a dict or None, so `dict(source)` on
  other values is not modelled.
- `PdfLookup.CleanDoiStripsPrefix`: DOI cleaning does not remove every resolver prefix. It
  replaces each prefix once, left to right, and the replacement can create a new prefix
  (`PdfLookup.CleanDoiCanLeavePrefix`). The stated property is therefore limited to a DOI
  free of both prefixes after at most one leading prefix.
- `Ingest.InvertedIndexToText`: only lists of integer positions, and empty strings or dicts,
  are read. Any other positions give an error in the model, although Python can still sort
  some of them: floats and booleans, or the characters of a non-empty string or the keys of a
  dict when all positions are of one comparable kind.
- Metadata dicts are assumed to have distinct keys, as a dict built by Python does.
