/**
 The vector store's pre- and post-processing. Before documents are added, ids are made safe
 for the store (`/` and `:` become `_`), missing text becomes `""` and metadata is reduced to
 the scalar values the store accepts. After a query, the store's parallel result lists are
 turned into one hit per returned id. Embedding, persistence and the nearest-neighbour search
 itself happen inside the store and are not modelled.
 */
module VectorStore {
  import opened Wrappers
  import opened Json
  import Strings

  // ---------------------------------------------------------------------------
  // Ids
  // ---------------------------------------------------------------------------

  /** A character the store's ids must not carry. */
  predicate Unsafe(c: char)
  {
    c == '/' || c == ':'
  }

  /**
   `str(d.get("id") or "").replace("/", "_").replace(":", "_")`: a missing or falsy id gives
   `""`; every `/` and `:` becomes `_` and every other character stays in place.
   */
  function SanitizeId(id: Value, render: Value -> string): (r: string)
    ensures var s := PyStr(Or(id, Str("")), render);
            |r| == |s| && forall i :: 0 <= i < |s| ==> r[i] == (if Unsafe(s[i]) then '_' else s[i])
    ensures forall i :: 0 <= i < |r| ==> !Unsafe(r[i])
    ensures !Truthy(id) ==> r == ""
  {
    var s := PyStr(Or(id, Str("")), render);
    var t := Strings.ReplaceAll(s, "/", "_");
    Strings.ReplaceCharPointwise(s, '/', '_');
    Strings.ReplaceCharPointwise(t, ':', '_');
    Strings.ReplaceAll(t, ":", "_")
  }

  /** Sanitising is idempotent: a sanitised id, sanitised again, is unchanged. */
  lemma SanitizeIdIdempotent(id: Value, render: Value -> string)
    ensures var r := SanitizeId(id, render);
            r == "" || SanitizeId(Str(r), render) == r
  {
    var r := SanitizeId(id, render);
    if r != "" {
      var r2 := SanitizeId(Str(r), render);
      assert Or(Str(r), Str("")) == Str(r);
      assert |r2| == |r|;
      forall i | 0 <= i < |r|
        ensures r2[i] == r[i]
      {
      }
    }
  }

  /** Two ids that differ only where one has `/` and the other `:` collide after sanitising. */
  lemma SlashAndColonCollide(render: Value -> string)
    ensures SanitizeId(Str("a/b"), render) == SanitizeId(Str("a:b"), render) == "a_b"
  {
    var r1 := SanitizeId(Str("a/b"), render);
    var r2 := SanitizeId(Str("a:b"), render);
    assert |r1| == 3 && r1[0] == 'a' && r1[1] == '_' && r1[2] == 'b';
    assert |r2| == 3 && r2[0] == 'a' && r2[1] == '_' && r2[2] == 'b';
  }

  // ---------------------------------------------------------------------------
  // Text and metadata
  // ---------------------------------------------------------------------------

  /** `d.get("text", "") or ""`: a missing or falsy text is stored as `""`. */
  function DocumentText(d: Entries): (t: Value)
    ensures Truthy(t) || t == Str("")
    ensures Truthy(GetOr(d, "text", Str(""))) ==> t == GetOr(d, "text", Str(""))
    ensures !Truthy(GetOr(d, "text", Str(""))) ==> t == Str("")
  {
    Or(GetOr(d, "text", Str("")), Str(""))
  }

  /**
   One metadata value as the store receives it: `str`, `int`, `float` and `bool` values are
   kept, `None` becomes `""` and anything else (a list or dict) its string form.
   */
  function CleanValue(v: Value, render: Value -> string): (r: Value)
    ensures IsScalar(r)
    ensures IsScalar(v) ==> r == v
    ensures v.Null? ==> r == Str("")
    ensures (v.List? || v.Dict?) ==> r.Str?
    ensures !IsScalar(v) && !v.Null? ==> r == Str(PyStr(v, render))
  {
    if IsScalar(v) then v
    else if v.Null? then Str("")
    else Str(PyStr(v, render))
  }

  /** Every value of a dict cleaned, keys and their order untouched. */
  function CleanEntries(m: Entries, render: Value -> string): (r: Entries)
    ensures Keys(r) == Keys(m)
    ensures forall i :: 0 <= i < |m| ==> r[i].1 == CleanValue(m[i].1, render)
  {
    seq(|m|, i requires 0 <= i < |m| => (m[i].0, CleanValue(m[i].1, render)))
  }

  /** Looking a key up in the cleaned dict finds the cleaned value of the original. */
  lemma {:induction false} CleanEntriesGet(m: Entries, k: string, render: Value -> string)
    ensures Get(CleanEntries(m, render), k) ==
            (match Get(m, k) case Some(v) => Some(CleanValue(v, render)) case None => None)
    decreases |m|
  {
    if |m| > 0 {
      var r := CleanEntries(m, render);
      assert r[0] == (m[0].0, CleanValue(m[0].1, render));
      CleanEntriesGet(m[1..], k, render);
      assert r[1..] == CleanEntries(m[1..], render);
    }
  }

  /** Metadata that is already all scalars passes through cleaning unchanged. */
  lemma CleanEntriesScalar(m: Entries, render: Value -> string)
    requires forall i :: 0 <= i < |m| ==> IsScalar(m[i].1)
    ensures CleanEntries(m, render) == m
  {
    var r := CleanEntries(m, render);
    forall i | 0 <= i < |m|
      ensures r[i] == m[i]
    {
      assert Keys(r)[i] == Keys(m)[i];
    }
  }

  /**
   The metadata dict of one document. A non-dict value first becomes `{"value": str(meta)}`
   when truthy and `{}` when falsy; then every value is cleaned.
   */
  function CleanMetadata(d: Entries, render: Value -> string): (r: Entries)
    ensures var raw := GetOr(d, "metadata", Dict([]));
            raw.Dict? ==> r == CleanEntries(raw.entries, render)
    ensures var raw := GetOr(d, "metadata", Dict([]));
            !raw.Dict? && Truthy(raw) ==> r == [("value", Str(PyStr(raw, render)))]
    ensures var raw := GetOr(d, "metadata", Dict([]));
            !raw.Dict? && !Truthy(raw) ==> r == []
    ensures forall i :: 0 <= i < |r| ==> IsScalar(r[i].1)
  {
    var raw := GetOr(d, "metadata", Dict([]));
    var entries := if raw.Dict? then raw.entries
                   else if Truthy(raw) then [("value", Str(PyStr(raw, render)))]
                   else [];
    CleanEntries(entries, render)
  }

  /** Cleaning is idempotent: cleaned metadata passes through a second cleaning unchanged. */
  lemma CleanMetadataIdempotent(d: Entries, render: Value -> string)
    ensures var m := CleanMetadata(d, render);
            CleanMetadata([("metadata", Dict(m))], render) == m
  {
    var m := CleanMetadata(d, render);
    var again := CleanMetadata([("metadata", Dict(m))], render);
    assert GetOr([("metadata", Dict(m))], "metadata", Dict([])) == Dict(m);
    assert |again| == |m|;
    forall i | 0 <= i < |m|
      ensures again[i] == m[i]
    {
      assert Keys(again)[i] == Keys(m)[i];
    }
  }

  // ---------------------------------------------------------------------------
  // add_documents
  // ---------------------------------------------------------------------------

  /** The three parallel lists handed to the store (embeddings are computed from `texts`). */
  datatype Batch = Batch(ids: seq<string>, texts: seq<Value>, metadatas: seq<Entries>)

  /** One pass over the documents, appending what the three functions make of each to three lists. */
  method PrepareEach(documents: seq<Entries>, idOf: Entries -> string, textOf: Entries -> Value,
                     metaOf: Entries -> Entries) returns (b: Batch)
    ensures |b.ids| == |b.texts| == |b.metadatas| == |documents|
    ensures forall i :: 0 <= i < |documents| ==> b.ids[i] == idOf(documents[i])
    ensures forall i :: 0 <= i < |documents| ==> b.texts[i] == textOf(documents[i])
    ensures forall i :: 0 <= i < |documents| ==> b.metadatas[i] == metaOf(documents[i])
  {
    var ids: seq<string> := [];
    var texts: seq<Value> := [];
    var metadatas: seq<Entries> := [];
    for n := 0 to |documents|
      invariant |ids| == |texts| == |metadatas| == n
      invariant forall i :: 0 <= i < n ==> ids[i] == idOf(documents[i])
      invariant forall i :: 0 <= i < n ==> texts[i] == textOf(documents[i])
      invariant forall i :: 0 <= i < n ==> metadatas[i] == metaOf(documents[i])
    {
      ids := ids + [idOf(documents[n])];
      texts := texts + [textOf(documents[n])];
      metadatas := metadatas + [metaOf(documents[n])];
    }
    b := Batch(ids, texts, metadatas);
  }

  /**
   The preparation loop of `add_documents`: one id, one text and one metadata dict per
   document, in the documents' order.
   */
  method PrepareBatch(documents: seq<Entries>, render: Value -> string) returns (b: Batch)
    ensures |b.ids| == |b.texts| == |b.metadatas| == |documents|
    ensures forall i :: 0 <= i < |documents| ==> b.ids[i] == SanitizeId(GetOr(documents[i], "id", Null), render)
    ensures forall i :: 0 <= i < |documents| ==> b.texts[i] == DocumentText(documents[i])
    ensures forall i :: 0 <= i < |documents| ==> b.metadatas[i] == CleanMetadata(documents[i], render)
  {
    b := PrepareEach(documents, d => SanitizeId(GetOr(d, "id", Null), render), DocumentText,
                     d => CleanMetadata(d, render));
  }

  // ---------------------------------------------------------------------------
  // query
  // ---------------------------------------------------------------------------

  /**
   The store's answer to one query embedding: each field is a list with one row per query
   embedding, or `None`. Only row 0 is read, since exactly one embedding is sent.
   */
  datatype QueryResult = QueryResult(
    ids: Option<seq<seq<string>>>,
    documents: Option<seq<seq<string>>>,
    metadatas: Option<seq<seq<Entries>>>,
    distances: Option<seq<seq<real>>>)

  /** One normalised hit. */
  datatype Hit = Hit(id: string, document: string, metadata: Entries, distance: Option<real>)

  /** Python's truthiness of an optional list: present and non-empty. */
  predicate Present<T>(rows: Option<seq<T>>)
  {
    rows.Some? && |rows.value| > 0
  }

  /** A present field's first row has an entry for each of the first `n` ids. */
  predicate Covers<T>(rows: Option<seq<seq<T>>>, n: nat)
  {
    !Present(rows) || |rows.value[0]| >= n
  }

  /** The number of ids returned, or 0 when `ids` or its first row is empty or absent. */
  function HitCount(res: QueryResult): nat
  {
    if Present(res.ids) then |res.ids.value[0]| else 0
  }

  /**
   The normalisation in `query`: no ids gives no hits; otherwise one hit per id, in the
   store's order, with `""`, `{}` and `None` standing in for absent document, metadata and
   distance lists. A present list too short to index is the case Python fails on.
   */
  function NormaliseHits(res: QueryResult): (r: Result<seq<Hit>>)
    ensures HitCount(res) == 0 ==> r == Ok([])
    ensures r.Ok? <==> (HitCount(res) == 0 || (Covers(res.documents, HitCount(res)) && Covers(res.metadatas, HitCount(res))
                                               && Covers(res.distances, HitCount(res))))
    ensures r.Ok? ==> |r.value| == HitCount(res)
    ensures r.Ok? ==> forall i :: 0 <= i < |r.value| ==>
              r.value[i].id == res.ids.value[0][i]
              && r.value[i].document == (if Present(res.documents) then res.documents.value[0][i] else "")
              && r.value[i].metadata == (if Present(res.metadatas) then res.metadatas.value[0][i] else [])
              && r.value[i].distance == (if Present(res.distances) then Some(res.distances.value[0][i]) else None)
  {
    var n := HitCount(res);
    if n == 0 then Ok([])
    else if !(Covers(res.documents, n) && Covers(res.metadatas, n) && Covers(res.distances, n)) then
      Err("list index out of range")
    else
      Ok(seq(n, i requires 0 <= i < n => Hit(
        res.ids.value[0][i],
        if Present(res.documents) then res.documents.value[0][i] else "",
        if Present(res.metadatas) then res.metadatas.value[0][i] else [],
        if Present(res.distances) then Some(res.distances.value[0][i]) else None)))
  }

  function HitIds(hits: seq<Hit>): (ids: seq<string>)
    ensures |ids| == |hits|
    ensures forall i :: 0 <= i < |hits| ==> ids[i] == hits[i].id
  {
    seq(|hits|, i requires 0 <= i < |hits| => hits[i].id)
  }

  /** The hits list the store's ids in the store's order, no more and no fewer. */
  lemma HitsKeepStoreOrder(res: QueryResult)
    requires NormaliseHits(res).Ok?
    ensures HitIds(NormaliseHits(res).value) == (if Present(res.ids) then res.ids.value[0] else [])
  {
  }

  /**
   `query(query_text, top_k)`: the nearest-neighbour search (embedding the text and asking the
   store) is the oracle `search`; what comes back is normalised.
   */
  function Query(queryText: string, topK: int, search: (string, int) -> QueryResult): (r: Result<seq<Hit>>)
    ensures r.Ok? ==> |r.value| == HitCount(search(queryText, topK))
    ensures !Present(search(queryText, topK).ids) ==> r == Ok([])
    ensures var res := search(queryText, topK);
            r.Ok? <==> (HitCount(res) == 0 || (Covers(res.documents, HitCount(res)) && Covers(res.metadatas, HitCount(res))
                                               && Covers(res.distances, HitCount(res))))
    ensures var res := search(queryText, topK);
            r.Ok? ==> HitIds(r.value) == (if Present(res.ids) then res.ids.value[0] else [])
    ensures var res := search(queryText, topK);
            r.Ok? ==> forall i :: 0 <= i < |r.value| ==>
              r.value[i].document == (if Present(res.documents) then res.documents.value[0][i] else "")
              && r.value[i].metadata == (if Present(res.metadatas) then res.metadatas.value[0][i] else [])
              && r.value[i].distance == (if Present(res.distances) then Some(res.distances.value[0][i]) else None)
  {
    NormaliseHits(search(queryText, topK))
  }
}
