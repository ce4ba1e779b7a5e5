/**
 How the pieces meet: a record built from a search result is what the store is given, and the
 store's cleaning keeps its metadata exactly when the paper's fields are plain values.
 */
module Pipeline {
  import opened Json
  import Ingest
  import VectorStore

  /** A field that is either falsy (so replaced by a scalar default) or itself a scalar. */
  predicate Plain(v: Value)
  {
    !Truthy(v) || IsScalar(v)
  }

  /**
   A paper whose title, DOI, year and id are plain values reaches the store with its record's
   metadata unchanged, its text as built, and its id sanitised.
   */
  lemma IngestedRecordStoredIntact(p: Ingest.Paper, render: Value -> string)
    requires Plain(p.title) && Plain(p.doi) && Plain(p.year) && Plain(p.id)
    ensures var rec := Ingest.ToRecord(p);
            VectorStore.CleanMetadata(rec.AsDict(), render) == rec.metadata
            && VectorStore.DocumentText(rec.AsDict()) == rec.text
            && VectorStore.SanitizeId(GetOr(rec.AsDict(), "id", Null), render) == VectorStore.SanitizeId(p.id, render)
  {
    var rec := Ingest.ToRecord(p);
    var d := rec.AsDict();
    assert GetOr(d, "metadata", Dict([])) == Dict(rec.metadata) by {
      assert Get(d, "metadata") == Get(d[1..], "metadata") == Get(d[2..], "metadata") == Get(d[3..], "metadata");
    }
    assert GetOr(d, "text", Str("")) == rec.text by {
      assert Get(d, "text") == Get(d[1..], "text") == Get(d[2..], "text");
    }
    var m := rec.metadata;
    forall i | 0 <= i < |m|
      ensures IsScalar(m[i].1)
    {
      assert Keys(m)[i] == m[i].0;
      assert m[i].0 in Keys(m);
    }
    VectorStore.CleanEntriesScalar(m, render);
  }
}
