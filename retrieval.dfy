/**
 * Reference selection in `query_knowledge_base` (ar/views.py): the vector
 * search result is taken as given and the two references are picked from
 * its first two entries.
 */
module Retrieval {
  import opened Wrappers

  /** A chunk of the indexed PDF: its text and its metadata dictionary. */
  datatype Document<V> = Document(pageContent: string, metadata: map<string, V>)

  /** One `(document, score)` pair of the search result; scores are opaque. */
  datatype Hit<S, V> = Hit(doc: Document<V>, score: S)

  /** The record built for a reference: score, "source", "number" (the page) and "content". */
  datatype Reference<S, V> = Reference(score: S, source: Option<V>, number: Option<V>, content: string)

  /** Indexing an empty search result raises `IndexError`, which nothing catches. */
  datatype RetrievalError = IndexError

  /** Python's `dict.get(key)`: `None` when the key is absent. */
  function Get<V>(m: map<string, V>, key: string): (r: Option<V>)
    ensures r.Some? <==> key in m
    ensures r.Some? ==> r.value == m[key]
  {
    if key in m then Some(m[key]) else None
  }

  /** Copies one search hit into a reference record. */
  function ToReference<S, V>(h: Hit<S, V>): (r: Reference<S, V>)
    ensures r.score == h.score && r.content == h.doc.pageContent
    ensures r.source.Some? <==> "source" in h.doc.metadata
    ensures r.source.Some? ==> r.source.value == h.doc.metadata["source"]
    ensures r.number.Some? <==> "page" in h.doc.metadata
    ensures r.number.Some? ==> r.number.value == h.doc.metadata["page"]
  {
    Reference(h.score, Get(h.doc.metadata, "source"), Get(h.doc.metadata, "page"), h.doc.pageContent)
  }

  /**
   * Picks `(first, second)`: the first reference is the hit at index 1,
   * or the hit at index 0 when there is no index 1 (the bare `except`);
   * the second is always the hit at index 0.
   */
  function QueryKnowledgeBase<S, V>(hits: seq<Hit<S, V>>): (r: Result<(Reference<S, V>, Reference<S, V>), RetrievalError>)
    ensures r.Failure? <==> |hits| == 0
    ensures |hits| >= 2 ==> r == Success((ToReference(hits[1]), ToReference(hits[0])))
    ensures |hits| == 1 ==> r == Success((ToReference(hits[0]), ToReference(hits[0])))
  {
    if |hits| == 0 then
      Failure(IndexError)  // the fallback `docs_and_scores[0]` raises too
    else
      var fst := if |hits| > 1 then hits[1] else hits[0];
      Success((ToReference(fst), ToReference(hits[0])))
  }

  /** Entries past index 1 are never read: appending to a list of two or more changes nothing. */
  lemma SelectionIgnoresTail<S, V>(hits: seq<Hit<S, V>>, more: seq<Hit<S, V>>)
    requires |hits| >= 2
    ensures QueryKnowledgeBase(hits + more) == QueryKnowledgeBase(hits)
  {
  }

  /**
   * The two references coincide exactly when the search returned one hit
   * or its first two hits carry the same copied fields.
   */
  lemma ReferencesCoincide<S, V>(hits: seq<Hit<S, V>>)
    requires |hits| > 0
    ensures QueryKnowledgeBase(hits).Success?
    ensures QueryKnowledgeBase(hits).value.0 == QueryKnowledgeBase(hits).value.1 <==>
      (|hits| == 1 || ToReference(hits[1]) == ToReference(hits[0]))
  {
  }
}
