/** The FAISS-backed vector store of modules/vectorstore.py.

    The embedding model and FAISS are foreign code: a store is the sequence of
    its documents (one vector each, in insertion order), the distance between a
    query and a document is an abstract function of the query text and the
    document's page content (only the content is embedded), and every library
    call that can raise is represented by a boolean in a faults record that the
    caller supplies.

    State is kept twice, as in the source: the handle that `get_vectorstore`
    caches for the process (`st.cache_resource`), and the two files that
    `save_local` writes. The step functions below say what each operation does
    to that pair; class `Index` performs the same operations in place. */
module VectorStore {
  import opened Wrappers
  import opened Seqs

  /** The metadata dictionary stored beside a vector. */
  datatype Metadata =
    | IdOnly(id: int)                                                   // {"id": 0} of the placeholders
    | Described(id: int, title: string, category: string, tags: string)  // {id, title, category, tags}

  /** A LangChain `Document`: metadata plus the text that gets embedded. */
  datatype Doc = Doc(metadata: Metadata, pageContent: string)

  /** The fields of a knowledge item that indexing reads. */
  datatype Entry = Entry(id: int, title: string, content: string, category: string, tags: string)

  /** The document `add_to_vectorstore` and `rebuild_vectorstore` make for an item. */
  function DocOf(e: Entry): Doc
  {
    Doc(Described(e.id, e.title, e.category, e.tags), e.content)
  }

  /** One document per item, in item order. */
  function DocsOf(items: seq<Entry>): (docs: seq<Doc>)
    ensures |docs| == |items|
    ensures forall i :: 0 <= i < |items| ==>
      docs[i].metadata == Described(items[i].id, items[i].title, items[i].category, items[i].tags)
      && docs[i].pageContent == items[i].content
  {
    seq(|items|, i requires 0 <= i < |items| => DocOf(items[i]))
  }

  const InitialDoc: Doc := Doc(IdOnly(0), "Initial document")
  const FallbackDoc: Doc := Doc(IdOnly(0), "Fallback document")

  /** The index directory: `index.faiss` and `index.pkl`, and what they hold
      when `save_local` last wrote them. */
  datatype Disk = Disk(indexFile: bool, docstoreFile: bool, docs: seq<Doc>)

  /** The directory after `save_local(docs)`: both files present. */
  function Saved(docs: seq<Doc>): Disk
  {
    Disk(true, true, docs)
  }

  /** The cached handle (None until `get_vectorstore` first returns) and the disk. */
  datatype IndexState = IndexState(cached: Option<seq<Doc>>, disk: Disk)

  /** Which library calls of `get_vectorstore` raise:
      setupFails    - loading the embedding model or creating the directory (lines 17-22),
      loadFails     - `FAISS.load_local` (line 30),
      createFails   - building or saving the placeholder store (lines 34-36 or 40-42),
      fallbackFails - building the fallback store (lines 47-49). */
  datatype LoadFaults = LoadFaults(setupFails: bool, loadFails: bool, createFails: bool, fallbackFails: bool)

  datatype LoadResult =
    | Loaded(docs: seq<Doc>)    // read back from disk
    | Created(docs: seq<Doc>)   // a fresh placeholder store, saved
    | Fallback(docs: seq<Doc>)  // the unsaved fallback store
    | Raised                    // the exception escapes `get_vectorstore`

  /** The body of `get_vectorstore` without its cache: the store it returns and
      the directory afterwards. */
  function Load(d: Disk, f: LoadFaults): (r: (LoadResult, Disk))
    ensures r.0.Loaded? <==> d.indexFile && d.docstoreFile && !f.setupFails && !f.loadFails
    ensures r.0.Loaded? ==> r.0.docs == d.docs && r.1 == d
    ensures r.0.Created? ==> r.0.docs == [InitialDoc] && r.1 == Saved([InitialDoc])
    ensures r.0.Created? <==> !f.setupFails && !f.createFails && !(d.indexFile && d.docstoreFile && !f.loadFails)
    ensures r.0.Fallback? ==> r.0.docs == [FallbackDoc] && r.1 == d
    ensures r.0.Raised? ==> f.fallbackFails && r.1 == d
    // the outer handler runs when setup fails, or when the placeholder cannot be
    // built or saved; it raises exactly when the fallback store fails too
    ensures r.0.Raised? <==>
              f.fallbackFails && (f.setupFails || (f.createFails && !(d.indexFile && d.docstoreFile && !f.loadFails)))
  {
    if f.setupFails then Recover(d, f)
    else if d.indexFile && d.docstoreFile && !f.loadFails then (Loaded(d.docs), d)
    else if f.createFails then Recover(d, f)
    else (Created([InitialDoc]), Saved([InitialDoc]))
  }

  /** The outer `except` of `get_vectorstore` (lines 44-49). */
  function Recover(d: Disk, f: LoadFaults): (LoadResult, Disk)
  {
    if f.fallbackFails then (Raised, d) else (Fallback([FallbackDoc]), d)
  }

  /** `get_vectorstore()`: the cached handle if there is one, otherwise the
      result of loading, which is cached unless it raised. */
  function GetStep(s: IndexState, f: LoadFaults): (r: (Option<seq<Doc>>, IndexState))
    ensures s.cached.Some? ==> r == (s.cached, s)
    ensures r.0.Some? ==> r.1.cached == r.0
    ensures r.0.None? ==> s.cached.None? && r.1.cached.None? && f.fallbackFails
    ensures s.cached.None? ==> r.1.disk == Load(s.disk, f).1
    ensures s.cached.None? ==> (r.0.Some? <==> !Load(s.disk, f).0.Raised?)
                               && (r.0.Some? ==> r.0.value == Load(s.disk, f).0.docs)
  {
    if s.cached.Some? then (s.cached, s)
    else
      var (res, d) := Load(s.disk, f);
      if res.Raised? then (None, IndexState(None, d))
      else (Some(res.docs), IndexState(Some(res.docs), d))
  }

  /** Which library calls of `add_to_vectorstore` raise:
      freshFails    - building or saving a store after `get_vectorstore` raised (lines 71-76),
      insertFails   - the first attempt to put the document in a store (line 86, or 89-90),
      recreateFails - the second attempt, a new store of the document alone (lines 95-96),
      saveFails     - `save_local` (lines 103-105). */
  datatype AddFaults = AddFaults(freshFails: bool, insertFails: bool, recreateFails: bool, saveFails: bool)

  /** The store `get_vectorstore` handed to the add holds something and the
      in-place `add_documents` succeeded. */
  predicate AppendsInPlace(s: IndexState, lf: LoadFaults, af: AddFaults)
  {
    var got := GetStep(s, lf).0;
    got.Some? && |got.value| > 0 && !af.insertFails
  }

  /** `add_to_vectorstore(...)` for the document `doc`: whether it returned
      True, and the state afterwards. It never raises. */
  function AddStep(s: IndexState, doc: Doc, lf: LoadFaults, af: AddFaults): (r: (bool, IndexState))
    // a True result means the saved store ends with the new document
    ensures r.0 ==> r.1.disk.indexFile && r.1.disk.docstoreFile
                    && |r.1.disk.docs| > 0 && r.1.disk.docs[|r.1.disk.docs| - 1] == doc
    // a False result writes nothing beyond what loading wrote
    ensures !r.0 ==> r.1.disk == GetStep(s, lf).1.disk
    // the normal path appends to the cached handle and keeps every earlier entry
    ensures AppendsInPlace(s, lf, af) ==>
              r.1.cached == Some(GetStep(s, lf).0.value + [doc])
              && r.0 == !af.saveFails
              && (r.0 ==> r.1.disk.docs == GetStep(s, lf).0.value + [doc])
    // every other path returns True exactly when a store of the new document
    // alone is built and saved, and then that is what the disk holds
    ensures !AppendsInPlace(s, lf, af) ==>
              (r.0 <==> if GetStep(s, lf).0.None? then !af.freshFails
                        else (!af.insertFails || !af.recreateFails) && !af.saveFails)
    ensures r.0 && !AppendsInPlace(s, lf, af) ==> r.1.disk == Saved([doc])
    // the cached handle is never replaced: it only ever gains the new document
    ensures !AppendsInPlace(s, lf, af) ==> r.1.cached == GetStep(s, lf).1.cached
  {
    var (got, s1) := GetStep(s, lf);
    if got.None? then
      if af.freshFails then (false, s1) else (true, IndexState(s1.cached, Saved([doc])))
    else
      var vs := got.value;
      var appended := |vs| > 0 && !af.insertFails;
      var cache := if appended then Some(vs + [doc]) else s1.cached;
      var store :=
        if appended then Some(vs + [doc])
        else if !af.insertFails || !af.recreateFails then Some([doc])
        else None;
      if store.None? || af.saveFails then (false, IndexState(cache, s1.disk))
      else (true, IndexState(cache, Saved(store.value)))
  }

  /** A search hit: the document and its distance to the query. */
  type Hit = (Doc, int)

  function Distance(h: Hit): int { h.1 }

  /** FAISS's `similarity_search_with_score(query, k)` over `docs`: the `k`
      nearest documents (all of them if there are fewer), nearest first, with
      ties in insertion order. */
  function Nearest(docs: seq<Doc>, query: string, k: nat, dist: (string, string) -> int): (r: seq<Hit>)
    ensures |r| == Min(k, |docs|)
    // distinct stored entries: each hit is used at most as often as it is stored
    ensures multiset(r) <= multiset(Scored(docs, query, dist))
    ensures forall i :: 0 <= i < |r| ==> r[i].0 in docs && r[i].1 == dist(query, r[i].0.pageContent)
    ensures forall i, j :: 0 <= i < j < |r| ==> r[i].1 <= r[j].1
    ensures forall i | 0 <= i < |docs| && (docs[i], dist(query, docs[i].pageContent)) !in r ::
              forall j :: 0 <= j < |r| ==> r[j].1 <= dist(query, docs[i].pageContent)
  {
    var hits := Scored(docs, query, dist);
    NearestHits(docs, query, dist, hits, Lowest(hits, Distance, k));
    Lowest(hits, Distance, k)
  }

  /** Each document paired with its distance to the query. */
  function Scored(docs: seq<Doc>, query: string, dist: (string, string) -> int): (hits: seq<Hit>)
    ensures |hits| == |docs|
    ensures forall i :: 0 <= i < |docs| ==> hits[i] == (docs[i], dist(query, docs[i].pageContent))
  {
    seq(|docs|, i requires 0 <= i < |docs| => (docs[i], dist(query, docs[i].pageContent)))
  }

  lemma NearestHits(docs: seq<Doc>, query: string, dist: (string, string) -> int, hits: seq<Hit>, r: seq<Hit>)
    requires hits == Scored(docs, query, dist)
    requires multiset(r) <= multiset(hits)
    requires forall x | x in multiset(hits) - multiset(r) ::
               forall j :: 0 <= j < |r| ==> Distance(r[j]) <= Distance(x)
    ensures forall i :: 0 <= i < |r| ==> r[i].0 in docs && r[i].1 == dist(query, r[i].0.pageContent)
    ensures forall i | 0 <= i < |docs| && (docs[i], dist(query, docs[i].pageContent)) !in r ::
              forall j :: 0 <= j < |r| ==> r[j].1 <= dist(query, docs[i].pageContent)
  {
    forall i | 0 <= i < |r| ensures r[i].0 in docs && r[i].1 == dist(query, r[i].0.pageContent) {
      assert r[i] in multiset(r);
      assert r[i] in multiset(hits);
      var k :| 0 <= k < |hits| && hits[k] == r[i];
    }
    forall i | 0 <= i < |docs| && hits[i] !in r
      ensures forall j :: 0 <= j < |r| ==> r[j].1 <= hits[i].1
    {
      assert hits[i] in multiset(hits);
      assert multiset(r)[hits[i]] == 0;
      assert hits[i] in multiset(hits) - multiset(r);
    }
  }

  /** `semantic_search(query, top_k)`: the handle from `get_vectorstore`
      (None when that raised: the exception is not caught) and its nearest hits. */
  function SearchStep(s: IndexState, query: string, k: nat, lf: LoadFaults, dist: (string, string) -> int)
    : (r: (Option<seq<Hit>>, IndexState))
    ensures r.1 == GetStep(s, lf).1
    ensures r.0.Some? <==> r.1.cached.Some? && GetStep(s, lf).0.Some?
    ensures r.0.Some? ==> |r.0.value| <= k && r.0.value == Nearest(r.1.cached.value, query, k, dist)
  {
    var (got, s1) := GetStep(s, lf);
    if got.None? then (None, s1) else (Some(Nearest(got.value, query, k, dist)), s1)
  }

  /** Which calls of `rebuild_vectorstore` raise (it catches nothing):
      embeddingsFail - `get_embeddings` (line 123),
      buildFails     - `FAISS.from_documents` (line 145, or line 150 for an empty list),
      saveFails      - `save_local` (line 146 or 151);
      message        - the text of whichever exception is raised. */
  datatype RebuildFaults = RebuildFaults(embeddingsFail: bool, buildFails: bool, saveFails: bool, message: string)

  /** `rebuild_vectorstore(items)`: whether it returned (rather than raised),
      and the state afterwards. */
  function RebuildStep(s: IndexState, items: seq<Entry>, rf: RebuildFaults): (r: (bool, IndexState))
    // the new store is saved, but the cached handle is left as it was
    ensures r.1.cached == s.cached
    ensures r.0 <==> !rf.embeddingsFail && !rf.buildFails && !rf.saveFails
    ensures !r.0 ==> r.1 == s
    // one described entry per item, in item order, and no placeholder
    ensures r.0 ==> r.1.disk == Saved(DocsOf(items))
  {
    if rf.embeddingsFail || rf.buildFails || rf.saveFails then (false, s)
    else (true, IndexState(s.cached, Saved(DocsOf(items))))
  }

  /** After a rebuild, the next add on the normal path saves the stale cached
      handle plus the new document: entries the rebuild dropped are back on disk. */
  lemma RebuildThenAddRestoresCachedEntries(s: IndexState, items: seq<Entry>, rf: RebuildFaults,
                                            doc: Doc, lf: LoadFaults, af: AddFaults)
    requires s.cached.Some? && |s.cached.value| > 0
    requires !af.insertFails && !af.saveFails
    ensures var s2 := RebuildStep(s, items, rf).1;
            AddStep(s2, doc, lf, af) == (true, IndexState(Some(s.cached.value + [doc]), Saved(s.cached.value + [doc])))
  {
  }

  /** Indexing is append-only: an add on the normal path keeps an older entry
      for the same id, so the store then holds two documents with that id. */
  lemma AddKeepsStaleEntry(s: IndexState, old_: Doc, doc: Doc, lf: LoadFaults, af: AddFaults)
    requires s.cached.Some? && old_ in s.cached.value && !af.insertFails
    requires old_.metadata.id == doc.metadata.id
    ensures var c := AddStep(s, doc, lf, af).1.cached.value;
            exists i, j :: 0 <= i < j < |c| && c[i] == old_ && c[j] == doc
  {
    var c := AddStep(s, doc, lf, af).1.cached.value;
    var i :| 0 <= i < |s.cached.value| && s.cached.value[i] == old_;
    assert c[i] == old_ && c[|c| - 1] == doc;
  }

  /** The in-memory store: the process-wide cached handle and the directory. */
  class Index {
    var cached: Option<seq<Doc>>
    var disk: Disk
    const distance: (string, string) -> int

    function State(): IndexState
      reads this
    {
      IndexState(cached, disk)
    }

    /** A process start: nothing cached yet, the directory as found. */
    constructor (onDisk: Disk, distance: (string, string) -> int)
      ensures State() == IndexState(None, onDisk) && this.distance == distance
    {
      cached := None;
      disk := onDisk;
      this.distance := distance;
    }

    method GetVectorstore(f: LoadFaults) returns (store: Option<seq<Doc>>)
      modifies this
      ensures (store, State()) == GetStep(old(State()), f)
    {
      if cached.Some? {
        return cached;
      }
      var (result, written) := Load(disk, f);
      disk := written;
      if result.Raised? {
        store := None;
      } else {
        store := Some(result.docs);
        cached := store;
      }
    }

    method AddToVectorstore(docId: int, title: string, content: string, category: string, tags: string,
                            lf: LoadFaults, af: AddFaults) returns (ok: bool)
      modifies this
      ensures (ok, State()) == AddStep(old(State()), DocOf(Entry(docId, title, content, category, tags)), lf, af)
    {
      var document := DocOf(Entry(docId, title, content, category, tags));
      var got := GetVectorstore(lf);
      if got.None? {
        if af.freshFails {
          return false;
        }
        disk := Saved([document]);
        return true;
      }
      var store := got.value;
      if |store| > 0 && !af.insertFails {
        store := store + [document];
        cached := Some(store);  // add_documents mutates the cached object
      } else if !af.insertFails || !af.recreateFails {
        store := [document];     // a new object, not the cached one
      } else {
        return false;
      }
      if af.saveFails {
        return false;
      }
      disk := Saved(store);
      ok := true;
    }

    method SemanticSearch(query: string, topK: nat, lf: LoadFaults) returns (hits: Option<seq<Hit>>)
      modifies this
      ensures (hits, State()) == SearchStep(old(State()), query, topK, lf, distance)
    {
      var store := GetVectorstore(lf);
      if store.None? {
        return None;
      }
      hits := Some(Nearest(store.value, query, topK, distance));
    }

    method RebuildVectorstore(items: seq<Entry>, rf: RebuildFaults) returns (ok: bool)
      modifies this
      ensures (ok, State()) == RebuildStep(old(State()), items, rf)
    {
      if rf.embeddingsFail {
        return false;
      }
      var documents: seq<Doc> := [];
      for i := 0 to |items|
        invariant |documents| == i
        invariant forall j :: 0 <= j < i ==> documents[j] == DocOf(items[j])
      {
        documents := documents + [DocOf(items[i])];
      }
      assert documents == DocsOf(items);
      if |documents| > 0 {
        if rf.buildFails || rf.saveFails {
          return false;
        }
        disk := Saved(documents);
      } else {
        // FAISS.from_documents([]) is not guarded against
        if rf.buildFails || rf.saveFails {
          return false;
        }
        disk := Saved([]);
      }
      ok := true;
    }
  }
}
