/** Knowledge items and their indexing (modules/knowledge.py): the writes that
    keep the `knowledge_items` table and the vector store in step, the keyword
    search, the join of semantic hits back to rows, and the category list. */
module Knowledge {
  import opened Wrappers
  import opened Seqs
  import opened Text
  import opened Database
  import VS = VectorStore

  /** The text of the exception each database statement raises, if it does:
      `firstError` for the INSERT, UPDATE or DELETE of the row, `flagError`
      for the later `UPDATE ... SET vector_indexed = 1`. */
  datatype DbFaults = DbFaults(firstError: Option<string>, flagError: Option<string>)

  /** `get_knowledge_item(id)`: the row with that id (the first, though ids are unique). */
  function FindItem(items: seq<Item>, id: int): (r: Option<Item>)
    ensures r.Some? <==> exists i :: 0 <= i < |items| && items[i].id == id
    ensures r.Some? ==> r.value in items && r.value.id == id
  {
    if items == [] then None
    else if items[0].id == id then Some(items[0])
    else
      var r := FindItem(items[1..], id);
      assert r.Some? ==> r.value in items;
      assert forall i :: 0 <= i < |items[1..]| ==> items[1..][i] == items[i + 1];
      r
  }

  /** The fields indexing reads from a row. */
  function EntryOf(it: Item): VS.Entry
  {
    VS.Entry(it.id, it.title, it.content, it.category, it.tags)
  }

  /** `SELECT id, title, content, category, tags FROM knowledge_items`. */
  function Entries(items: seq<Item>): (es: seq<VS.Entry>)
    // one entry per row, in table order, with exactly the five selected columns
    ensures |es| == |items|
    ensures forall i :: 0 <= i < |items| ==>
              es[i].id == items[i].id && es[i].title == items[i].title && es[i].content == items[i].content
              && es[i].category == items[i].category && es[i].tags == items[i].tags
  {
    seq(|items|, i requires 0 <= i < |items| => EntryOf(items[i]))
  }

  /** The row as `update_knowledge_item` rewrites it: new text fields and
      `last_updated`, the same `created_date` and author, the new file if one
      is given, and `vector_indexed` cleared. */
  function Revised(it: Item, title: string, content: string, category: string, tags: string,
                   now: int, newPath: Option<string>): Item
  {
    Item(it.id, title, content, category, tags, it.createdDate, now, it.authorId,
         if newPath.Some? then newPath else it.filePath, false)
  }

  /** `UPDATE knowledge_items SET ... WHERE id = ?`. */
  function ApplyUpdate(items: seq<Item>, id: int, title: string, content: string, category: string,
                       tags: string, now: int, newPath: Option<string>): (r: seq<Item>)
    ensures |r| == |items|
    ensures forall i :: 0 <= i < |items| && items[i].id != id ==> r[i] == items[i]
    ensures forall i :: 0 <= i < |items| && items[i].id == id ==>
              r[i].id == id && r[i].title == title && r[i].content == content
              && r[i].category == category && r[i].tags == tags && r[i].lastUpdated == now
              && r[i].createdDate == items[i].createdDate && r[i].authorId == items[i].authorId
              && r[i].filePath == (if newPath.Some? then newPath else items[i].filePath)
              && !r[i].vectorIndexed
  {
    seq(|items|, i requires 0 <= i < |items| =>
      if items[i].id == id then Revised(items[i], title, content, category, tags, now, newPath) else items[i])
  }

  /** Ids are unique, so every row with the id is the one found. */
  lemma RowsWithIdAgree(items: seq<Item>, id: int, it: Item)
    requires ItemIdsAscending(items) && it in items && it.id == id
    ensures forall i :: 0 <= i < |items| && items[i].id == id ==> items[i] == it
  {
  }

  /** Writing a row's own file path back leaves it as the update that keeps it. */
  lemma RewriteOwnPath(items: seq<Item>, id: int, title: string, content: string, category: string,
                       tags: string, now: int, path: Option<string>)
    requires forall i :: 0 <= i < |items| && items[i].id == id ==> items[i].filePath == path
    ensures ApplyUpdate(items, id, title, content, category, tags, now, path)
         == ApplyUpdate(items, id, title, content, category, tags, now, None)
  {
  }

  /** The path `update_knowledge_item` writes (the upload's, else the row's own,
      and only when non-empty) gives the same rows as writing the upload's
      path alone. */
  lemma UpdateWritesNewPath(items: seq<Item>, id: int, title: string, content: string, category: string,
                            tags: string, now: int, upload: Option<string>)
    requires ItemIdsAscending(items)
    ensures var current := FindItem(items, id);
            var filePath := if upload.Some? then upload
                            else if current.Some? then current.value.filePath else None;
            var written := if filePath.Some? && filePath.value != "" then filePath else None;
            var newPath := if upload.Some? && upload.value != "" then upload else None;
            ApplyUpdate(items, id, title, content, category, tags, now, written)
              == ApplyUpdate(items, id, title, content, category, tags, now, newPath)
  {
    var current := FindItem(items, id);
    if upload.None? && current.Some? {
      var path := current.value.filePath;
      RowsWithIdAgree(items, id, current.value);
      if path.Some? && path.value != "" {
        RewriteOwnPath(items, id, title, content, category, tags, now, path);
      }
    }
  }

  /** An UPDATE that keeps every row's id keeps the ids ascending and in range. */
  lemma SameIdsKeepOrder(items: seq<Item>, r: seq<Item>, next: int)
    requires ItemIdsAscending(items) && forall i :: 0 <= i < |items| ==> 1 <= items[i].id < next
    requires |r| == |items| && forall i :: 0 <= i < |items| ==> r[i].id == items[i].id
    ensures ItemIdsAscending(r) && forall i :: 0 <= i < |r| ==> 1 <= r[i].id < next
  {
  }

  /** `UPDATE knowledge_items SET vector_indexed = 1 WHERE id = ?`. */
  function MarkIndexed(items: seq<Item>, id: int): (r: seq<Item>)
    ensures |r| == |items|
    ensures forall i :: 0 <= i < |items| && items[i].id != id ==> r[i] == items[i]
    // the row with the id is flagged as indexed and keeps every other column
    ensures forall i :: 0 <= i < |items| && items[i].id == id ==>
              r[i].vectorIndexed && r[i].(vectorIndexed := items[i].vectorIndexed) == items[i]
  {
    seq(|items|, i requires 0 <= i < |items| =>
      if items[i].id == id then items[i].(vectorIndexed := true) else items[i])
  }

  /** `DELETE FROM knowledge_items WHERE id = ?`: every other row, in order. */
  function RemoveItem(items: seq<Item>, id: int): (r: seq<Item>)
    ensures forall i :: 0 <= i < |r| ==> r[i].id != id && r[i] in items
    ensures forall i :: 0 <= i < |items| && items[i].id != id ==> items[i] in r
    ensures ItemIdsAscending(items) ==> ItemIdsAscending(r)
  {
    if items == [] then []
    else
      var rest := RemoveItem(items[1..], id);
      if items[0].id == id then rest
      else
        assert forall i :: 0 <= i < |rest| ==> rest[i] in items[1..];
        [items[0]] + rest
  }

  /** The filter of `search_knowledge_items`: an empty or missing term and a
      missing, empty or "All Categories" category add no condition. */
  predicate Matches(it: Item, term: Option<string>, category: Option<string>)
  {
    && (term.None? || term.value == ""
        || ContainsIgnoringCase(it.title, term.value)
        || ContainsIgnoringCase(it.content, term.value)
        || ContainsIgnoringCase(it.tags, term.value))
    && (category.None? || category.value == "" || category.value == "All Categories"
        || it.category == category.value)
  }

  /** The rows the WHERE clause of `search_knowledge_items` keeps, in table order. */
  function Matching(items: seq<Item>, term: Option<string>, category: Option<string>): (m: seq<Item>)
    ensures forall i :: 0 <= i < |m| ==> m[i] in items && Matches(m[i], term, category)
    ensures forall x :: x in items && Matches(x, term, category) ==> x in m
  {
    if items == [] then []
    else
      var rest := Matching(items[1..], term, category);
      assert forall x :: x in items[1..] ==> x in items;
      if Matches(items[0], term, category) then [items[0]] + rest else rest
  }

  /** Each matching row is kept as often as it is in the table, and nothing else is. */
  lemma {:induction false} MatchingCounts(items: seq<Item>, term: Option<string>, category: Option<string>)
    ensures multiset(Matching(items, term, category)) <= multiset(items)
    ensures forall x | x in multiset(items) && Matches(x, term, category) ::
              multiset(Matching(items, term, category))[x] == multiset(items)[x]
  {
    if items != [] {
      MatchingCounts(items[1..], term, category);
      assert items == [items[0]] + items[1..];
    }
  }

  /** The LIMIT actually applied: a missing, zero or negative limit caps nothing. */
  predicate Capped(limit: Option<int>)
  {
    limit.Some? && limit.value > 0
  }

  /** `search_knowledge_items(term, category, limit)`: matching rows, most
      recently updated first, at most `limit` of them. */
  function SearchKnowledgeItems(items: seq<Item>, term: Option<string>, category: Option<string>,
                                limit: Option<int>): (r: seq<Item>)
    ensures forall i :: 0 <= i < |r| ==> r[i] in items && Matches(r[i], term, category)
    ensures forall i, j :: 0 <= i < j < |r| ==> r[i].lastUpdated >= r[j].lastUpdated
    ensures Capped(limit) ==> |r| <= limit.value
    // LIMIT n yields min(n, #matching) rows; no limit yields every matching row
    ensures |r| == if Capped(limit) then Min(limit.value, |Matching(items, term, category)|)
                   else |Matching(items, term, category)|
    ensures multiset(r) <= multiset(items)
    ensures !Capped(limit) ==> forall x :: x in items && Matches(x, term, category) ==> x in r
    ensures !Capped(limit) ==> forall x | x in multiset(items) && Matches(x, term, category) ::
              multiset(r)[x] == multiset(items)[x]
    ensures forall x :: x in items && Matches(x, term, category) && x !in r ==>
              forall j :: 0 <= j < |r| ==> r[j].lastUpdated >= x.lastUpdated
  {
    var m := Matching(items, term, category);
    var cap: nat := if Capped(limit) then limit.value else |m|;
    var r := Lowest(m, ItemRecency, cap);
    MatchingCounts(items, term, category);
    SearchFacts(m, r, Capped(limit));
    r
  }

  /** What `Lowest` gives, read back in terms of rows. */
  lemma SearchFacts(m: seq<Item>, r: seq<Item>, capped: bool)
    requires multiset(r) <= multiset(m) && SortedBy(r, ItemRecency)
    requires !capped ==> |r| == |m|
    requires forall x | x in multiset(m) - multiset(r) ::
               forall j :: 0 <= j < |r| ==> ItemRecency(r[j]) <= ItemRecency(x)
    ensures forall i :: 0 <= i < |r| ==> r[i] in m
    ensures forall i, j :: 0 <= i < j < |r| ==> r[i].lastUpdated >= r[j].lastUpdated
    ensures !capped ==> multiset(r) == multiset(m)
    ensures !capped ==> forall x :: x in m ==> x in r
    ensures forall x :: x in m && x !in r ==> forall j :: 0 <= j < |r| ==> r[j].lastUpdated >= x.lastUpdated
  {
    forall i | 0 <= i < |r|
      ensures r[i] in m
    {
      assert r[i] in multiset(r);
    }
    if !capped {
      assert |multiset(r)| == |multiset(m)|;
      MultisetSubsetEqualSize(multiset(r), multiset(m));
      forall x | x in m
        ensures x in r
      {
        assert x in multiset(m);
      }
    }
    forall x | x in m && x !in r
      ensures forall j :: 0 <= j < |r| ==> r[j].lastUpdated >= x.lastUpdated
    {
      assert x in multiset(m) - multiset(r);
    }
  }

  lemma MultisetSubsetEqualSize<T>(a: multiset<T>, b: multiset<T>)
    requires a <= b && |a| == |b|
    ensures a == b
  {
    var d := b - a;
    assert b == a + d;
    assert |d| == 0;
  }

  /** With no term, no category and no limit every row is listed. */
  lemma SearchWithoutFiltersListsAll(items: seq<Item>, it: Item)
    requires it in items
    ensures it in SearchKnowledgeItems(items, None, Some("All Categories"), Some(0))
  {
  }

  /** A term found only in the tags still finds the row; a category filter
      excludes every row of another category. */
  lemma SearchMatchesTagsAndCategory(items: seq<Item>, it: Item, term: string, category: string)
    requires it in items && term != "" && ContainsIgnoringCase(it.tags, term) && it.category == category
    requires category != "" && category != "All Categories"
    ensures it in SearchKnowledgeItems(items, Some(term), Some(category), None)
    ensures forall x :: x in SearchKnowledgeItems(items, Some(term), Some(category), None) ==>
              x.category == category
  {
    assert Matches(it, Some(term), Some(category));
  }

  /** One semantic hit joined to its row, if the row exists. */
  function JoinOne(h: VS.Hit, items: seq<Item>): seq<(Item, int)>
  {
    var row := FindItem(items, h.0.metadata.id);
    if row.Some? then [(row.value, h.1)] else []
  }

  /** The loop of `semantic_search_with_details`: hits whose id has a row,
      paired with that row, in hit order, scores unchanged. */
  function JoinHits(hits: seq<VS.Hit>, items: seq<Item>): (r: seq<(Item, int)>)
    ensures |r| <= |hits|
    ensures forall j :: 0 <= j < |r| ==> r[j].0 in items
  {
    if hits == [] then []
    else JoinHits(hits[..|hits| - 1], items) + JoinOne(hits[|hits| - 1], items)
  }

  /** The join distributes over concatenation: it keeps hit order, treats each
      hit on its own and never merges two hits for the same id. */
  lemma JoinSnoc(s: seq<VS.Hit>, h: VS.Hit, items: seq<Item>)
    ensures JoinHits(s + [h], items) == JoinHits(s, items) + JoinOne(h, items)
  {
    assert (s + [h])[..|s + [h]| - 1] == s;
  }

  lemma {:induction false} JoinAppend(a: seq<VS.Hit>, b: seq<VS.Hit>, items: seq<Item>)
    ensures JoinHits(a + b, items) == JoinHits(a, items) + JoinHits(b, items)
    decreases |b|
  {
    if b != [] {
      var b' := b[..|b| - 1];
      assert (a + b)[..|a + b| - 1] == a + b';
      assert (a + b)[|a + b| - 1] == b[|b| - 1];
      JoinAppend(a, b', items);
    } else {
      assert a + b == a;
    }
  }

  /** A hit is kept exactly when its id has a row; the placeholder (id 0) never has one. */
  lemma JoinSingle(h: VS.Hit, items: seq<Item>)
    requires forall i :: 0 <= i < |items| ==> 1 <= items[i].id
    ensures JoinHits([h], items) == JoinOne(h, items)
    ensures |JoinHits([h], items)| == 1 <==> exists i :: 0 <= i < |items| && items[i].id == h.0.metadata.id
    ensures h.0.metadata.id == 0 ==> JoinHits([h], items) == []
    ensures |JoinHits([h], items)| == 1 ==> JoinHits([h], items)[0].1 == h.1
  {
    assert [h][..0] == [];
  }

  /** Two hits for the same stored id yield that row twice. */
  lemma JoinKeepsDuplicates(h1: VS.Hit, h2: VS.Hit, items: seq<Item>)
    requires h1.0.metadata.id == h2.0.metadata.id
    requires exists i :: 0 <= i < |items| && items[i].id == h1.0.metadata.id
    ensures var r := JoinHits([h1, h2], items); |r| == 2 && r[0].0 == r[1].0
  {
    assert [h1, h2] == [h1] + [h2];
    JoinAppend([h1], [h2], items);
    assert [h1][..0] == [] && [h2][..0] == [];
  }

  /** `get_categories()`: the distinct categories, ascending. */
  function Categories(items: seq<Item>): (r: seq<string>)
    ensures StrictlyAscending(r)
    ensures forall c :: c in r <==> exists i :: 0 <= i < |items| && items[i].category == c
  {
    if items == [] then []
    else
      var rest := Categories(items[..|items| - 1]);
      assert forall i :: 0 <= i < |items| - 1 ==> items[..|items| - 1][i] == items[i];
      InsertDistinct(items[|items| - 1].category, rest)
  }

  /** `add_knowledge_item`. The uploaded file (if any) has already been saved
      as `filePath` before the INSERT runs. */
  method AddKnowledgeItem(db: Db, index: VS.Index, title: string, content: string, category: string,
                          tags: string, authorId: int, filePath: Option<string>, now: int,
                          df: DbFaults, lf: VS.LoadFaults, af: VS.AddFaults) returns (r: Outcome<int>)
    requires db.Valid()
    modifies db, index
    ensures db.Valid() && db.users == old(db.users) && db.nextUserId == old(db.nextUserId)
    ensures df.firstError.Some? ==>
              r == Err(df.firstError.value) && db.items == old(db.items)
              && db.nextItemId == old(db.nextItemId) && index.State() == old(index.State())
    ensures df.firstError.None? ==>
              var id := old(db.nextItemId);
              db.nextItemId == id + 1
              // the flag is set whatever the vector store reported
              && db.items == old(db.items)
                 + [Item(id, title, content, category, tags, now, now, authorId, filePath, df.flagError.None?)]
              && index.State() == VS.AddStep(old(index.State()),
                   VS.DocOf(VS.Entry(id, title, content, category, tags)), lf, af).1
              && r == (if df.flagError.Some? then Err(df.flagError.value) else Ok(id))
  {
    if df.firstError.Some? {
      return Err(df.firstError.value);
    }
    var docId := db.nextItemId;
    db.items := db.items + [Item(docId, title, content, category, tags, now, now, authorId, filePath, false)];
    db.nextItemId := docId + 1;
    var _ := index.AddToVectorstore(docId, title, content, category, tags, lf, af);
    if df.flagError.Some? {
      return Err(df.flagError.value);
    }
    db.items := MarkIndexed(db.items, docId);
    assert db.items == old(db.items)
      + [Item(docId, title, content, category, tags, now, now, authorId, filePath, true)];
    r := Ok(docId);
  }

  /** The row write of `update_knowledge_item`: the current file path is read,
      replaced by the upload's path when a file was uploaded, and written back
      only when non-empty. */
  method WriteUpdate(db: Db, itemId: int, title: string, content: string, category: string,
                     tags: string, upload: Option<string>, now: int)
    requires db.Valid()
    modifies db
    ensures db.Valid() && db.users == old(db.users)
    ensures db.nextItemId == old(db.nextItemId) && db.nextUserId == old(db.nextUserId)
    ensures var newPath := if upload.Some? && upload.value != "" then upload else None;
            db.items == ApplyUpdate(old(db.items), itemId, title, content, category, tags, now, newPath)
  {
    var current := FindItem(db.items, itemId);
    var filePath := if current.Some? then current.value.filePath else None;
    if upload.Some? {
      filePath := upload;  // the old file is removed from disk
    }
    var written := if filePath.Some? && filePath.value != "" then filePath else None;
    UpdateWritesNewPath(db.items, itemId, title, content, category, tags, now, upload);
    var updated := ApplyUpdate(db.items, itemId, title, content, category, tags, now, written);
    SameIdsKeepOrder(db.items, updated, db.nextItemId);
    db.items := updated;
  }

  /** `update_knowledge_item`. `upload` is the path of a newly saved file, if any. */
  method UpdateKnowledgeItem(db: Db, index: VS.Index, itemId: int, title: string, content: string,
                             category: string, tags: string, upload: Option<string>, now: int,
                             df: DbFaults, lf: VS.LoadFaults, af: VS.AddFaults) returns (r: Outcome<string>)
    requires db.Valid()
    modifies db, index
    ensures db.Valid() && db.users == old(db.users)
    ensures db.nextItemId == old(db.nextItemId) && db.nextUserId == old(db.nextUserId)
    ensures df.firstError.Some? ==>
              r == Err(df.firstError.value) && db.items == old(db.items) && index.State() == old(index.State())
    ensures df.firstError.None? ==>
              var newPath := if upload.Some? && upload.value != "" then upload else None;
              var updated := ApplyUpdate(old(db.items), itemId, title, content, category, tags, now, newPath);
              db.items == (if df.flagError.Some? then updated else MarkIndexed(updated, itemId))
              // a vector is added even when no row has this id, or only metadata changed
              && index.State() == VS.AddStep(old(index.State()),
                   VS.DocOf(VS.Entry(itemId, title, content, category, tags)), lf, af).1
              && r == (if df.flagError.Some? then Err(df.flagError.value)
                       else Ok("Knowledge item updated successfully"))
  {
    if df.firstError.Some? {
      return Err(df.firstError.value);
    }
    WriteUpdate(db, itemId, title, content, category, tags, upload, now);
    var _ := index.AddToVectorstore(itemId, title, content, category, tags, lf, af);
    if df.flagError.Some? {
      return Err(df.flagError.value);
    }
    var updated := db.items;
    SameIdsKeepOrder(updated, MarkIndexed(updated, itemId), db.nextItemId);
    db.items := MarkIndexed(updated, itemId);
    r := Ok("Knowledge item updated successfully");
  }

  /** `delete_knowledge_item`: the row goes first, then the index is rebuilt
      from the rows that remain; a failed rebuild does not bring the row back. */
  method DeleteKnowledgeItem(db: Db, index: VS.Index, itemId: int, df: DbFaults, rf: VS.RebuildFaults)
    returns (r: Outcome<string>)
    requires db.Valid()
    modifies db, index
    ensures db.Valid() && db.users == old(db.users)
    ensures db.nextItemId == old(db.nextItemId) && db.nextUserId == old(db.nextUserId)
    ensures df.firstError.Some? ==>
              r == Err(df.firstError.value) && db.items == old(db.items) && index.State() == old(index.State())
    ensures df.firstError.None? ==>
              db.items == RemoveItem(old(db.items), itemId)
              && index.State() == VS.RebuildStep(old(index.State()), Entries(db.items), rf).1
              && r == (if VS.RebuildStep(old(index.State()), Entries(db.items), rf).0
                       then Ok("Knowledge item deleted successfully") else Err(rf.message))
  {
    if df.firstError.Some? {
      return Err(df.firstError.value);
    }
    db.items := RemoveItem(db.items, itemId);
    var allItems := Entries(db.items);
    var ok := index.RebuildVectorstore(allItems, rf);
    if !ok {
      return Err(rf.message);
    }
    r := Ok("Knowledge item deleted successfully");
  }

  /** The loop of `semantic_search_with_details` over the hits. */
  method JoinRows(found: seq<VS.Hit>, items: seq<Item>) returns (detailed: seq<(Item, int)>)
    ensures detailed == JoinHits(found, items)
  {
    detailed := [];
    for i := 0 to |found|
      invariant detailed == JoinHits(found[..i], items)
    {
      var (doc, score) := found[i];
      var item := FindItem(items, doc.metadata.id);
      if item.Some? {
        detailed := detailed + [(item.value, score)];
      }
      assert found[..i + 1] == found[..i] + [found[i]];
      JoinSnoc(found[..i], found[i], items);
    }
    assert found[..|found|] == found;
  }

  /** `semantic_search_with_details`: None when the vector store raised. */
  method SemanticSearchWithDetails(db: Db, index: VS.Index, query: string, topK: nat, lf: VS.LoadFaults)
    returns (r: Option<seq<(Item, int)>>)
    modifies index
    ensures index.State() == VS.SearchStep(old(index.State()), query, topK, lf, index.distance).1
    ensures var hits := VS.SearchStep(old(index.State()), query, topK, lf, index.distance).0;
            r == if hits.Some? then Some(JoinHits(hits.value, db.items)) else None
  {
    var hits := index.SemanticSearch(query, topK, lf);
    if hits.None? {
      return None;
    }
    var detailed := JoinRows(hits.value, db.items);
    r := Some(detailed);
  }
}
