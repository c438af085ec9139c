/** The parent/child retriever: parents are kept whole in a docstore under
    an id, their children (the child splitter's pieces) are sent to the
    vectorstore tagged with that id, and a query is answered by looking up
    the parents of the children the vectorstore ranks highest. Also the
    control flow of `RAGEngine.ingest_file`. */
module RagEngine {
  import opened Wrappers
  import opened Docs
  import Ingest

  /** The metadata key that links a child to its parent. */
  const IdKey: string := "doc_id"
  /** How many children a query asks the vectorstore for. */
  const SearchK: nat := 5

  /** A docstore value: a document object, or its pickled bytes. */
  datatype Entry = Stored(doc: Document) | Pickled(data: seq<bv8>)

  /** How `add_documents` ended: normally, or by the exception it raised. */
  datatype AddOutcome =
    | Done
    | IndexOutOfRange    // `ids[i]` with `ids` shorter than the documents
    | NoDocstore         // `mset` on a docstore that is `None`
    | VectorstoreFailed  // `vectorstore.add_documents` raised

  predicate Distinct(s: seq<string>) {
    forall i, j :: 0 <= i < j < |s| ==> s[i] != s[j]
  }

  // ------------------------------------------------------------ add_documents

  /** The children of one parent, each with `metadata[id_key] = doc_id`. */
  function Tag(children: seq<Document>, id: string): (r: seq<Document>)
    ensures |r| == |children|
    decreases |children|
  {
    if |children| == 0 then []
    else
      var c := children[|children| - 1];
      Tag(children[..|children| - 1], id) + [Document(c.content, c.metadata[IdKey := id])]
  }

  /** Child `k` keeps its content and gets `id_key` set to `id`. */
  lemma {:induction false} TagAt(children: seq<Document>, id: string)
    ensures forall k :: 0 <= k < |children| ==>
              Tag(children, id)[k] == Document(children[k].content, children[k].metadata[IdKey := id])
    decreases |children|
  {
    if |children| > 0 {
      var n := |children| - 1;
      TagAt(children[..n], id);
      assert Tag(children, id) == Tag(children[..n], id) + [Document(children[n].content, children[n].metadata[IdKey := id])];
    }
  }

  /** A tagged child keeps its content and every other metadata entry, and
      carries the parent id under `id_key`. */
  lemma TagBackReference(children: seq<Document>, id: string)
    ensures forall c :: c in Tag(children, id) ==> IdKey in c.metadata && c.metadata[IdKey] == id
    ensures forall k, key :: 0 <= k < |children| && key in children[k].metadata && key != IdKey ==>
              key in Tag(children, id)[k].metadata
              && Tag(children, id)[k].metadata[key] == children[k].metadata[key]
              && Tag(children, id)[k].content == children[k].content
  {
    var r := Tag(children, id);
    TagAt(children, id);
    forall c | c in r ensures IdKey in c.metadata && c.metadata[IdKey] == id {
      var k :| 0 <= k < |r| && r[k] == c;
    }
  }

  /** `full_docs`: the tagged children of the first `|docs|` parents, in
      parent order. */
  function Children(split: Document -> seq<Document>, docs: seq<Document>, ids: seq<string>): seq<Document>
    requires |docs| <= |ids|
    decreases |docs|
  {
    if |docs| == 0 then []
    else
      var n := |docs| - 1;
      Children(split, docs[..n], ids) + Tag(split(docs[n]), ids[n])
  }

  /** The docstore after the `mset` calls for the first `|docs|` parents:
      one write per parent, in order, so a later write wins. */
  function Assign(store: map<string, Entry>, docs: seq<Document>, ids: seq<string>): map<string, Entry>
    requires |docs| <= |ids|
    decreases |docs|
  {
    if |docs| == 0 then store
    else
      var n := |docs| - 1;
      Assign(store, docs[..n], ids)[ids[n] := Stored(docs[n])]
  }

  /** One parent more: its write comes after the earlier ones. */
  lemma AssignStep(store: map<string, Entry>, docs: seq<Document>, ids: seq<string>, i: nat)
    requires i < |docs| && i < |ids|
    ensures Assign(store, docs[..i + 1], ids) == Assign(store, docs[..i], ids)[ids[i] := Stored(docs[i])]
  {
    var p := docs[..i + 1];
    assert p[..i] == docs[..i] && p[i] == docs[i];
  }

  /** One parent more: its children follow the earlier ones. */
  lemma ChildrenStep(split: Document -> seq<Document>, docs: seq<Document>, ids: seq<string>, i: nat)
    requires i < |docs| && i < |ids|
    ensures Children(split, docs[..i + 1], ids) == Children(split, docs[..i], ids) + Tag(split(docs[i]), ids[i])
  {
    var p := docs[..i + 1];
    assert p[..i] == docs[..i] && p[i] == docs[i];
  }

  /** The writes add exactly the ids used and touch nothing else. */
  lemma {:induction false} AssignKeys(store: map<string, Entry>, docs: seq<Document>, ids: seq<string>)
    requires |docs| <= |ids|
    ensures Assign(store, docs, ids).Keys == store.Keys + (set i | 0 <= i < |docs| :: ids[i])
    ensures forall key :: key in store && (forall i :: 0 <= i < |docs| ==> ids[i] != key) ==>
              Assign(store, docs, ids)[key] == store[key]
    decreases |docs|
  {
    if |docs| > 0 {
      var n := |docs| - 1;
      AssignKeys(store, docs[..n], ids);
      assert (set i | 0 <= i < |docs| :: ids[i]) == (set i | 0 <= i < n :: ids[i]) + {ids[n]};
    }
  }

  /** With distinct ids, the docstore maps `ids[i]` to `documents[i]` for
      every `i`. */
  lemma {:induction false} AssignDistinct(store: map<string, Entry>, docs: seq<Document>, ids: seq<string>)
    requires |docs| <= |ids| && Distinct(ids[..|docs|])
    ensures forall i :: 0 <= i < |docs| ==>
              ids[i] in Assign(store, docs, ids) && Assign(store, docs, ids)[ids[i]] == Stored(docs[i])
    decreases |docs|
  {
    if |docs| > 0 {
      var n := |docs| - 1;
      assert ids[..n] == ids[..|docs|][..n];
      AssignDistinct(store, docs[..n], ids);
      forall i | 0 <= i < n ensures ids[i] != ids[n] {
        assert ids[..|docs|][i] == ids[i] && ids[..|docs|][n] == ids[n];
      }
    }
  }

  /** Whatever the ids, an id that was written holds the last document
      written under it. */
  lemma {:induction false} AssignLastWins(store: map<string, Entry>, docs: seq<Document>, ids: seq<string>, i: nat)
    requires |docs| <= |ids| && i < |docs|
    requires forall j :: i < j < |docs| ==> ids[j] != ids[i]
    ensures ids[i] in Assign(store, docs, ids) && Assign(store, docs, ids)[ids[i]] == Stored(docs[i])
    decreases |docs|
  {
    var n := |docs| - 1;
    if i < n {
      AssignLastWins(store, docs[..n], ids, i);
    }
  }

  /** Every child in `full_docs` carries, under `id_key`, the id of the
      parent it was split from, and every child of every parent is there. */
  lemma {:induction false} ChildrenTagged(split: Document -> seq<Document>, docs: seq<Document>, ids: seq<string>)
    requires |docs| <= |ids|
    ensures forall c :: c in Children(split, docs, ids) ==>
              exists i :: 0 <= i < |docs| && c in Tag(split(docs[i]), ids[i])
    ensures forall i, c :: 0 <= i < |docs| && c in Tag(split(docs[i]), ids[i]) ==> c in Children(split, docs, ids)
    decreases |docs|
  {
    if |docs| > 0 {
      var n := |docs| - 1;
      var prev, last := Children(split, docs[..n], ids), Tag(split(docs[n]), ids[n]);
      assert Children(split, docs, ids) == prev + last;
      ChildrenTagged(split, docs[..n], ids);
      forall c | c in prev + last
        ensures exists i :: 0 <= i < |docs| && c in Tag(split(docs[i]), ids[i])
      {
        if c in prev {
          var i :| 0 <= i < n && c in Tag(split(docs[..n][i]), ids[i]);
          assert docs[..n][i] == docs[i];
        } else {
          assert c in last;
        }
      }
      forall i, c | 0 <= i < |docs| && c in Tag(split(docs[i]), ids[i])
        ensures c in prev + last
      {
        if i < n {
          assert docs[..n][i] == docs[i];
          assert c in prev;
        } else {
          assert c in last;
        }
      }
    }
  }

  /** `full_docs` lists the children parent by parent, in document order:
      the children of the first `i` parents form a prefix, and the children
      of parent `i` come right after it. */
  lemma {:induction false} ChildrenInOrder(split: Document -> seq<Document>, docs: seq<Document>, ids: seq<string>, i: nat)
    requires |docs| <= |ids| && i < |docs|
    ensures Children(split, docs[..i + 1], ids) == Children(split, docs[..i], ids) + Tag(split(docs[i]), ids[i])
    ensures Children(split, docs[..i + 1], ids) <= Children(split, docs, ids)
    decreases |docs|
  {
    assert docs[..i + 1][..i] == docs[..i];
    var n := |docs| - 1;
    if i < n {
      ChildrenInOrder(split, docs[..n], ids, i);
      assert docs[..n][..i + 1] == docs[..i + 1];
    } else {
      assert docs[..i + 1] == docs;
    }
  }

  /** Every child carries `id_key`, and its value is one of the ids used. */
  lemma ChildrenBackReference(split: Document -> seq<Document>, docs: seq<Document>, ids: seq<string>)
    requires |docs| <= |ids|
    ensures forall c :: c in Children(split, docs, ids) ==>
              IdKey in c.metadata && exists i :: 0 <= i < |docs| && c.metadata[IdKey] == ids[i]
  {
    ChildrenTagged(split, docs, ids);
    forall c | c in Children(split, docs, ids)
      ensures IdKey in c.metadata && exists i :: 0 <= i < |docs| && c.metadata[IdKey] == ids[i]
    {
      var i :| 0 <= i < |docs| && c in Tag(split(docs[i]), ids[i]);
      TagBackReference(split(docs[i]), ids[i]);
    }
  }

  /** The length of the longest string in `keys`. The source has no such
      loop: it only serves `FreshIds`, the stand-in for `uuid4`, which makes
      ids longer than every key already stored. */
  method LongestKey(keys: set<string>) returns (longest: nat)
    ensures forall k :: k in keys ==> |k| <= longest
  {
    longest := 0;
    var rest := keys;
    while rest != {}
      invariant rest <= keys
      invariant forall k :: k in keys - rest ==> |k| <= longest
      decreases |rest|
    {
      var k :| k in rest;
      if |k| > longest {
        longest := |k|;
      }
      rest := rest - {k};
    }
  }

  /** `[str(uuid.uuid4()) for _ in documents]`, as a supplier of ids that
      are distinct and not yet in the docstore. */
  method FreshIds(n: nat, taken: set<string>) returns (ids: seq<string>)
    ensures |ids| == n && Distinct(ids)
    ensures forall i :: 0 <= i < n ==> ids[i] !in taken
  {
    var longest := LongestKey(taken);
    ids := [];
    while |ids| < n
      invariant |ids| <= n
      invariant forall i :: 0 <= i < |ids| ==> |ids[i]| == longest + 1 + i
    {
      ids := ids + [seq(longest + 1 + |ids|, _ => 'u')];
    }
  }

  // --------------------------------------------------- _get_relevant_documents

  /** The parent ids of the hits that carry `id_key`, in hit order. */
  function ParentIds(hits: seq<Document>): seq<string>
    decreases |hits|
  {
    if |hits| == 0 then []
    else
      var h := hits[|hits| - 1];
      ParentIds(hits[..|hits| - 1]) + (if IdKey in h.metadata then [h.metadata[IdKey]] else [])
  }

  /** An id is collected exactly when some hit carries it under `id_key`;
      hits without `id_key` are ignored, so there are at most as many ids as
      hits. */
  lemma {:induction false} ParentIdsExact(hits: seq<Document>)
    ensures |ParentIds(hits)| <= |hits|
    ensures forall x :: x in ParentIds(hits) <==>
              exists k :: 0 <= k < |hits| && IdKey in hits[k].metadata && hits[k].metadata[IdKey] == x
    decreases |hits|
  {
    if |hits| > 0 {
      var n := |hits| - 1;
      ParentIdsExact(hits[..n]);
      forall x | x in ParentIds(hits)
        ensures exists k :: 0 <= k < |hits| && IdKey in hits[k].metadata && hits[k].metadata[IdKey] == x
      {
        if x in ParentIds(hits[..n]) {
          var k :| 0 <= k < n && IdKey in hits[..n][k].metadata && hits[..n][k].metadata[IdKey] == x;
          assert hits[..n][k] == hits[k];
        }
      }
      forall x | exists k :: 0 <= k < |hits| && IdKey in hits[k].metadata && hits[k].metadata[IdKey] == x
        ensures x in ParentIds(hits)
      {
        var k :| 0 <= k < |hits| && IdKey in hits[k].metadata && hits[k].metadata[IdKey] == x;
        if k < n {
          assert hits[..n][k] == hits[k];
        }
      }
    }
  }

  /** `docstore.mget([id])[0]`. */
  function Lookup(store: map<string, Entry>, id: string): Option<Entry> {
    if id in store then Some(store[id]) else None
  }

  /** What one `mget` result contributes: nothing for a missing entry or one
      whose unpickling raises, the unpickled document for bytes, and the
      stored object otherwise. */
  function Resolve(e: Option<Entry>, unpickle: seq<bv8> -> Option<Document>): Option<Document> {
    match e
    case None => None
    case Some(Stored(d)) => Some(d)
    case Some(Pickled(b)) => unpickle(b)
  }

  /** The documents fetched for `ids`, in id order. */
  function Fetch(store: map<string, Entry>, ids: seq<string>, unpickle: seq<bv8> -> Option<Document>): seq<Document>
    decreases |ids|
  {
    if |ids| == 0 then []
    else
      var n := |ids| - 1;
      Fetch(store, ids[..n], unpickle)
        + (match Resolve(Lookup(store, ids[n]), unpickle) case None => [] case Some(d) => [d])
  }

  /** Each id yields at most one document, and a document is fetched exactly
      when some id resolves to it. */
  lemma {:induction false} FetchExact(store: map<string, Entry>, ids: seq<string>, unpickle: seq<bv8> -> Option<Document>)
    ensures |Fetch(store, ids, unpickle)| <= |ids|
    ensures forall d :: d in Fetch(store, ids, unpickle) <==>
              exists k :: 0 <= k < |ids| && Resolve(Lookup(store, ids[k]), unpickle) == Some(d)
    decreases |ids|
  {
    if |ids| > 0 {
      var n := |ids| - 1;
      var prev := Fetch(store, ids[..n], unpickle);
      var r := Resolve(Lookup(store, ids[n]), unpickle);
      var last := match r case None => [] case Some(d) => [d];
      assert Fetch(store, ids, unpickle) == prev + last;
      FetchExact(store, ids[..n], unpickle);
      forall d | d in prev + last
        ensures exists k :: 0 <= k < |ids| && Resolve(Lookup(store, ids[k]), unpickle) == Some(d)
      {
        if d in prev {
          var k :| 0 <= k < n && Resolve(Lookup(store, ids[..n][k]), unpickle) == Some(d);
          assert ids[..n][k] == ids[k];
        } else {
          assert r == Some(d);
        }
      }
      forall d | exists k :: 0 <= k < |ids| && Resolve(Lookup(store, ids[k]), unpickle) == Some(d)
        ensures d in prev + last
      {
        var k :| 0 <= k < |ids| && Resolve(Lookup(store, ids[k]), unpickle) == Some(d);
        if k < n {
          assert ids[..n][k] == ids[k];
          assert d in prev;
        } else {
          assert d in last;
        }
      }
    }
  }

  /** A sequence without repeats has as many distinct elements as entries. */
  lemma {:induction false} DistinctCard(s: seq<string>)
    requires Distinct(s)
    ensures |set x | x in s| == |s|
    decreases |s|
  {
    if |s| > 0 {
      var n := |s| - 1;
      assert Distinct(s[..n]);
      DistinctCard(s[..n]);
      assert (set x | x in s) == (set x | x in s[..n]) + {s[n]};
      assert s[n] !in (set x | x in s[..n]);
    }
  }

  lemma {:induction false} SetCardBound(s: seq<string>)
    ensures |set x | x in s| <= |s|
    decreases |s|
  {
    if |s| > 0 {
      var n := |s| - 1;
      SetCardBound(s[..n]);
      assert (set x | x in s) == (set x | x in s[..n]) + {s[n]};
    }
  }

  /** `list(set(ids))`: the distinct ids in some order. */
  method Dedup(ids: seq<string>) returns (uniq: seq<string>)
    ensures Distinct(uniq)
    ensures forall x :: x in uniq <==> x in ids
  {
    var remaining := set x | x in ids;
    uniq := [];
    while remaining != {}
      invariant Distinct(uniq)
      invariant forall x :: x in ids <==> x in uniq || x in remaining
      invariant forall x :: x in uniq ==> x !in remaining
      decreases |remaining|
    {
      var x :| x in remaining;
      uniq := uniq + [x];
      remaining := remaining - {x};
    }
  }

  /** `order` is one order `list(set(ids))` may produce: every collected id
      exactly once, and nothing else. */
  ghost predicate IsOrderOf(order: seq<string>, ids: seq<string>) {
    Distinct(order) && forall x :: x in order <==> x in ids
  }

  /** However the distinct parent ids are ordered, the answer holds at most
      one document per distinct id, hence no more documents than hits, and
      at most `SearchK` when the vectorstore returns at most `SearchK`
      hits. */
  lemma RetrievalBound(store: map<string, Entry>, hits: seq<Document>, order: seq<string>,
                       unpickle: seq<bv8> -> Option<Document>)
    requires IsOrderOf(order, ParentIds(hits))
    ensures |Fetch(store, order, unpickle)| <= |order| == |set x | x in ParentIds(hits)| <= |hits|
    ensures |hits| <= SearchK ==> |Fetch(store, order, unpickle)| <= SearchK
  {
    FetchExact(store, order, unpickle);
    DistinctCard(order);
    assert (set x | x in order) == (set x | x in ParentIds(hits));
    SetCardBound(ParentIds(hits));
    ParentIdsExact(hits);
  }

  /** A document is in the answer exactly when some hit names, under
      `id_key`, a parent id whose entry resolves to it. */
  lemma RetrievalExact(store: map<string, Entry>, hits: seq<Document>, order: seq<string>,
                       unpickle: seq<bv8> -> Option<Document>)
    requires IsOrderOf(order, ParentIds(hits))
    ensures forall d :: d in Fetch(store, order, unpickle) <==>
              exists k :: 0 <= k < |hits| && IdKey in hits[k].metadata
                          && Resolve(Lookup(store, hits[k].metadata[IdKey]), unpickle) == Some(d)
  {
    FetchExact(store, order, unpickle);
    ParentIdsExact(hits);
    forall d | d in Fetch(store, order, unpickle)
      ensures exists k :: 0 <= k < |hits| && IdKey in hits[k].metadata
                          && Resolve(Lookup(store, hits[k].metadata[IdKey]), unpickle) == Some(d)
    {
      var j :| 0 <= j < |order| && Resolve(Lookup(store, order[j]), unpickle) == Some(d);
      assert order[j] in ParentIds(hits);
      var k :| 0 <= k < |hits| && IdKey in hits[k].metadata && hits[k].metadata[IdKey] == order[j];
    }
    forall d | exists k :: 0 <= k < |hits| && IdKey in hits[k].metadata
                           && Resolve(Lookup(store, hits[k].metadata[IdKey]), unpickle) == Some(d)
      ensures d in Fetch(store, order, unpickle)
    {
      var k :| 0 <= k < |hits| && IdKey in hits[k].metadata
               && Resolve(Lookup(store, hits[k].metadata[IdKey]), unpickle) == Some(d);
      var x := hits[k].metadata[IdKey];
      assert x in ParentIds(hits);
      var j :| 0 <= j < |order| && order[j] == x;
    }
  }

  /** A parent written with distinct ids is fetched back unchanged by its
      id. */
  lemma StoredThenFetched(store: map<string, Entry>, docs: seq<Document>, ids: seq<string>, i: nat,
                          unpickle: seq<bv8> -> Option<Document>)
    requires |docs| <= |ids| && Distinct(ids[..|docs|]) && i < |docs|
    ensures Fetch(Assign(store, docs, ids), [ids[i]], unpickle) == [docs[i]]
  {
    AssignDistinct(store, docs, ids);
    assert [ids[i]][..0] == [];
  }

  /** The two levels fit together: after the writes for a batch with
      distinct ids, the parent id of any child of that batch resolves to the
      very parent the child was split from. */
  lemma ChildFindsParent(split: Document -> seq<Document>, store: map<string, Entry>, docs: seq<Document>,
                         ids: seq<string>, unpickle: seq<bv8> -> Option<Document>)
    requires |docs| <= |ids| && Distinct(ids[..|docs|])
    ensures forall c :: c in Children(split, docs, ids) ==>
              IdKey in c.metadata
              && exists i :: 0 <= i < |docs| && c in Tag(split(docs[i]), ids[i])
                             && Resolve(Lookup(Assign(store, docs, ids), c.metadata[IdKey]), unpickle) == Some(docs[i])
  {
    ChildrenTagged(split, docs, ids);
    AssignDistinct(store, docs, ids);
    forall c | c in Children(split, docs, ids)
      ensures IdKey in c.metadata
              && exists i :: 0 <= i < |docs| && c in Tag(split(docs[i]), ids[i])
                             && Resolve(Lookup(Assign(store, docs, ids), c.metadata[IdKey]), unpickle) == Some(docs[i])
    {
      var i :| 0 <= i < |docs| && c in Tag(split(docs[i]), ids[i]);
      TagBackReference(split(docs[i]), ids[i]);
    }
  }

  class ParentDocumentRetriever {
    /** The docstore; `None` when the engine could not load one. */
    var docstore: Option<map<string, Entry>>
    /** The batches passed to `vectorstore.add_documents`, oldest first. */
    var sent: seq<seq<Document>>
    const childSplitter: Document -> seq<Document>

    /** Every child this retriever has sent to the vectorstore points, under
        `id_key`, at a parent in the docstore. */
    ghost predicate Valid()
      reads this
    {
      forall b, c :: 0 <= b < |sent| && c in sent[b] ==>
        IdKey in c.metadata && docstore.Some? && c.metadata[IdKey] in docstore.value
    }

    constructor(store: Option<map<string, Entry>>, splitter: Document -> seq<Document>)
      ensures docstore == store && sent == [] && childSplitter == splitter
      ensures Valid()
    {
      docstore := store;
      sent := [];
      childSplitter := splitter;
    }

    /** `add_documents(documents, ids)`. `sinkOk` says whether the
        vectorstore accepts the batch. `used` is the id list the loop reads:
        the given one, or one fresh id per document. */
    method AddDocuments(documents: seq<Document>, ids: Option<seq<string>>, sinkOk: bool)
      returns (outcome: AddOutcome, ghost used: seq<string>)
      requires Valid()
      modifies this
      ensures Valid()
      ensures ids.Some? ==> used == ids.value
      ensures ids.None? && documents != [] ==>
                |used| == |documents| && Distinct(used)
                && (old(docstore).Some? ==> forall i :: 0 <= i < |used| ==> used[i] !in old(docstore).value)
      ensures documents == [] ==> outcome == Done && docstore == old(docstore) && sent == old(sent)
      ensures documents != [] && |used| == 0 ==> outcome == IndexOutOfRange && docstore == old(docstore) && sent == old(sent)
      ensures documents != [] && |used| > 0 && old(docstore).None? ==>
                outcome == NoDocstore && docstore == old(docstore) && sent == old(sent)
      ensures old(docstore).Some? && 0 < |used| < |documents| ==>
                && outcome == IndexOutOfRange && sent == old(sent)
                && docstore == Some(Assign(old(docstore).value, documents[..|used|], used))
      ensures old(docstore).Some? && documents != [] && |used| >= |documents| ==>
                && docstore == Some(Assign(old(docstore).value, documents, used))
                && (sinkOk ==> outcome == Done && sent == old(sent) + [Children(childSplitter, documents, used)])
                && (!sinkOk ==> outcome == VectorstoreFailed && sent == old(sent))
    {
      used := if ids.Some? then ids.value else [];
      if |documents| == 0 {
        return Done, used;
      }
      var theIds: seq<string>;
      if ids.None? {
        theIds := FreshIds(|documents|, if docstore.Some? then docstore.value.Keys else {});
      } else {
        theIds := ids.value;
      }
      used := theIds;
      var fullDocs: seq<Document> := [];
      var i := 0;
      while i < |documents|
        invariant 0 <= i <= |documents| && i <= |theIds|
        invariant docstore.None? ==> i == 0
        invariant docstore.Some? == old(docstore).Some?
        invariant old(docstore).Some? ==> docstore == Some(Assign(old(docstore).value, documents[..i], theIds))
        invariant fullDocs == Children(childSplitter, documents[..i], theIds)
        invariant sent == old(sent)
        invariant Valid()
      {
        if i >= |theIds| {
          return IndexOutOfRange, used;
        }
        var docId := theIds[i];
        var subDocs := childSplitter(documents[i]);
        var tagged := TagAll(subDocs, docId);
        ChildrenStep(childSplitter, documents, theIds, i);
        fullDocs := fullDocs + tagged;
        if docstore.None? {
          return NoDocstore, used;
        }
        AssignStep(old(docstore).value, documents, theIds, i);
        docstore := Some(docstore.value[docId := Stored(documents[i])]);
        i := i + 1;
      }
      assert documents[..|documents|] == documents;
      if !sinkOk {
        AssignKeys(old(docstore).value, documents, theIds);
        return VectorstoreFailed, used;
      }
      AssignKeys(old(docstore).value, documents, theIds);
      ChildrenBackReference(childSplitter, documents, theIds);
      sent := sent + [fullDocs];
      return Done, used;
    }

    /** The inner loop of `add_documents`: every child of one parent gets
        `doc_id` set to the parent's id. */
    static method TagAll(subDocs: seq<Document>, docId: string) returns (tagged: seq<Document>)
      ensures tagged == Tag(subDocs, docId)
    {
      tagged := [];
      for j := 0 to |subDocs|
        invariant tagged == Tag(subDocs[..j], docId)
      {
        assert subDocs[..j + 1][..j] == subDocs[..j];
        tagged := tagged + [Document(subDocs[j].content, subDocs[j].metadata[IdKey := docId])];
      }
      assert subDocs[..|subDocs|] == subDocs;
    }

    /** `_get_relevant_documents(query)`. `search` stands for
        `vectorstore.similarity_search`, `unpickle` for `pickle.loads` (with
        `None` when it raises). The answer is `None` when the docstore is
        missing and has to be consulted (`mget` on `None` raises). `order`
        is the order `list(set(ids))` produced. */
    method GetRelevantDocuments(query: string, search: (string, nat) -> seq<Document>,
                                unpickle: seq<bv8> -> Option<Document>)
      returns (result: Option<seq<Document>>, ghost order: seq<string>)
      ensures IsOrderOf(order, ParentIds(search(query, SearchK)))
      ensures ParentIds(search(query, SearchK)) == [] ==> result == Some([])
      ensures ParentIds(search(query, SearchK)) != [] && docstore.None? ==> result.None?
      ensures ParentIds(search(query, SearchK)) != [] && docstore.Some? ==>
                result == Some(Fetch(docstore.value, order, unpickle))
    {
      var subDocs := search(query, SearchK);
      var ids: seq<string> := [];
      for k := 0 to |subDocs|
        invariant ids == ParentIds(subDocs[..k])
      {
        assert subDocs[..k + 1][..k] == subDocs[..k];
        var d := subDocs[k];
        if IdKey in d.metadata {
          ids := ids + [d.metadata[IdKey]];
        }
      }
      assert subDocs[..|subDocs|] == subDocs;
      var all := ids;
      ids := Dedup(ids);
      order := ids;
      assert all != [] ==> all[0] in all;
      if |ids| == 0 {
        return Some([]), order;
      }
      assert ids[0] in ids;
      if docstore.None? {
        return None, order;
      }
      var store := docstore.value;
      var rawDocs := seq(|ids|, k requires 0 <= k < |ids| => Lookup(store, ids[k]));
      var finalDocs: seq<Document> := [];
      for k := 0 to |rawDocs|
        invariant finalDocs == Fetch(store, ids[..k], unpickle)
      {
        assert ids[..k + 1][..k] == ids[..k];
        var d := rawDocs[k];
        if d.Some? {
          match d.value
          case Pickled(b) =>
            var loaded := unpickle(b);
            if loaded.Some? {
              finalDocs := finalDocs + [loaded.value];
            }
          case Stored(doc) =>
            finalDocs := finalDocs + [doc];
        }
      }
      assert ids[..|ids|] == ids;
      return Some(finalDocs), order;
    }
  }

  /** What `docstore.pkl` holds after the engine's own writes: nothing
      written yet, a complete pickle of a docstore, or the remains of a dump
      that raised after `open(..., "wb")` had truncated the file. */
  datatype SavedFile = Untouched | Complete(store: map<string, Entry>) | Truncated

  /** `RAGEngine`: the retriever it builds over the docstore it loaded, and
      what it last wrote to `docstore.pkl`. */
  class Engine {
    const retriever: ParentDocumentRetriever
    var saved: SavedFile

    ghost predicate Valid()
      reads this, retriever
    {
      retriever.Valid()
    }

    constructor(store: Option<map<string, Entry>>, splitter: Document -> seq<Document>)
      ensures fresh(retriever) && retriever.docstore == store && retriever.sent == []
      ensures retriever.childSplitter == splitter
      ensures saved == Untouched
      ensures Valid()
    {
      retriever := new ParentDocumentRetriever(store, splitter);
      saved := Untouched;
    }

    /** `ingest_file(filepath)`: load the file, add its documents with fresh
        ids, then write the docstore out. `content` is what the file's reader
        produced, `chunk` the fallback splitter, `sinkOk` whether the
        vectorstore accepts the batch, `openOk` whether `docstore.pkl` can be
        opened for writing and `dumpOk` whether `pickle.dump` then succeeds.
        Every exception turns into `false`. */
    method IngestFile(filepath: string, content: Option<seq<string>>, chunk: string -> seq<string>,
                      sinkOk: bool, openOk: bool, dumpOk: bool) returns (ok: bool, ghost used: seq<string>)
      requires Valid()
      modifies this, retriever
      ensures Valid()
      ensures var docs, before := Ingest.Loaded(filepath, content, chunk), old(retriever.docstore);
        && (docs == [] ==>
              !ok && retriever.docstore == before && retriever.sent == old(retriever.sent)
              && saved == old(saved))
        && (ok <==> docs != [] && before.Some? && sinkOk && openOk && dumpOk)
        && (docs != [] && before.None? ==>
              retriever.docstore == before && retriever.sent == old(retriever.sent) && saved == old(saved))
        && (docs != [] && before.Some? ==>
              && |used| == |docs| && Distinct(used)
              && (forall i :: 0 <= i < |used| ==> used[i] !in before.value)
              && retriever.docstore == Some(Assign(before.value, docs, used)))
        && (docs != [] && before.Some? && !sinkOk ==>
              retriever.sent == old(retriever.sent) && saved == old(saved))
        && (docs != [] && before.Some? && sinkOk ==>
              retriever.sent == old(retriever.sent) + [Children(retriever.childSplitter, docs, used)])
        && (docs != [] && before.Some? && sinkOk && !openOk ==> saved == old(saved))
        && (docs != [] && before.Some? && sinkOk && openOk && !dumpOk ==> saved == Truncated)
        && (ok ==> saved == Complete(Assign(before.value, docs, used)))
    {
      used := [];
      var docs := Ingest.LoadFile(filepath, content, chunk);
      if docs == [] {
        return false, used;
      }
      var outcome;
      outcome, used := retriever.AddDocuments(docs, None, sinkOk);
      if outcome != Done {
        return false, used;
      }
      if !openOk {
        return false, used;
      }
      if !dumpOk {
        saved := Truncated;
        return false, used;
      }
      saved := Complete(retriever.docstore.value);
      return true, used;
    }
  }
}
