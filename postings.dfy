/**
 * The inverted index as a value: term to posting list, a posting list being
 * bookmark id to term frequency. This module states what it means for an
 * index to describe a collection of documents, and what one document added
 * or removed does to it, independently of how the index is updated.
 */
module Postings {
  import opened Types

  /** The inverted index: term to its posting list. */
  type Index = map<string, IndexedTerm>

  /** The documents an index describes: bookmark id to the bookmark's terms, in order. */
  type Docs = map<string, seq<string>>

  /** `id` has an entry in the posting list of `t`. */
  predicate Posted(index: Index, t: string, id: string) {
    t in index && id in index[t].bookmarks
  }

  /** The stored frequency of `t` for `id`; a missing entry reads as 0, as `get(id) || 0` does. */
  function Freq(index: Index, t: string, id: string): int {
    if Posted(index, t, id) then index[t].bookmarks[id] else 0
  }

  /** How often `t` occurs among the terms of document `id`; 0 for an absent document. */
  function Occ(docs: Docs, t: string, id: string): nat {
    if id in docs then multiset(docs[id])[t] else 0
  }

  /**
   * Every entry is filed under its own term, no posting list is empty and
   * every stored frequency is positive.
   */
  predicate WellFormed(index: Index) {
    forall t :: t in index ==>
      index[t].term == t && |index[t].bookmarks| > 0 &&
      forall id :: id in index[t].bookmarks ==> index[t].bookmarks[id] > 0
  }

  /** The representation invariant: the stored postings are exactly those computed from the documents. */
  ghost predicate Valid(index: Index, docs: Docs) {
    WellFormed(index) && forall t, id :: Freq(index, t, id) == Occ(docs, t, id)
  }

  /** Every term of every document. */
  function AllTerms(docs: Docs): set<string> {
    set id, t | id in docs && t in docs[id] :: t
  }

  /** The posting list computed from the documents for one term. */
  function PostingList(docs: Docs, t: string): map<string, int> {
    map id | id in docs && t in docs[id] :: multiset(docs[id])[t]
  }

  /** The index computed from the documents: one posting list per term that occurs. */
  function BuildIndex(docs: Docs): Index {
    map t | t in AllTerms(docs) :: IndexedTerm(t, PostingList(docs, t))
  }

  /**
   * What adding the document `id` with terms `ts` does to `index`: a term
   * gains an entry when it occurs in `ts`, a posting of `id` appears for each
   * term of `ts`, and its frequency grows by the number of occurrences;
   * nothing else changes.
   */
  ghost predicate Added(index: Index, index': Index, id: string, ts: seq<string>) {
    (forall t :: t in index' <==> t in index || t in ts) &&
    (forall t :: t in index' ==> index'[t].term == if t in index then index[t].term else t) &&
    (forall t, x :: Posted(index', t, x) <==> Posted(index, t, x) || (x == id && t in ts)) &&
    (forall t, x :: Freq(index', t, x) == Freq(index, t, x) + if x == id then multiset(ts)[t] else 0)
  }

  /**
   * What removing the document `id` with terms `ts` does to `index`: the
   * posting of `id` disappears from the list of every term of `ts`, a term
   * whose list is left empty disappears, and nothing else changes.
   */
  ghost predicate Removed(index: Index, index': Index, id: string, ts: seq<string>) {
    (forall t :: t in index' <==> t in index && !(t in ts && index[t].bookmarks.Keys <= {id})) &&
    (forall t :: t in index' ==> index'[t].term == index[t].term) &&
    (forall t, x :: Posted(index', t, x) <==> Posted(index, t, x) && !(x == id && t in ts)) &&
    (forall t, x :: Freq(index', t, x) == if x == id && t in ts then 0 else Freq(index, t, x))
  }

  /** Under the invariant an id is posted for a term exactly when the term is one of its document's terms. */
  lemma ValidPosted(index: Index, docs: Docs, t: string, id: string)
    requires Valid(index, docs)
    ensures Posted(index, t, id) <==> id in docs && t in docs[id]
  {
    assert Freq(index, t, id) == Occ(docs, t, id);
    if id in docs && t in docs[id] {
      assert multiset(docs[id])[t] > 0;
    }
  }

  /** Under the invariant every posted id is a document, i.e. a cached bookmark. */
  lemma PostedAreDocs(index: Index, docs: Docs)
    requires Valid(index, docs)
    ensures forall t, id :: Posted(index, t, id) ==> id in docs
  {
    forall t, id | Posted(index, t, id)
      ensures id in docs
    {
      ValidPosted(index, docs, t, id);
    }
  }

  /** Under the invariant the terms of the index are exactly the terms of the documents. */
  lemma ValidTerms(index: Index, docs: Docs)
    requires Valid(index, docs)
    ensures index.Keys == AllTerms(docs)
    ensures |index| == |AllTerms(docs)|
  {
    forall t | t in index
      ensures t in AllTerms(docs)
    {
      var id :| id in index[t].bookmarks;
      ValidPosted(index, docs, t, id);
    }
    forall t | t in AllTerms(docs)
      ensures t in index
    {
      var id :| id in docs && t in docs[id];
      ValidPosted(index, docs, t, id);
    }
  }

  /** When the invariant holds, the index has one entry per distinct document term. */
  lemma TermCount(index: Index, docs: Docs)
    ensures Valid(index, docs) ==> |index| == |AllTerms(docs)|
  {
    if Valid(index, docs) {
      ValidTerms(index, docs);
    }
  }

  /** The invariant holds exactly when the index is the one computed from the documents. */
  lemma ValidIffBuilt(index: Index, docs: Docs)
    ensures Valid(index, docs) <==> index == BuildIndex(docs)
  {
    if Valid(index, docs) {
      ValidBuilt(index, docs);
    }
    if index == BuildIndex(docs) {
      BuiltValid(docs);
    }
  }

  lemma ValidBuilt(index: Index, docs: Docs)
    requires Valid(index, docs)
    ensures index == BuildIndex(docs)
  {
    var built := BuildIndex(docs);
    ValidTerms(index, docs);
    forall t | t in index
      ensures index[t] == built[t]
    {
      ValidEntry(index, docs, t);
    }
  }

  /** Under the invariant each entry is the posting list computed for its term. */
  lemma ValidEntry(index: Index, docs: Docs, t: string)
    requires Valid(index, docs) && t in index
    ensures index[t] == IndexedTerm(t, PostingList(docs, t))
  {
    var pl := PostingList(docs, t);
    forall id
      ensures id in index[t].bookmarks <==> id in pl
    {
      ValidPosted(index, docs, t, id);
    }
    forall id | id in pl
      ensures index[t].bookmarks[id] == pl[id]
    {
      assert Freq(index, t, id) == Occ(docs, t, id);
    }
    assert index[t].bookmarks == pl;
  }

  lemma BuiltValid(docs: Docs)
    ensures Valid(BuildIndex(docs), docs)
  {
    var built := BuildIndex(docs);
    forall t | t in built
      ensures built[t].term == t && |built[t].bookmarks| > 0
      ensures forall id :: id in built[t].bookmarks ==> built[t].bookmarks[id] > 0
    {
      var id :| id in docs && t in docs[id];
      assert id in built[t].bookmarks;
    }
    forall t, id
      ensures Freq(built, t, id) == Occ(docs, t, id)
    {
      if id in docs && t !in docs[id] {
        assert multiset(docs[id])[t] == 0;
      }
    }
  }

  /** Adding a document whose id is not yet described keeps the invariant. */
  lemma AddKeepsValid(index: Index, index': Index, docs: Docs, id: string, ts: seq<string>)
    requires Valid(index, docs) && id !in docs
    requires Added(index, index', id, ts)
    ensures Valid(index', docs[id := ts])
  {
    var docs' := docs[id := ts];
    forall t | t in index'
      ensures index'[t].term == t && |index'[t].bookmarks| > 0
      ensures forall x :: x in index'[t].bookmarks ==> index'[t].bookmarks[x] > 0
    {
      if t in index {
        var x :| x in index[t].bookmarks;
        assert Posted(index', t, x);
      } else {
        assert Posted(index', t, id);
      }
      forall x | x in index'[t].bookmarks
        ensures index'[t].bookmarks[x] > 0
      {
        assert Posted(index', t, x);
        assert Freq(index', t, x) == Freq(index, t, x) + if x == id then multiset(ts)[t] else 0;
        if !Posted(index, t, x) {
          assert x == id && t in ts;
        }
      }
    }
    forall t, x
      ensures Freq(index', t, x) == Occ(docs', t, x)
    {
      assert Freq(index, t, x) == Occ(docs, t, x);
    }
  }

  /** Removing a described document keeps the invariant and leaves no posting of it behind. */
  lemma RemoveKeepsValid(index: Index, index': Index, docs: Docs, id: string)
    requires Valid(index, docs) && id in docs
    requires Removed(index, index', id, docs[id])
    ensures Valid(index', docs - {id})
    ensures forall t :: !Posted(index', t, id)
  {
    var docs' := docs - {id};
    var ts := docs[id];
    forall t | t in index'
      ensures index'[t].term == t && |index'[t].bookmarks| > 0
      ensures forall x :: x in index'[t].bookmarks ==> index'[t].bookmarks[x] > 0
    {
      if t in ts {
        var x :| x in index[t].bookmarks && x != id;
        assert Posted(index', t, x);
      } else {
        var x :| x in index[t].bookmarks;
        assert Posted(index', t, x);
      }
      forall x | x in index'[t].bookmarks
        ensures index'[t].bookmarks[x] > 0
      {
        assert Posted(index', t, x) && Posted(index, t, x);
        assert Freq(index', t, x) == Freq(index, t, x);
      }
    }
    forall t, x
      ensures Freq(index', t, x) == Occ(docs', t, x)
    {
      assert Freq(index, t, x) == Occ(docs, t, x);
      if x == id && t !in ts {
        assert multiset(ts)[t] == 0;
      }
    }
    forall t
      ensures !Posted(index', t, id)
    {
      ValidPosted(index, docs, t, id);
    }
  }

  /**
   * One step of `addBookmark`'s loop: the entry of `t` (created empty when
   * missing) gets the frequency of `id` raised by one.
   */
  lemma AddedStep(i0: Index, i1: Index, i2: Index, id: string, ts: seq<string>, t: string)
    requires Added(i0, i1, id, ts)
    requires var e := if t in i1 then i1[t] else IndexedTerm(t, map[]);
      i2 == i1[t := IndexedTerm(e.term, e.bookmarks[id := Freq(i1, t, id) + 1])]
    ensures Added(i0, i2, id, ts + [t])
  {
    forall u, x
      ensures Posted(i2, u, x) <==> Posted(i0, u, x) || (x == id && u in ts + [t])
      ensures Freq(i2, u, x) == Freq(i0, u, x) + if x == id then multiset(ts + [t])[u] else 0
    {
      AddedPostingAt(i0, i1, i2, id, ts, t, u, x);
    }
  }

  /** The posting of `x` under `u` after one step of `addBookmark`'s loop. */
  lemma AddedPostingAt(i0: Index, i1: Index, i2: Index, id: string, ts: seq<string>, t: string, u: string, x: string)
    requires Posted(i1, u, x) <==> Posted(i0, u, x) || (x == id && u in ts)
    requires Freq(i1, u, x) == Freq(i0, u, x) + if x == id then multiset(ts)[u] else 0
    requires var e := if t in i1 then i1[t] else IndexedTerm(t, map[]);
      i2 == i1[t := IndexedTerm(e.term, e.bookmarks[id := Freq(i1, t, id) + 1])]
    ensures Posted(i2, u, x) <==> Posted(i0, u, x) || (x == id && u in ts + [t])
    ensures Freq(i2, u, x) == Freq(i0, u, x) + if x == id then multiset(ts + [t])[u] else 0
  {
    assert u in ts + [t] <==> u in ts || u == t;
    assert multiset(ts + [t]) == multiset(ts) + multiset{t};
    if u != t {
      assert Posted(i2, u, x) == Posted(i1, u, x);
      assert Freq(i2, u, x) == Freq(i1, u, x);
    } else if x != id {
      assert Posted(i2, u, x) == Posted(i1, u, x);
      assert Freq(i2, u, x) == Freq(i1, u, x);
    } else {
      assert Posted(i2, u, x);
      assert Freq(i2, u, x) == Freq(i1, u, x) + 1;
    }
  }

  /** The update one step of `removeBookmark`'s loop makes to the entry of `t`. */
  ghost predicate RemoveStepUpdate(i1: Index, i2: Index, id: string, t: string) {
    && (t !in i1 ==> i2 == i1)
    && (t in i1 ==> var rest := i1[t].bookmarks - {id};
         i2 == if |rest| == 0 then i1 - {t} else i1[t := IndexedTerm(i1[t].term, rest)])
  }

  /**
   * One step of `removeBookmark`'s loop: when `t` has an entry, `id` leaves
   * its posting list, and the entry goes when the list is left empty.
   */
  lemma RemovedStep(i0: Index, i1: Index, i2: Index, id: string, ts: seq<string>, t: string)
    requires Removed(i0, i1, id, ts)
    requires RemoveStepUpdate(i1, i2, id, t)
    ensures Removed(i0, i2, id, ts + [t])
  {
    RemovedKeysStep(i0, i1, i2, id, ts, t);
    RemovedPostingsStep(i0, i1, i2, id, ts, t);
  }

  /** The terms kept by one step of `removeBookmark`'s loop. */
  lemma RemovedKeysStep(i0: Index, i1: Index, i2: Index, id: string, ts: seq<string>, t: string)
    requires Removed(i0, i1, id, ts)
    requires RemoveStepUpdate(i1, i2, id, t)
    ensures forall u :: u in i2 <==> u in i0 && !(u in ts + [t] && i0[u].bookmarks.Keys <= {id})
    ensures forall u :: u in i2 ==> i2[u].term == i0[u].term
  {
    var ts' := ts + [t];
    assert forall u :: u in ts' <==> u in ts || u == t;
    if t in i1 {
      var rest := i1[t].bookmarks - {id};
      assert rest.Keys == i0[t].bookmarks.Keys - {id} by {
        forall x
          ensures x in rest <==> x in i0[t].bookmarks && x != id
        {
          assert Posted(i1, t, x) <==> Posted(i0, t, x) && !(x == id && t in ts);
        }
      }
      assert |rest| == 0 <==> i0[t].bookmarks.Keys <= {id} by {
        if |rest| != 0 {
          var x :| x in rest;
        }
      }
    }
    forall u
      ensures u in i2 <==> u in i0 && !(u in ts' && i0[u].bookmarks.Keys <= {id})
    {
      assert u in i1 <==> u in i0 && !(u in ts && i0[u].bookmarks.Keys <= {id});
    }
  }

  /** The postings and frequencies after one step of `removeBookmark`'s loop. */
  lemma RemovedPostingsStep(i0: Index, i1: Index, i2: Index, id: string, ts: seq<string>, t: string)
    requires Removed(i0, i1, id, ts)
    requires RemoveStepUpdate(i1, i2, id, t)
    ensures forall u, x :: Posted(i2, u, x) <==> Posted(i0, u, x) && !(x == id && u in ts + [t])
    ensures forall u, x :: Freq(i2, u, x) == if x == id && u in ts + [t] then 0 else Freq(i0, u, x)
  {
    forall u, x
      ensures Posted(i2, u, x) <==> Posted(i0, u, x) && !(x == id && u in ts + [t])
      ensures Freq(i2, u, x) == if x == id && u in ts + [t] then 0 else Freq(i0, u, x)
    {
      RemovedPostingAt(i0, i1, i2, id, ts, t, u, x);
    }
  }

  /** The posting of `x` under `u` after one step of `removeBookmark`'s loop. */
  lemma RemovedPostingAt(i0: Index, i1: Index, i2: Index, id: string, ts: seq<string>, t: string, u: string, x: string)
    requires Posted(i1, u, x) <==> Posted(i0, u, x) && !(x == id && u in ts)
    requires Freq(i1, u, x) == if x == id && u in ts then 0 else Freq(i0, u, x)
    requires RemoveStepUpdate(i1, i2, id, t)
    ensures Posted(i2, u, x) <==> Posted(i0, u, x) && !(x == id && u in ts + [t])
    ensures Freq(i2, u, x) == if x == id && u in ts + [t] then 0 else Freq(i0, u, x)
  {
    assert u in ts + [t] <==> u in ts || u == t;
    if u != t || t !in i1 {
      assert Posted(i2, u, x) == Posted(i1, u, x);
      assert Freq(i2, u, x) == Freq(i1, u, x);
    } else if x != id {
      assert Posted(i2, u, x) == Posted(i1, u, x);
      assert Freq(i2, u, x) == Freq(i1, u, x);
    } else {
      assert !Posted(i2, u, x);
    }
  }

  /** `Added` fixes the new index completely: two indexes it admits are equal. */
  lemma AddedDetermines(index: Index, i1: Index, i2: Index, id: string, ts: seq<string>)
    requires Added(index, i1, id, ts) && Added(index, i2, id, ts)
    ensures i1 == i2
  {
    SameEntries(i1, i2);
  }

  /** `Removed` fixes the new index completely: two indexes it admits are equal. */
  lemma RemovedDetermines(index: Index, i1: Index, i2: Index, id: string, ts: seq<string>)
    requires Removed(index, i1, id, ts) && Removed(index, i2, id, ts)
    ensures i1 == i2
  {
    SameEntries(i1, i2);
  }

  /** Two indexes with the same terms, entry names, postings and frequencies are equal. */
  lemma SameEntries(i1: Index, i2: Index)
    requires forall t :: t in i1 <==> t in i2
    requires forall t :: t in i1 ==> i1[t].term == i2[t].term
    requires forall t, x :: Posted(i1, t, x) <==> Posted(i2, t, x)
    requires forall t, x :: Freq(i1, t, x) == Freq(i2, t, x)
    ensures i1 == i2
  {
    forall t | t in i1
      ensures i1[t] == i2[t]
    {
      forall x
        ensures x in i1[t].bookmarks <==> x in i2[t].bookmarks
      {
        assert Posted(i1, t, x) <==> Posted(i2, t, x);
      }
      forall x | x in i1[t].bookmarks
        ensures i1[t].bookmarks[x] == i2[t].bookmarks[x]
      {
        assert Freq(i1, t, x) == Freq(i2, t, x);
      }
      assert i1[t].bookmarks == i2[t].bookmarks;
    }
  }
}
