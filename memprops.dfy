/** What the operations of `BaseSearchEngine` (search/mod.go) guarantee, stated over
    the effect functions of MemSearch: the key maps stay inverse, an update gets a
    strictly larger index, a delete removes exactly the key's id and prunes no
    posting, and a search finds what was inserted and nothing that was deleted. */
module MemSearchProps {
  import opened Text
  import opened MemSearch

  /** The zero-valued engine is empty, has no key and keeps the invariant. */
  lemma EmptyStorageValid(key: string)
    ensures Valid(EmptyStorage) && Empty(EmptyStorage) && !HasKey(EmptyStorage, key)
  {
  }

  /** `InsertOrUpdate` on the key maps: the key gets `MaxIndex + 1`, larger than every
      id in use; an existing key loses its old id. */
  lemma InsertOrUpdateKeys(tools: Tools, d: Storage, key: string, content: string)
    requires Valid(d)
    ensures var d' := InsertOrUpdateOf(tools, d, key, content);
      var id := d.maxIndex + 1;
      d'.maxIndex == id && d'.keys == d.keys[key := id] && HasKey(d', key) &&
      d'.rkeys == (if key in d.keys then d.rkeys - {d.keys[key]} else d.rkeys)[id := key] &&
      (forall v :: v in d.rkeys ==> v < id) &&
      (key in d.keys ==> d.keys[key] < d'.keys[key])
  {
    forall v | v in d.rkeys
      ensures v < d.maxIndex + 1
    {
      assert d.keys[d.rkeys[v]] == v;
    }
  }

  /** `InsertOrUpdate` on the postings: every term of the indexed text has one and
      lists the new id; an updated key's old id leaves every posting; nothing else
      changes. */
  lemma InsertOrUpdatePostings(tools: Tools, d: Storage, key: string, content: string)
    ensures var d' := InsertOrUpdateOf(tools, d, key, content);
      var ts := Terms(tools.cutSearch(IndexedText(tools, d, key, content)));
      var id := d.maxIndex + 1;
      d'.index.Keys == d.index.Keys + ts &&
      forall t, v :: t in d'.index ==>
        (v in d'.index[t] <==>
          (t in d.index && v in d.index[t] && !(key in d.keys && v == d.keys[key])) || (t in ts && v == id))
  {
    var segments := tools.cutSearch(IndexedText(tools, d, key, content));
    DeleteEffect(d, key);
    InsertNewPostings(DeleteOf(d, key), key, segments);
  }

  lemma InsertNewPostings(d: Storage, key: string, segments: seq<string>)
    ensures var d' := InsertNew(d, key, segments);
      d'.index.Keys == d.index.Keys + Terms(segments) &&
      forall t, v :: t in d'.index ==>
        (v in d'.index[t] <==> (t in d.index && v in d.index[t]) || (t in Terms(segments) && v == d.maxIndex + 1))
  {
    AddPostingsMembers(d.index, Terms(segments), d.maxIndex + 1);
  }

  lemma AddPostingsMembers(index: map<string, set<int>>, ts: set<string>, id: int)
    ensures AddPostings(index, ts, id).Keys == index.Keys + ts
    ensures forall t, v :: t in AddPostings(index, ts, id) ==>
      (v in AddPostings(index, ts, id)[t] <==> (t in index && v in index[t]) || (t in ts && v == id))
  {
  }

  lemma DropPostingMembers(index: map<string, set<int>>, id: int)
    ensures DropPosting(index, id).Keys == index.Keys
    ensures forall t, v :: t in index ==> (v in DropPosting(index, id)[t] <==> v in index[t] && v != id)
  {
  }

  lemma ValidDelete(d: Storage, key: string)
    requires Valid(d)
    ensures Valid(DeleteOf(d, key))
  {
    if key in d.keys {
      var id := d.keys[key];
      var d' := DeleteOf(d, key);
      forall k | k in d'.keys
        ensures d'.keys[k] in d'.rkeys && d'.rkeys[d'.keys[k]] == k
      {
        assert d.rkeys[d.keys[k]] == k;
      }
      forall v | v in d'.rkeys
        ensures d'.rkeys[v] in d'.keys && d'.keys[d'.rkeys[v]] == v
      {
        assert d.keys[d.rkeys[v]] == v;
      }
    }
  }

  /** Every `InsertOrUpdate` keeps the invariant. */
  lemma ValidInsertOrUpdate(tools: Tools, d: Storage, key: string, content: string)
    requires Valid(d)
    ensures Valid(InsertOrUpdateOf(tools, d, key, content))
  {
    ValidDelete(d, key);
    var d1 := DeleteOf(d, key);
    var d' := InsertOrUpdateOf(tools, d, key, content);
    var id := d.maxIndex + 1;
    forall v | v in d1.rkeys
      ensures v < id
    {
      assert d1.keys[d1.rkeys[v]] == v;
    }
    forall k | k in d'.keys
      ensures 1 <= d'.keys[k] <= d'.maxIndex && d'.keys[k] in d'.rkeys && d'.rkeys[d'.keys[k]] == k
    {
      if k != key {
        assert d1.rkeys[d1.keys[k]] == k;
      }
    }
  }

  /** `Delete` of a present key: the key and its id go, its id leaves every posting,
      every term keeps its posting (so `IsEmpty` does not change), and `MaxIndex`
      stays; of an absent key: nothing changes. */
  lemma DeleteEffect(d: Storage, key: string)
    ensures key !in d.keys ==> DeleteOf(d, key) == d
    ensures var d' := DeleteOf(d, key);
      !HasKey(d', key) && d'.keys == d.keys - {key} && d'.maxIndex == d.maxIndex &&
      d'.index.Keys == d.index.Keys && Empty(d') == Empty(d) &&
      (key in d.keys ==>
         d.keys[key] !in d'.rkeys && forall t :: t in d'.index ==> d'.index[t] == d.index[t] - {d.keys[key]})
  {
  }

  /** Deleting a key right after inserting it gives the keys, reverse keys and
      postings back, except that each term the insertion created keeps an empty
      posting and `MaxIndex` has moved on. */
  lemma InsertThenDelete(d: Storage, key: string, segments: seq<string>)
    requires Valid(d) && key !in d.keys
    ensures var d2 := DeleteOf(InsertNew(d, key, segments), key);
      d2.keys == d.keys && d2.rkeys == d.rkeys && d2.maxIndex == d.maxIndex + 1 &&
      d2.index.Keys == d.index.Keys + Terms(segments) &&
      (forall t :: t in d2.index ==> d2.index[t] == if t in d.index then d.index[t] else {})
  {
    FreshId(d);
    DeleteAfterInsert(d, key, Terms(segments));
  }

  /** The same, for the terms `ts` the insertion posts. */
  lemma DeleteAfterInsert(d: Storage, key: string, ts: set<string>)
    requires key !in d.keys && d.maxIndex + 1 !in d.rkeys
    requires forall t :: t in d.index ==> d.maxIndex + 1 !in d.index[t]
    ensures var id := d.maxIndex + 1;
      var d2 := DeleteOf(Storage(d.keys[key := id], d.rkeys[id := key], AddPostings(d.index, ts, id), id), key);
      d2.keys == d.keys && d2.rkeys == d.rkeys && d2.maxIndex == d.maxIndex + 1 &&
      d2.index.Keys == d.index.Keys + ts &&
      (forall t :: t in d2.index ==> d2.index[t] == if t in d.index then d.index[t] else {})
  {
    var id := d.maxIndex + 1;
    AddThenDrop(d.index, ts, id);
    KeysBack(d.keys, d.rkeys, key, id);
  }

  /** The next id is not in use. */
  lemma FreshId(d: Storage)
    requires Valid(d)
    ensures d.maxIndex + 1 !in d.rkeys
    ensures forall t :: t in d.index ==> d.maxIndex + 1 !in d.index[t]
  {
    forall v | v in d.rkeys
      ensures v <= d.maxIndex
    {
      assert d.keys[d.rkeys[v]] == v;
    }
  }

  lemma AddThenDrop(index: map<string, set<int>>, ts: set<string>, id: int)
    requires forall t :: t in index ==> id !in index[t]
    ensures var p := DropPosting(AddPostings(index, ts, id), id);
      p.Keys == index.Keys + ts && forall t :: t in p ==> p[t] == if t in index then index[t] else {}
  {
    var p := DropPosting(AddPostings(index, ts, id), id);
    forall t | t in p
      ensures p[t] == if t in index then index[t] else {}
    {
    }
  }

  lemma KeysBack(keys: map<string, int>, rkeys: map<int, string>, key: string, id: int)
    requires key !in keys && id !in rkeys
    ensures keys[key := id] - {key} == keys && rkeys[id := key] - {id} == rkeys
  {
  }

  // ---- search ----

  /** A segment that is filtered out or has no posting does not change what a query
      selects: unknown terms are skipped rather than matching nothing. */
  lemma UnknownTermIgnored(d: Storage, ks: seq<string>, s: string)
    requires !Kept(TermOf(s)) || TermOf(s) !in d.index
    ensures Selected(d, ks + [s]) == Selected(d, ks)
    ensures forall x :: Matches(d, ks + [s], x) <==> Matches(d, ks, x)
  {
    assert (ks + [s])[..|ks|] == ks;
  }

  /** A query whose segments are all filtered out finds nothing (rather than listing
      every key, as a query without segments does). */
  lemma {:induction false} FilteredQueryFindsNothing(d: Storage, ks: seq<string>)
    requires forall i :: 0 <= i < |ks| ==> !Kept(TermOf(ks[i]))
    ensures Selected(d, ks) == []
    ensures forall x :: !Matches(d, ks, x)
  {
    if ks != [] {
      var init := ks[..|ks| - 1];
      assert forall i :: 0 <= i < |init| ==> init[i] == ks[i];
      FilteredQueryFindsNothing(d, init);
    }
  }

  /** When a posting lists `id` for every kept query term that has a posting, every
      selected posting lists `id`. */
  lemma {:induction false} SelectedContain(d: Storage, ks: seq<string>, id: int)
    requires forall i :: 0 <= i < |ks| && Kept(TermOf(ks[i])) && TermOf(ks[i]) in d.index ==> id in d.index[TermOf(ks[i])]
    ensures forall j :: 0 <= j < |Selected(d, ks)| ==> id in Selected(d, ks)[j]
  {
    if ks != [] {
      var init := ks[..|ks| - 1];
      assert forall i :: 0 <= i < |init| ==> init[i] == ks[i];
      SelectedContain(d, init, id);
    }
  }

  /** A kept query term with a posting selects at least one posting. */
  lemma {:induction false} SelectedNonEmpty(d: Storage, ks: seq<string>, i: int)
    requires 0 <= i < |ks| && Kept(TermOf(ks[i])) && TermOf(ks[i]) in d.index
    ensures |Selected(d, ks)| > 0
  {
    var init := ks[..|ks| - 1];
    if i < |ks| - 1 {
      assert init[i] == ks[i];
      SelectedNonEmpty(d, init, i);
    }
  }

  /** Whatever a selected posting lists, some posting lists. */
  lemma {:induction false} SelectedWithin(d: Storage, ks: seq<string>, s: set<int>)
    requires forall t, v :: t in d.index && v in d.index[t] ==> v in s
    ensures forall j, v :: 0 <= j < |Selected(d, ks)| && v in Selected(d, ks)[j] ==> v in s
  {
    if ks != [] {
      SelectedWithin(d, ks[..|ks| - 1], s);
    }
  }

  /** After `InsertOrUpdate(key, content)`, a query with at least one kept segment, all
      of whose kept segments are terms of the indexed text, finds the key. */
  lemma InsertedIsFound(tools: Tools, d: Storage, key: string, content: string, ks: seq<string>, i: int)
    requires Valid(d)
    requires 0 <= i < |ks| && Kept(TermOf(ks[i]))
    requires forall j :: 0 <= j < |ks| && Kept(TermOf(ks[j])) ==>
      TermOf(ks[j]) in Terms(tools.cutSearch(IndexedText(tools, d, key, content)))
    ensures var d' := InsertOrUpdateOf(tools, d, key, content);
      Matches(d', ks, d'.keys[key]) && KeyOf(d', d'.keys[key]) == key
  {
    var d' := InsertOrUpdateOf(tools, d, key, content);
    var ts := Terms(tools.cutSearch(IndexedText(tools, d, key, content)));
    var id := d.maxIndex + 1;
    InsertOrUpdateKeys(tools, d, key, content);
    PostedEverywhere(tools, d, key, content);
    FoundWherePosted(d', ks, i, id, ts);
  }

  lemma PostedEverywhere(tools: Tools, d: Storage, key: string, content: string)
    ensures var d' := InsertOrUpdateOf(tools, d, key, content);
      forall t :: t in Terms(tools.cutSearch(IndexedText(tools, d, key, content))) ==>
        t in d'.index && d.maxIndex + 1 in d'.index[t]
  {
    InsertOrUpdatePostings(tools, d, key, content);
  }

  /** An id posted under every term of `ts` is found by a query whose kept segments are
      all in `ts`, if it has one. */
  lemma FoundWherePosted(d: Storage, ks: seq<string>, i: int, id: int, ts: set<string>)
    requires forall t :: t in ts ==> t in d.index && id in d.index[t]
    requires forall j :: 0 <= j < |ks| && Kept(TermOf(ks[j])) ==> TermOf(ks[j]) in ts
    requires 0 <= i < |ks| && Kept(TermOf(ks[i]))
    ensures Matches(d, ks, id)
  {
    SelectedContain(d, ks, id);
    SelectedNonEmpty(d, ks, i);
  }

  /** After `Delete(key)`, no query finds the key's old id, nor any id of that key. */
  lemma DeletedNotFound(d: Storage, key: string, ks: seq<string>)
    requires Valid(d) && key in d.keys
    ensures var d' := DeleteOf(d, key);
      !Matches(d', ks, d.keys[key]) && forall x :: Matches(d', ks, x) ==> KeyOf(d', x) != key
  {
    var d' := DeleteOf(d, key);
    ValidDelete(d, key);
    SelectedWithin(d', ks, d'.rkeys.Keys);
    forall x | Matches(d', ks, x)
      ensures KeyOf(d', x) != key
    {
      assert x in Selected(d', ks)[0];
    }
    if Matches(d', ks, d.keys[key]) {
      assert d.keys[key] in Selected(d', ks)[0];
    }
  }
}
