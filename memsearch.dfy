/** The in-memory index `BaseSearchEngine` of search/mod.go: a `Storage` record with a
    key -> id map, its reverse, a term -> set-of-ids posting map and a counter.

    A nil Go map reads like an empty one, and writes only happen after
    `InsertOrUpdate` has made the three maps, so nil and empty maps are both `map[]`
    here. The segmenter and `strings.ToLower` are parameters (`Tools`). */
module MemSearch {
  import opened Seqs
  import opened Text
  import opened Intersect

  /** The characters of the `trim` cutset of search/mod.go:25 (it has neither the digits nor the
      fullwidth tilde of the file-backed engine's cutset). */
  const Cutset: set<char> := {
    '"', '\n', '\t', ' ', '`', '|', '~', '!', '@', '#', '$', '%', '^', '&', '*', '(',
    ')', '_', '-', '+', '=', ',', '.', '<', '>', '/', '?', '\'', ':', ';', '\U{ff1b}',
    '\U{ff1a}', '[', ']', '{', '}', '\\', '\U{ff01}', '\U{ff0c}', '\U{ffe5}', '\U{2026}',
    '\U{ff08}', '\U{ff09}', '\U{2014}', '\U{300a}', '\U{300b}', '\U{3002}', '\U{ff1f}',
    '\U{3010}', '\U{3011}', '\U{3001}', '\U{201d}', '\U{201c}'}

  /** The `skip` set of search/mod.go:15-23. */
  const Skip: set<string> := {" ", ",", ".", "#", "`", "\n", "\r"}

  /** The form in which a segment is stored and looked up. */
  function TermOf(s: string): string {
    Trim(s, Cutset)
  }

  /** A trimmed segment that is neither skipped nor empty. */
  predicate Kept(k: string) {
    k != "" && k !in Skip
  }

  /** The terms a list of segments contributes, trimmed. */
  function Terms(segments: seq<string>): set<string> {
    set i | 0 <= i < |segments| && Kept(TermOf(segments[i])) :: TermOf(segments[i])
  }

  /** The collaborators: `strings.ToLower` and `seg.CutSearch(_, true)`. */
  datatype Tools = Tools(toLower: string -> string, cutSearch: string -> seq<string>)

  /** `Storage`: `Keys`, `RKeys`, `Index` and `MaxIndex`. */
  datatype Storage = Storage(keys: map<string, int>, rkeys: map<int, string>, index: map<string, set<int>>, maxIndex: int)

  /** The zero value of `Storage`. */
  const EmptyStorage := Storage(map[], map[], map[], 0)

  /** What every operation keeps: `Keys` and `RKeys` are inverse, every id lies in
      1..MaxIndex, and every posted id belongs to a key. */
  ghost predicate Valid(d: Storage) {
    d.maxIndex >= 0 &&
    (forall k :: k in d.keys ==> 1 <= d.keys[k] <= d.maxIndex && d.keys[k] in d.rkeys && d.rkeys[d.keys[k]] == k) &&
    (forall v :: v in d.rkeys ==> d.rkeys[v] in d.keys && d.keys[d.rkeys[v]] == v) &&
    (forall t, v :: t in d.index && v in d.index[t] ==> v in d.rkeys)
  }

  /** `IsEmpty`: no term in `Index`. */
  predicate Empty(d: Storage) {
    |d.index| == 0
  }

  /** `KeyExists`. */
  predicate HasKey(d: Storage, key: string) {
    key in d.keys
  }

  /** `Index` after `id` is added to the postings of the terms `ts`, a new
      posting being made for a term without one. */
  function AddPostings(index: map<string, set<int>>, ts: set<string>, id: int): map<string, set<int>> {
    map k | k in index.Keys + ts :: (if k in index then index[k] else {}) + (if k in ts then {id} else {})
  }

  /** `Index` after `id` is removed from every posting; no term is dropped. */
  function DropPosting(index: map<string, set<int>>, id: int): map<string, set<int>> {
    map k | k in index :: index[k] - {id}
  }

  /** The insertion branch (lines 195-213): the next index, both key maps, and the
      postings of every term of `segments`. */
  function InsertNew(d: Storage, key: string, segments: seq<string>): Storage {
    var id := d.maxIndex + 1;
    Storage(d.keys[key := id], d.rkeys[id := key], AddPostings(d.index, Terms(segments), id), id)
  }

  /** `Delete(key)`. */
  function DeleteOf(d: Storage, key: string): Storage {
    if key in d.keys then
      var id := d.keys[key];
      Storage(d.keys - {key}, d.rkeys - {id}, DropPosting(d.index, id), d.maxIndex)
    else d
  }

  /** The text `InsertOrUpdate(key, content)` finally segments: an existing key is
      deleted and re-inserted with the already lowered text, which is lowered again
      behind the key. */
  function IndexedText(tools: Tools, d: Storage, key: string, content: string): string {
    var lowered := tools.toLower(key + content);
    if key in d.keys then tools.toLower(key + lowered) else lowered
  }

  function InsertOrUpdateOf(tools: Tools, d: Storage, key: string, content: string): Storage {
    InsertNew(DeleteOf(d, key), key, tools.cutSearch(IndexedText(tools, d, key, content)))
  }

  /** The posting sets a query's segments select, in order: one for each segment
      whose trimmed form is kept and has a posting. */
  function Selected(d: Storage, ks: seq<string>): seq<set<int>> {
    if ks == [] then []
    else
      var rest := Selected(d, ks[..|ks| - 1]);
      var k := TermOf(ks[|ks| - 1]);
      if Kept(k) && k in d.index then rest + [d.index[k]] else rest
  }

  /** An id the non-empty query `ks` finds: it is in every selected posting, and at
      least one posting is selected. */
  ghost predicate Matches(d: Storage, ks: seq<string>, x: int) {
    var s := Selected(d, ks);
    |s| > 0 && forall j :: 0 <= j < |s| ==> x in s[j]
  }

  /** `Dao.RKeys[v]`, the empty string for a missing id. */
  function KeyOf(d: Storage, v: int): string {
    if v in d.rkeys then d.rkeys[v] else ""
  }

  /** The loop of `Search` over the query's segments (lines 156-168): the elements of
      each selected posting, in the order `getKeys` gives them. */
  method CollectPostings(d: Storage, ks: seq<string>) returns (a: seq<seq<int>>)
    ensures Lists(a, Selected(d, ks))
  {
    a := [];
    ghost var sel: seq<set<int>> := [];
    assert ks[..0] == [];
    for i := 0 to |ks|
      invariant sel == Selected(d, ks[..i])
      invariant Lists(a, sel)
    {
      var k := Trim(ks[i], Cutset);
      SelectedSnoc(d, ks, i, k);
      if k !in Skip && k != "" && k in d.index {
        var b := Elements(d.index[k]);
        ListsSnoc(a, sel, b, d.index[k]);
        a := a + [b];
        sel := sel + [d.index[k]];
      }
    }
    assert ks[..|ks|] == ks;
  }

  /** Each slice has the elements of the set beside it. */
  ghost predicate Lists(a: seq<seq<int>>, sel: seq<set<int>>) {
    |a| == |sel| && forall j :: 0 <= j < |a| ==> forall x :: x in a[j] <==> x in sel[j]
  }

  lemma ListsSnoc(a: seq<seq<int>>, sel: seq<set<int>>, b: seq<int>, p: set<int>)
    requires Lists(a, sel) && forall x :: x in b <==> x in p
    ensures Lists(a + [b], sel + [p])
  {
  }

  /** The slices handed to `intersection` have the selected postings' elements, so
      what it keeps is what the query matches. */
  lemma IntersectionMatches(d: Storage, ks: seq<string>, a: seq<seq<int>>)
    requires Lists(a, Selected(d, ks))
    ensures forall x :: (|a| > 0 && InAll(a, x)) <==> Matches(d, ks, x)
  {
  }

  class BaseSearchEngine {
    const tools: Tools
    /** `Dao`. */
    var dao: Storage

    /** A zero-valued engine. */
    constructor(tools: Tools)
      ensures this.tools == tools && dao == EmptyStorage
    {
      this.tools := tools;
      dao := EmptyStorage;
    }

    /** `IsEmpty`. */
    method IsEmpty() returns (b: bool)
      ensures b == Empty(dao)
    {
      b := |dao.index| == 0;
    }

    /** `KeyExists(key)`. */
    method KeyExists(key: string) returns (b: bool)
      ensures b == HasKey(dao, key)
    {
      b := key in dao.keys;
    }

    /** `InsertOrUpdate(key, content)`. */
    method InsertOrUpdate(key: string, content: string)
      modifies this
      ensures dao == InsertOrUpdateOf(tools, old(dao), key, content)
      decreases if key in dao.keys then 1 else 0
    {
      var lowered := tools.toLower(key + content);
      var segments := tools.cutSearch(lowered);
      if key !in dao.keys {
        ghost var d0 := dao;
        AddPostingsNone(d0.index, d0.maxIndex + 1);
        dao := dao.(maxIndex := dao.maxIndex + 1);
        var index := dao.maxIndex;
        dao := dao.(keys := dao.keys[key := index], rkeys := dao.rkeys[index := key]);
        assert segments[..0] == [];
        assert Terms(segments[..0]) == {};
        for i := 0 to |segments|
          invariant dao.keys == d0.keys[key := index] && dao.rkeys == d0.rkeys[index := key] && dao.maxIndex == index
          invariant dao.index == AddPostings(d0.index, Terms(segments[..i]), index)
        {
          assert segments[..i + 1] == segments[..i] + [segments[i]];
          var k := Trim(segments[i], Cutset);
          TermsSnoc(segments[..i], segments[i]);
          AddPostingsStep(d0.index, Terms(segments[..i]), Terms(segments[..i + 1]), k, index);
          if k !in Skip && k != "" {
            // a term without a posting gets a new, empty one first
            var posting := if k in dao.index then dao.index[k] else {};
            dao := dao.(index := dao.index[k := posting + {index}]);
          }
          assert dao.index == AddPostings(d0.index, Terms(segments[..i + 1]), index);
        }
        assert segments[..|segments|] == segments;
        assert dao.index == AddPostings(d0.index, Terms(segments), index);
        assert dao == Storage(d0.keys[key := index], d0.rkeys[index := key], AddPostings(d0.index, Terms(segments), index), index);
        assert dao == InsertNew(d0, key, segments);
        InsertBranch(tools, d0, key, content);
        assert dao == InsertOrUpdateOf(tools, d0, key, content);
      } else {
        ghost var d0 := dao;
        Delete(key);
        UpdateBranch(tools, d0, key, content);
        InsertOrUpdate(key, lowered);
        assert dao == InsertOrUpdateOf(tools, d0, key, content);
      }
    }

    /** `Delete(key)`. */
    method Delete(key: string)
      modifies this
      ensures dao == DeleteOf(old(dao), key)
    {
      if key in dao.keys {
        var index := dao.keys[key];
        ghost var d0 := dao;
        var pending := dao.index.Keys;
        while pending != {}
          invariant pending <= d0.index.Keys
          invariant dao.index.Keys == d0.index.Keys
          invariant dao.keys == d0.keys && dao.rkeys == d0.rkeys && dao.maxIndex == d0.maxIndex
          invariant forall k :: k in dao.index ==> dao.index[k] == if k in pending then d0.index[k] else d0.index[k] - {index}
          decreases |pending|
        {
          if forall x :: x !in pending { assert false; }
          var k :| k in pending;
          dao := dao.(index := dao.index[k := dao.index[k] - {index}]);
          pending := pending - {k};
        }
        assert dao.index == DropPosting(d0.index, index);
        dao := dao.(keys := dao.keys - {key}, rkeys := dao.rkeys - {index});
      }
    }

    /** `Search(keyword)`; `ids` are the found ids in the order of `res`. */
    method Search(keyword: string) returns (res: seq<string>, ghost ids: seq<int>)
      ensures var ks := tools.cutSearch(tools.toLower(keyword));
        (|ks| == 0 ==> Distinct(res) && forall t :: t in res <==> t in dao.keys) &&
        (|ks| > 0 ==>
          Distinct(ids) && (forall x :: x in ids <==> Matches(dao, ks, x)) &&
          |res| == |ids| && forall i :: 0 <= i < |res| ==> res[i] == KeyOf(dao, ids[i]))
    {
      var ks := tools.cutSearch(tools.toLower(keyword));
      if |ks| == 0 {
        res := Elements(dao.keys.Keys);
        ids := [];
        return;
      }
      var a := CollectPostings(dao, ks);
      var c := Intersection(a);
      IntersectionMatches(dao, ks, a);
      res := [];
      for i := 0 to |c|
        invariant |res| == i && forall j :: 0 <= j < i ==> res[j] == KeyOf(dao, c[j])
      {
        res := res + [KeyOf(dao, c[i])];
      }
      ids := c;
    }
  }

  /** One more segment adds its trimmed form, when kept, to the terms. */
  lemma TermsSnoc(segments: seq<string>, s: string)
    ensures Terms(segments + [s]) == Terms(segments) + (if Kept(TermOf(s)) then {TermOf(s)} else {})
  {
    var ts, ts' := Terms(segments), Terms(segments + [s]);
    forall t | t in ts
      ensures t in ts'
    {
      var i :| 0 <= i < |segments| && Kept(TermOf(segments[i])) && TermOf(segments[i]) == t;
      assert (segments + [s])[i] == segments[i];
    }
    forall t | t in ts'
      ensures t in ts || t == TermOf(s)
    {
      var i :| 0 <= i < |segments| + 1 && Kept(TermOf((segments + [s])[i])) && TermOf((segments + [s])[i]) == t;
      if i < |segments| {
        assert (segments + [s])[i] == segments[i];
      }
    }
    if Kept(TermOf(s)) {
      assert (segments + [s])[|segments|] == s;
    }
  }

  /** Posting one more term. */
  lemma AddPostingsInsert(index: map<string, set<int>>, ts: set<string>, k: string, id: int)
    ensures var p := AddPostings(index, ts, id);
      AddPostings(index, ts + {k}, id) == p[k := (if k in p then p[k] else {}) + {id}]
  {
    var p := AddPostings(index, ts, id);
    var q := AddPostings(index, ts + {k}, id);
    assert q.Keys == p.Keys + {k};
    forall t | t in q
      ensures q[t] == p[k := (if k in p then p[k] else {}) + {id}][t]
    {
    }
  }

  /** Posting the terms `ts` and one more, `k`, when it is kept. */
  lemma AddPostingsStep(index: map<string, set<int>>, ts: set<string>, ts': set<string>, k: string, id: int)
    requires ts' == ts + (if Kept(k) then {k} else {})
    ensures var p := AddPostings(index, ts, id);
      AddPostings(index, ts', id) == if Kept(k) then p[k := (if k in p then p[k] else {}) + {id}] else p
  {
    if Kept(k) {
      AddPostingsInsert(index, ts, k, id);
    }
  }

  lemma AddPostingsNone(index: map<string, set<int>>, id: int)
    ensures AddPostings(index, {}, id) == index
  {
    var p := AddPostings(index, {}, id);
    assert p.Keys == index.Keys;
    forall t | t in p
      ensures p[t] == index[t]
    {
    }
  }

  /** The postings selected by one more segment of the query. */
  lemma SelectedSnoc(d: Storage, ks: seq<string>, i: nat, k: string)
    requires i < |ks| && k == TermOf(ks[i])
    ensures Selected(d, ks[..i + 1]) == Selected(d, ks[..i]) + if Kept(k) && k in d.index then [d.index[k]] else []
  {
    assert ks[..i + 1][..i] == ks[..i];
  }

  /** The insertion branch of `InsertOrUpdateOf`. */
  lemma InsertBranch(tools: Tools, d: Storage, key: string, content: string)
    requires key !in d.keys
    ensures InsertOrUpdateOf(tools, d, key, content) == InsertNew(d, key, tools.cutSearch(tools.toLower(key + content)))
  {
  }

  /** The update branch: after the deletion the key is absent, and inserting the lowered
      text then is what `InsertOrUpdateOf` gives. */
  lemma UpdateBranch(tools: Tools, d: Storage, key: string, content: string)
    requires key in d.keys
    ensures key !in DeleteOf(d, key).keys
    ensures InsertOrUpdateOf(tools, DeleteOf(d, key), key, tools.toLower(key + content)) == InsertOrUpdateOf(tools, d, key, content)
  {
  }
}
