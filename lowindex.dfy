/** The invariant that ties the posting shards of the file-backed index
    (webmark-backend/search/mod.go) to its keyword files and its record: every shard is
    written entry by entry, every id a shard lists has a keyword file naming a chunk with
    that shard's digest, and every keyword file belongs to an id with a title. `Init`
    establishes it, and `getMetainfo`, `Delete` and `InsertOrUpdate` keep it, so that a
    deleted or updated document's old id disappears from every posting list. */
module LowSearchIndex {
  import opened Seqs
  import opened Text
  import opened Wrappers
  import opened Disks
  import opened SearchPaths
  import opened Postings
  import opened LowSearchSpec
  import opened LowSearchProps

  /** The ids a shard lists (none for a missing shard). */
  function Ids(o: Option<seq<byte>>): seq<nat> {
    Decode(OrEmpty(o))
  }

  /** A shard is the encoding of the ids it lists, as appending entry by entry leaves it. */
  predicate Encoded(o: Option<seq<byte>>) {
    Encode(Ids(o)) == OrEmpty(o)
  }

  /** The keyword file `o` exists and has a chunk whose digest is `h`. */
  predicate Lists(env: Env, o: Option<seq<byte>>, h: Digest) {
    o.Some? && h in ChunkDigests(env, Split(o.value, 0))
  }

  /** The shards, keyword files and record `m` of disk `d` agree. */
  ghost predicate Indexed(env: Env, d: Disk, m: MetaRecord) {
    (forall n: nat :: FileAt(d, KeywordFile(env.base, n)).Some? ==> n in m.idTitle) &&
    (forall h: Digest :: Encoded(ShardAt(env, d, h))) &&
    (forall h: Digest, n: nat :: n in Ids(ShardAt(env, d, h)) ==> Lists(env, FileAt(d, KeywordFile(env.base, n)), h))
  }

  /** The state of an index that only its own operations have touched since `Init`. */
  ghost predicate Consistent(env: Env, st: Store) {
    Layout(env, st.disk) && WellFormed(CurrentMeta(env, st)) && Indexed(env, st.disk, CurrentMeta(env, st))
  }

  /** The ids `Search` reads for a term are the ids its shard lists. */
  lemma ShardIdsAt(env: Env, d: Disk, k: string)
    ensures ShardIds(env, d, k) == Ids(ShardAt(env, d, env.sha1(Utf8(k))))
  {
  }

  // ---- one shard ----

  /** Appending an entry to an encoded shard lists one more id, at the end. */
  lemma AppendEncoded(o: Option<seq<byte>>, id: nat)
    requires Encoded(o)
    ensures var o' := Some(OrEmpty(o) + (DecimalBytes(id) + [0]));
      Encoded(o') && Ids(o') == Ids(o) + [id]
  {
    var ids := Ids(o);
    EncodeSnoc(ids, id);
    assert OrEmpty(o) + (DecimalBytes(id) + [0]) == Encode(ids + [id]);
  }

  /** `deleteIndex` on an encoded shard lists the same ids but `id`, and stays encoded. */
  lemma FilteredEncoded(o: Option<seq<byte>>, id: nat)
    requires Encoded(o)
    ensures Encoded(Filtered(o, id)) && Ids(Filtered(o, id)) == Without(Ids(o), id)
  {
    if o.Some? {
      var ids, w := Ids(o), Without(Ids(o), id);
      assert Filter(o.value, DecimalBytes(id)) == Encode(w) by {
        FilterEncode(ids, id);
      }
      assert Decode(Encode(w)) == w by {
        DecodeEncode(w);
      }
      assert Decode([]) == [];
    }
  }

  // ---- the insertion loop ----

  /** The posting loop of an insertion, for digests that may repeat: only the shards of
      `hs` change, and no keyword file and not meta.json. */
  lemma {:induction false} AppendAllFrame(env: Env, d: Disk, hs: seq<Digest>, dc: seq<byte>)
    requires Layout(env, d)
    ensures var r := AppendAll(env, d, hs, dc);
      Layout(env, r) &&
      (forall h: Digest :: h !in hs ==> ShardAt(env, r, h) == ShardAt(env, d, h)) &&
      (forall n: nat :: FileAt(r, KeywordFile(env.base, n)) == FileAt(d, KeywordFile(env.base, n))) &&
      FileAt(r, MetaPath(env.base)) == FileAt(d, MetaPath(env.base))
  {
    if hs != [] {
      var init, last := hs[..|hs| - 1], hs[|hs| - 1];
      AppendAllFrame(env, d, init, dc);
      AppendPostingEffect(env, AppendAll(env, d, init, dc), last, dc);
    }
  }

  /** The posting loop of an insertion of `id`, for digests that may repeat: every shard
      stays encoded, the shard of every digest in `hs` lists `id`, and no shard lists
      anything new but `id`. */
  lemma {:induction false} AppendAllKeeps(env: Env, d: Disk, hs: seq<Digest>, id: nat)
    requires Layout(env, d) && forall h: Digest :: Encoded(ShardAt(env, d, h))
    ensures var r := AppendAll(env, d, hs, DecimalBytes(id) + [0]);
      (forall h: Digest :: Encoded(ShardAt(env, r, h))) &&
      (forall h: Digest :: h in hs ==> id in Ids(ShardAt(env, r, h))) &&
      (forall h: Digest, n: nat :: n in Ids(ShardAt(env, r, h)) ==> n in Ids(ShardAt(env, d, h)) || n == id)
  {
    var dc := DecimalBytes(id) + [0];
    if hs != [] {
      var init, last := hs[..|hs| - 1], hs[|hs| - 1];
      AppendAllKeeps(env, d, init, id);
      AppendAllFrame(env, d, init, dc);
      var d1 := AppendAll(env, d, init, dc);
      AppendPostingEffect(env, d1, last, dc);
      AppendStep(env, d, d1, AppendPosting(env, d1, last, dc), init, last, id);
      assert AppendPosting(env, d1, last, dc) == AppendAll(env, d, hs, dc);
      forall h | h in hs
        ensures h in init || h == last
      {
        InInitOrLast(hs, h);
      }
    }
  }

  lemma InInitOrLast<T>(s: seq<T>, x: T)
    requires x in s
    ensures x in s[..|s| - 1] || x == s[|s| - 1]
  {
    var i :| 0 <= i < |s| && s[i] == x;
    if i < |s| - 1 {
      assert s[..|s| - 1][i] == x;
    }
  }

  /** One more digest `last` of the insertion loop, on the shards alone. */
  lemma AppendStep(env: Env, d: Disk, d1: Disk, r: Disk, init: seq<Digest>, last: Digest, id: nat)
    requires forall h: Digest :: Encoded(ShardAt(env, d1, h))
    requires forall h: Digest :: h in init ==> id in Ids(ShardAt(env, d1, h))
    requires forall h: Digest, n: nat :: n in Ids(ShardAt(env, d1, h)) ==> n in Ids(ShardAt(env, d, h)) || n == id
    requires ShardAt(env, r, last) == Some(OrEmpty(ShardAt(env, d1, last)) + (DecimalBytes(id) + [0]))
    requires forall h: Digest :: h != last ==> ShardAt(env, r, h) == ShardAt(env, d1, h)
    ensures forall h: Digest :: Encoded(ShardAt(env, r, h))
    ensures forall h: Digest :: h in init || h == last ==> id in Ids(ShardAt(env, r, h))
    ensures forall h: Digest, n: nat :: n in Ids(ShardAt(env, r, h)) ==> n in Ids(ShardAt(env, d, h)) || n == id
  {
    AppendEncoded(ShardAt(env, d1, last), id);
    forall h: Digest
      ensures Encoded(ShardAt(env, r, h))
      ensures forall n: nat :: n in Ids(ShardAt(env, r, h)) ==> n in Ids(ShardAt(env, d, h)) || n == id
      ensures h in init || h == last ==> id in Ids(ShardAt(env, r, h))
    {
      if h != last {
        assert ShardAt(env, r, h) == ShardAt(env, d1, h);
      }
    }
  }

  /** What an insertion leaves, for shards that were all encoded: the record with the
      title, the keyword file of the new id, every other keyword file as it was, and the
      shards listing nothing new but the new id, which the shard of every term lists. */
  lemma InsertNewShards(env: Env, st: Store, title: string, order: seq<string>)
    requires Layout(env, st.disk) && st.cache.Some?
    requires forall h: Digest :: Encoded(ShardAt(env, st.disk, h))
    ensures var r, id := InsertNew(env, st, title, order), st.cache.value.maxid + 1;
      Layout(env, r.disk) && r.cache == Some(WithTitle(st.cache.value, title)) &&
      FileAt(r.disk, KeywordFile(env.base, id)) == Some(Terminated(TermTexts(order), 0)) &&
      (forall n: nat :: n != id ==> FileAt(r.disk, KeywordFile(env.base, n)) == FileAt(st.disk, KeywordFile(env.base, n))) &&
      (forall h: Digest :: Encoded(ShardAt(env, r.disk, h))) &&
      (forall h: Digest :: h in TermDigests(env, order) ==> id in Ids(ShardAt(env, r.disk, h))) &&
      (forall h: Digest, n: nat :: n in Ids(ShardAt(env, r.disk, h)) ==>
                                   n in Ids(ShardAt(env, st.disk, h)) || (n == id && h in TermDigests(env, order)))
  {
    var m, id := st.cache.value, st.cache.value.maxid + 1;
    var hs, dc := TermDigests(env, order), DecimalBytes(id) + [0];
    AppendAllFrame(env, st.disk, hs, dc);
    AppendAllKeeps(env, st.disk, hs, id);
    var d1 := AppendAll(env, st.disk, hs, dc);
    var c, mc := Terminated(TermTexts(order), 0), env.encodeMeta(WithTitle(m, title));
    KeywordAndMetaWrites(env, d1, id, c, mc);
    assert InsertNew(env, st, title, order) == Store(Write(Write(d1, KeywordFile(env.base, id), c), MetaPath(env.base), mc), Some(WithTitle(m, title)));
  }

  /** The invariant after an insertion of `id`, on the files alone: the new keyword file
      `c` names every digest `hs` whose shard gained `id`, and nothing else changed. */
  lemma InsertIndexed(env: Env, d: Disk, r: Disk, m: MetaRecord, m1: MetaRecord, id: nat, hs: seq<Digest>, c: seq<byte>)
    requires Indexed(env, d, m) && id !in m.idTitle && id in m1.idTitle
    requires forall n :: n in m.idTitle ==> n in m1.idTitle
    requires FileAt(r, KeywordFile(env.base, id)) == Some(c)
    requires forall h :: h in hs ==> h in ChunkDigests(env, Split(c, 0))
    requires forall n: nat :: n != id ==> FileAt(r, KeywordFile(env.base, n)) == FileAt(d, KeywordFile(env.base, n))
    requires forall h: Digest :: Encoded(ShardAt(env, r, h))
    requires forall h: Digest, n: nat :: n in Ids(ShardAt(env, r, h)) ==> n in Ids(ShardAt(env, d, h)) || (n == id && h in hs)
    ensures Indexed(env, r, m1)
  {
    forall n: nat | FileAt(r, KeywordFile(env.base, n)).Some?
      ensures n in m1.idTitle
    {
      if n != id {
        assert FileAt(d, KeywordFile(env.base, n)).Some?;
      }
    }
    forall h: Digest, n: nat | n in Ids(ShardAt(env, r, h))
      ensures Lists(env, FileAt(r, KeywordFile(env.base, n)), h)
    {
      if n in Ids(ShardAt(env, d, h)) {
        assert FileAt(d, KeywordFile(env.base, n)).Some?;
      }
    }
  }

  /** A new document keeps the invariant, provided no term holds the separator 0 of the
      keyword file (a term that does is split when the file is read back). */
  lemma InsertNewKeeps(env: Env, st: Store, title: string, order: seq<string>)
    requires Layout(env, st.disk) && st.cache.Some? && WellFormed(st.cache.value)
    requires Indexed(env, st.disk, st.cache.value)
    requires title !in st.cache.value.titleId && NulFree(order)
    ensures Consistent(env, InsertNew(env, st, title, order))
  {
    var m, id := st.cache.value, st.cache.value.maxid + 1;
    var r := InsertNew(env, st, title, order);
    InsertNewShards(env, st, title, order);
    WithTitleMeta(m, title);
    KeywordPieces(env, order);
    InsertIndexed(env, st.disk, r.disk, m, WithTitle(m, title), id, TermDigests(env, order), Terminated(TermTexts(order), 0));
    assert CurrentMeta(env, r) == WithTitle(m, title);
  }

  // ---- deletion ----

  /** The invariant after a deletion of `id`, on the files alone: the keyword file of
      `id` is gone, every shard it named is filtered, and nothing else changed. */
  lemma DeleteIndexed(env: Env, d: Disk, r: Disk, m: MetaRecord, m1: MetaRecord, id: nat)
    requires Indexed(env, d, m)
    requires forall n :: n in m.idTitle && n != id ==> n in m1.idTitle
    requires FileAt(r, KeywordFile(env.base, id)) == None
    requires forall n: nat :: n != id ==> FileAt(r, KeywordFile(env.base, n)) == FileAt(d, KeywordFile(env.base, n))
    requires forall h: Digest :: Lists(env, FileAt(d, KeywordFile(env.base, id)), h) ==> ShardAt(env, r, h) == Filtered(ShardAt(env, d, h), id)
    requires forall h: Digest :: !Lists(env, FileAt(d, KeywordFile(env.base, id)), h) ==> ShardAt(env, r, h) == ShardAt(env, d, h)
    ensures Indexed(env, r, m1)
    ensures forall h: Digest :: id !in Ids(ShardAt(env, r, h))
  {
    forall n: nat | FileAt(r, KeywordFile(env.base, n)).Some?
      ensures n in m1.idTitle
    {
      assert FileAt(d, KeywordFile(env.base, n)).Some?;
    }
    DeleteShards(env, d, r, m, id);
    forall h: Digest, n: nat | n in Ids(ShardAt(env, r, h))
      ensures Lists(env, FileAt(r, KeywordFile(env.base, n)), h)
    {
      assert n in Ids(ShardAt(env, d, h)) && n != id;
    }
  }

  /** The shards after a deletion of `id` stay encoded and list only ids they listed
      before, `id` never. */
  lemma DeleteShards(env: Env, d: Disk, r: Disk, m: MetaRecord, id: nat)
    requires Indexed(env, d, m)
    requires forall h: Digest :: Lists(env, FileAt(d, KeywordFile(env.base, id)), h) ==> ShardAt(env, r, h) == Filtered(ShardAt(env, d, h), id)
    requires forall h: Digest :: !Lists(env, FileAt(d, KeywordFile(env.base, id)), h) ==> ShardAt(env, r, h) == ShardAt(env, d, h)
    ensures forall h: Digest :: Encoded(ShardAt(env, r, h)) && id !in Ids(ShardAt(env, r, h))
    ensures forall h: Digest, n: nat :: n in Ids(ShardAt(env, r, h)) ==> n in Ids(ShardAt(env, d, h)) && n != id
  {
    forall h: Digest
      ensures Encoded(ShardAt(env, r, h)) && id !in Ids(ShardAt(env, r, h))
      ensures forall n: nat :: n in Ids(ShardAt(env, r, h)) ==> n in Ids(ShardAt(env, d, h))
    {
      DeleteShard(ShardAt(env, d, h), ShardAt(env, r, h), id, Lists(env, FileAt(d, KeywordFile(env.base, id)), h));
    }
  }

  /** One shard `o` after a deletion of `id`: filtered when the keyword file of `id`
      names it, otherwise as it was, which then does not list `id`. */
  lemma DeleteShard(o: Option<seq<byte>>, r: Option<seq<byte>>, id: nat, named: bool)
    requires Encoded(o)
    requires named ==> r == Filtered(o, id)
    requires !named ==> r == o && id !in Ids(o)
    ensures Encoded(r) && id !in Ids(r)
    ensures forall n: nat :: n in Ids(r) ==> n in Ids(o)
  {
    FilteredEncoded(o, id);
  }

  /** `Delete` on a loaded state keeps the invariant, and its id is left in no shard. */
  lemma DeleteLoadedKeeps(env: Env, st: Store, title: string)
    requires Layout(env, st.disk) && st.cache.Some? && WellFormed(st.cache.value)
    requires Indexed(env, st.disk, st.cache.value)
    ensures Consistent(env, DeleteLoaded(env, st, title))
    ensures var r := DeleteLoaded(env, st, title);
      forall h: Digest :: IdOf(st.cache.value.titleId, title) !in Ids(ShardAt(env, r.disk, h))
  {
    var m := st.cache.value;
    var r := DeleteLoaded(env, st, title);
    DeleteLoadedEffect(env, st, title);
    WithoutTitleMeta(m, title);
    DeleteIndexed(env, st.disk, r.disk, m, WithoutTitle(m, title), IdOf(m.titleId, title));
    assert CurrentMeta(env, r) == WithoutTitle(m, title);
  }

  // ---- loading the record ----

  /** `getMetainfo` keeps the invariant and returns the record it is about. */
  lemma LoadKeeps(env: Env, st: Store)
    requires Consistent(env, st)
    ensures Load(env, st).1 == Some(CurrentMeta(env, st)) && Consistent(env, Load(env, st).0)
  {
    LoadEffect(env, st);
    var d, d1, m := st.disk, Load(env, st).0.disk, CurrentMeta(env, st);
    assert CurrentMeta(env, Load(env, st).0) == m;
    forall n: nat | FileAt(d1, KeywordFile(env.base, n)).Some?
      ensures n in m.idTitle
    {
      assert FileAt(d, KeywordFile(env.base, n)).Some?;
    }
    forall h: Digest, n: nat | n in Ids(ShardAt(env, d1, h))
      ensures Lists(env, FileAt(d1, KeywordFile(env.base, n)), h)
    {
      assert n in Ids(ShardAt(env, d, h));
    }
  }

  // ---- the operations ----

  /** `Delete` keeps the invariant. */
  lemma DeleteKeeps(env: Env, st: Store, title: string)
    requires Consistent(env, st)
    ensures Load(env, st).1.Some? && Consistent(env, DeleteOf(env, st, title))
  {
    LoadKeeps(env, st);
    DeleteLoadedKeeps(env, Load(env, st).0, title);
  }

  /** `InsertOrUpdate` keeps the invariant, for terms without a 0 byte. */
  lemma InsertOrUpdateKeeps(env: Env, st: Store, title: string, order: seq<string>)
    requires Consistent(env, st) && NulFree(order)
    ensures Load(env, st).1.Some? && Consistent(env, InsertOrUpdateOf(env, st, title, order))
  {
    LoadKeeps(env, st);
    var st1 := Load(env, st).0;
    var m := st1.cache.value;
    if IdOf(m.titleId, title) == 0 {
      InsertNewKeeps(env, st1, title, order);
    } else {
      DeleteLoadedKeeps(env, st1, title);
      var st2 := DeleteLoaded(env, st1, title);
      WithoutTitleMeta(m, title);
      InsertNewKeeps(env, st2, title, order);
    }
  }

  /** `Search` keeps the invariant: it changes only what `getMetainfo` changes. */
  lemma SearchKeeps(env: Env, st: Store)
    requires Consistent(env, st)
    ensures Load(env, st).1.Some? && Consistent(env, Load(env, st).0)
  {
    LoadKeeps(env, st);
  }

  // ---- what the invariant gives ----

  /** Every id a shard lists has a title. */
  lemma ListedKnown(env: Env, st: Store, k: string, x: nat)
    requires Consistent(env, st) && x in ShardIds(env, st.disk, k)
    ensures x in CurrentMeta(env, st).idTitle
  {
    var h := env.sha1(Utf8(k));
    assert x in Ids(ShardAt(env, st.disk, h));
    assert FileAt(st.disk, KeywordFile(env.base, x)).Some?;
  }

  /** Every title a search lists is a title of the record: no id without a title turns
      up as an empty title. */
  lemma SearchListsTitles(env: Env, st: Store, keyword: string)
    requires Consistent(env, st)
    ensures var m := CurrentMeta(env, st);
      forall t :: t in SearchResult(env, st.disk, m, keyword) ==> t in m.titleId
  {
    forall k, x: nat | x in ShardIds(env, st.disk, k)
      ensures x in CurrentMeta(env, st).idTitle
    {
      ListedKnown(env, st, k, x);
    }
    ResultTitlesKnown(env, st.disk, CurrentMeta(env, st), keyword);
  }

  lemma ResultTitlesKnown(env: Env, d: Disk, m: MetaRecord, keyword: string)
    requires WellFormed(m)
    requires forall k, x: nat :: x in ShardIds(env, d, k) ==> x in m.idTitle
    ensures forall t :: t in SearchResult(env, d, m, keyword) ==> t in m.titleId
  {
    var sw := SplitWordOf(env, keyword);
    if sw == {} {
      AllTitles(m);
    } else {
      var ms := Matches(env, d, sw);
      TitlesOfSet(m, ms);
      MatchesKnown(env, d, m, sw);
      forall x | x in ms
        ensures TitleOf(m, x) in m.titleId
      {
        assert x as nat in m.idTitle;
      }
    }
  }

  /** When every listed id has a title, so has every id a query matches. */
  lemma MatchesKnown(env: Env, d: Disk, m: MetaRecord, terms: set<string>)
    requires forall k, x: nat :: x in ShardIds(env, d, k) ==> x in m.idTitle
    ensures forall x :: x in Matches(env, d, terms) ==> x >= 0 && x as nat in m.idTitle
  {
    forall x | x in Matches(env, d, terms)
      ensures x >= 0 && x as nat in m.idTitle
    {
      var k :| k in terms && Found(env, d, k) && x in ShardIds(env, d, k);
      ListedInt(ShardIds(env, d, k), x);
    }
  }

  lemma ListedInt(ids: seq<nat>, x: int)
    requires x in ids
    ensures x >= 0 && x as nat in ids
  {
  }

  /** After `Delete(title)` on a loaded state, neither the title nor its id is left:
      not in the record, not as a keyword file, and in no shard. */
  lemma DeleteLoadedForgets(env: Env, st: Store, title: string)
    requires Layout(env, st.disk) && st.cache.Some? && WellFormed(st.cache.value)
    requires Indexed(env, st.disk, st.cache.value)
    ensures var r, id := DeleteLoaded(env, st, title), IdOf(st.cache.value.titleId, title);
      r.cache.Some? && title !in r.cache.value.titleId && id !in r.cache.value.idTitle &&
      KeywordFile(env.base, id) !in r.disk.files &&
      forall k :: id !in ShardIds(env, r.disk, k)
  {
    var r, id := DeleteLoaded(env, st, title), IdOf(st.cache.value.titleId, title);
    DeleteLoadedEffect(env, st, title);
    WithoutTitleMeta(st.cache.value, title);
    DeleteLoadedKeeps(env, st, title);
    forall k
      ensures id !in ShardIds(env, r.disk, k)
    {
      ShardIdsAt(env, r.disk, k);
    }
  }

  /** `Delete(title)` forgets the title and its id everywhere. */
  lemma DeleteForgets(env: Env, st: Store, title: string)
    requires Consistent(env, st)
    ensures Load(env, st).1.Some?
    ensures var r, id := DeleteOf(env, st, title), IdOf(CurrentMeta(env, st).titleId, title);
      r.cache.Some? && title !in r.cache.value.titleId && id !in r.cache.value.idTitle &&
      KeywordFile(env.base, id) !in r.disk.files &&
      forall k :: id !in ShardIds(env, r.disk, k)
  {
    LoadKeeps(env, st);
    DeleteLoadedForgets(env, Load(env, st).0, title);
  }

  /** `InsertOrUpdate` of a title that has an id moves it to a new id, larger than
      every id handed out before; the old id is left in neither map, as no keyword
      file and in no shard. */
  lemma UpdateMovesTitle(env: Env, st: Store, title: string, order: seq<string>)
    requires Consistent(env, st) && title in CurrentMeta(env, st).titleId
    ensures Load(env, st).1.Some?
    ensures var m, r := CurrentMeta(env, st), InsertOrUpdateOf(env, st, title, order);
      var oid := m.titleId[title];
      r.cache.Some? && title in r.cache.value.titleId && r.cache.value.titleId[title] == m.maxid + 1 &&
      (forall id :: id in m.idTitle ==> id < m.maxid + 1) &&
      oid !in r.cache.value.idTitle && KeywordFile(env.base, oid) !in r.disk.files &&
      forall k :: oid !in ShardIds(env, r.disk, k)
  {
    LoadKeeps(env, st);
    var st1 := Load(env, st).0;
    var m := st1.cache.value;
    var oid := m.titleId[title];
    assert IdOf(m.titleId, title) == oid;
    DeleteLoadedForgets(env, st1, title);
    DeleteLoadedKeeps(env, st1, title);
    var st2 := DeleteLoaded(env, st1, title);
    InsertKeepsAbsent(env, st2, title, order, oid);
    UpdateMeta(m, title);
    assert InsertNew(env, st2, title, order) == InsertOrUpdateOf(env, st, title, order);
  }

  /** An insertion leaves an id other than the new one as absent as it was: without a
      keyword file and in no shard. */
  lemma InsertKeepsAbsent(env: Env, st: Store, title: string, order: seq<string>, oid: nat)
    requires Layout(env, st.disk) && st.cache.Some? && oid != st.cache.value.maxid + 1
    requires forall h: Digest :: Encoded(ShardAt(env, st.disk, h))
    requires KeywordFile(env.base, oid) !in st.disk.files
    requires forall h: Digest :: oid !in Ids(ShardAt(env, st.disk, h))
    ensures var r := InsertNew(env, st, title, order);
      KeywordFile(env.base, oid) !in r.disk.files && forall k :: oid !in ShardIds(env, r.disk, k)
  {
    var r := InsertNew(env, st, title, order);
    InsertNewShards(env, st, title, order);
    assert FileAt(r.disk, KeywordFile(env.base, oid)) == FileAt(st.disk, KeywordFile(env.base, oid));
    forall k
      ensures oid !in ShardIds(env, r.disk, k)
    {
      ShardIdsAt(env, r.disk, k);
    }
  }

  // ---- setting up ----

  /** A disk on which the index has not stored anything yet, and where nothing stands in
      the way of its directories: no keyword file, no shard and no meta.json. */
  ghost predicate Untouched(env: Env, d: Disk) {
    Clean(env, d) &&
    (forall q :: q in Ancestors(KeywordPath(env.base)) ==> q !in d.files) &&
    (forall q :: q in Ancestors(IndexPath(env.base)) ==> q !in d.files) &&
    MetaPath(env.base) !in d.files &&
    (forall n: nat :: KeywordFile(env.base, n) !in d.files) &&
    (forall h: Digest :: ShardFile(env.base, h) !in d.files)
  }

  /** `Init` on an untouched disk, before any record is loaded, establishes the invariant. */
  lemma InitConsistent(env: Env, d: Disk)
    requires Untouched(env, d)
    ensures Consistent(env, Store(InitDisk(env, d), None))
  {
    InitLayout(env, d);
    var d1 := InitDisk(env, d);
    assert CurrentMeta(env, Store(d1, None)) == EmptyMeta;
    forall h: Digest
      ensures Encoded(ShardAt(env, d1, h))
    {
      assert ShardAt(env, d1, h) == None;
    }
  }
}
