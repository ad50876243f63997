/** What the operations of the file-backed index do to its files, proved on the effect
    functions of LowSearchSpec: every step keeps the layout, each step changes exactly
    the file it names, and the posting, metadata and search properties follow. */
module LowSearchProps {
  import opened Seqs
  import opened Text
  import opened Wrappers
  import opened Disks
  import opened SearchPaths
  import opened Postings
  import opened Intersect
  import opened LowSearchSpec

  // ---- single steps ----

  /** The paths of the layout never coincide. */
  lemma PathsApart(base: string, h: Digest, h': Digest, n: nat)
    ensures ShardFile(base, h) != ShardDir(base, h')
    ensures ShardFile(base, h) != KeywordFile(base, n) && ShardFile(base, h) != MetaPath(base)
    ensures ShardDir(base, h) != KeywordFile(base, n) && ShardDir(base, h) != MetaPath(base)
    ensures ShardDir(base, h) != RootPath(base) && ShardDir(base, h) != IndexPath(base)
    ensures ShardDir(base, h) != KeywordPath(base)
    ensures KeywordFile(base, n) != MetaPath(base)
  {
    var i := |base| + 9;
    assert ShardFile(base, h)[i] == 'i' && KeywordFile(base, n)[i] == 'k' && MetaPath(base)[i] == 'm';
  }

  /** `writeIndex` on a laid-out disk: the shard directory exists afterwards and the
      shard file holds exactly `data`; nothing else changes. */
  lemma WriteIndexEffect(env: Env, d: Disk, h: Digest, data: seq<byte>)
    requires Layout(env, d)
    ensures Layout(env, WriteIndex(env, d, h, data))
    ensures WriteIndex(env, d, h, data).files == d.files[ShardFile(env.base, h) := data]
    ensures WriteIndex(env, d, h, data).dirs == d.dirs + {ShardDir(env.base, h)}
  {
    var base := env.base;
    var dir, file := ShardDir(base, h), ShardFile(base, h);
    ParentsOfPaths(base, h, 0);
    var d1 := EnsureDir(d, dir);
    assert d1 == d.(dirs := d.dirs + {dir}) by {
      if !IsDir(d, dir) {
        assert MkdirAll(d, IndexPath(base)) == d;
      }
    }
    PathsApart(base, h, h, 0);
    var d2 := Write(d1, file, data);
    assert d2.files == d.files[file := data];
    forall h': Digest
      ensures ShardDir(base, h') !in d2.files && ShardFile(base, h') !in d2.dirs
    {
      PathsApart(base, h, h', 0);
      PathsApart(base, h', h, 0);
    }
    forall n: nat
      ensures KeywordFile(base, n) !in d2.dirs
    {
      PathsApart(base, h, h, n);
    }
  }

  /** Writing a keyword file other than `keyword/0` changes only that file. */
  lemma KeywordWriteEffect(env: Env, d: Disk, n: nat, c: seq<byte>)
    requires Layout(env, d) && n >= 1
    ensures Layout(env, Write(d, KeywordFile(env.base, n), c))
    ensures Write(d, KeywordFile(env.base, n), c) == d.(files := d.files[KeywordFile(env.base, n) := c])
  {
    var base := env.base;
    var h: Digest := seq(20, i => 0);
    ParentsOfPaths(base, h, n);
    if KeywordFile(base, 0) == KeywordFile(base, n) {
      KeywordFileInjective(base, 0, n);
    }
    var d' := Write(d, KeywordFile(base, n), c);
    forall h': Digest
      ensures ShardDir(base, h') !in d'.files
    {
      PathsApart(base, h', h', n);
    }
  }

  /** Removing a keyword file changes only that file. */
  lemma KeywordRemoveEffect(env: Env, d: Disk, n: nat)
    requires Layout(env, d)
    ensures Layout(env, Remove(d, KeywordFile(env.base, n)))
    ensures Remove(d, KeywordFile(env.base, n)) == d.(files := d.files - {KeywordFile(env.base, n)})
  {
  }

  /** Writing meta.json changes only that file. */
  lemma MetaWriteEffect(env: Env, d: Disk, c: seq<byte>)
    requires Layout(env, d)
    ensures Layout(env, Write(d, MetaPath(env.base), c))
    ensures Write(d, MetaPath(env.base), c) == d.(files := d.files[MetaPath(env.base) := c])
  {
    var base := env.base;
    var h: Digest := seq(20, i => 0);
    ParentsOfPaths(base, h, 0);
    PathsApart(base, h, h, 0);
    var d' := Write(d, MetaPath(base), c);
    forall h': Digest
      ensures ShardDir(base, h') !in d'.files
    {
      PathsApart(base, h', h', 0);
    }
  }

  /** What is left of a shard after `deleteIndex(h, id)`: nothing for a missing shard,
      nothing when no other entry remains, the filtered entries otherwise. */
  function Filtered(o: Option<seq<byte>>, id: nat): Option<seq<byte>> {
    if o.None? then None
    else
      var rest := Filter(o.value, DecimalBytes(id));
      if rest == [] then None else Some(rest)
  }

  /** Deleting the same id from a shard twice is deleting it once. */
  lemma FilteredTwice(o: Option<seq<byte>>, id: nat)
    ensures Filtered(Filtered(o, id), id) == Filtered(o, id)
  {
    if o.Some? {
      FilterTwice(o.value, DecimalBytes(id));
    }
  }

  /** `deleteIndex` on a laid-out disk changes only the shard's file, as `Filtered`
      says, and at most its directory. */
  lemma DeletePostingEffect(env: Env, d: Disk, h: Digest, id: nat)
    requires Layout(env, d)
    ensures var file := ShardFile(env.base, h);
      var f := Filtered(FileAt(d, file), id);
      DeletePosting(env, d, h, id).files == if f.Some? then d.files[file := f.value] else d.files - {file}
    ensures DeletePosting(env, d, h, id).dirs <= d.dirs + {ShardDir(env.base, h)}
  {
    var file := ShardFile(env.base, h);
    if file !in d.files {
      assert DeletePosting(env, d, h, id) == d;
      assert d.files - {file} == d.files;
    } else if Filter(d.files[file], DecimalBytes(id)) == [] {
      DeletePostingRemoves(env, d, h, id);
    } else {
      DeletePostingRewrites(env, d, h, id);
    }
  }

  /** `deleteIndex` keeps the layout. */
  lemma DeletePostingLayout(env: Env, d: Disk, h: Digest, id: nat)
    requires Layout(env, d)
    ensures Layout(env, DeletePosting(env, d, h, id))
  {
    var file := ShardFile(env.base, h);
    if file !in d.files {
      assert DeletePosting(env, d, h, id) == d;
    } else if Filter(d.files[file], DecimalBytes(id)) == [] {
      DeletePostingRemoves(env, d, h, id);
    } else {
      DeletePostingRewrites(env, d, h, id);
    }
  }

  /** `deleteIndex` of the last entry: the file goes, and at most its directory. */
  lemma DeletePostingRemoves(env: Env, d: Disk, h: Digest, id: nat)
    requires Layout(env, d) && ShardFile(env.base, h) in d.files
    requires Filter(d.files[ShardFile(env.base, h)], DecimalBytes(id)) == []
    ensures var r := DeletePosting(env, d, h, id);
      Layout(env, r) && r.files == d.files - {ShardFile(env.base, h)} && r.dirs <= d.dirs
  {
    var base := env.base;
    var file, dir := ShardFile(base, h), ShardDir(base, h);
    var d1 := Remove(d, file);
    assert d1 == d.(files := d.files - {file});
    LayoutShrinks(env, d, d1);
    PathsApart(base, h, h, 0);
    if DirIsEmpty(d1, dir) {
      LayoutShrinks(env, d1, Remove(d1, dir));
    }
  }

  /** `deleteIndex` with entries left: the file is rewritten and its directory stays. */
  lemma DeletePostingRewrites(env: Env, d: Disk, h: Digest, id: nat)
    requires Layout(env, d) && ShardFile(env.base, h) in d.files
    requires Filter(d.files[ShardFile(env.base, h)], DecimalBytes(id)) != []
    ensures var r, rest := DeletePosting(env, d, h, id), Filter(d.files[ShardFile(env.base, h)], DecimalBytes(id));
      r == WriteIndex(env, d, h, rest) && Layout(env, r) &&
      r.files == d.files[ShardFile(env.base, h) := rest] && r.dirs == d.dirs + {ShardDir(env.base, h)}
  {
    var base := env.base;
    var file, dir := ShardFile(base, h), ShardDir(base, h);
    var rest := Filter(d.files[file], DecimalBytes(id));
    WriteIndexEffect(env, d, h, rest);
    var d1 := WriteIndex(env, d, h, rest);
    ParentsOfPaths(base, h, 0);
    assert file in d1.files && Parent(file) == dir;
    assert !DirIsEmpty(d1, dir);
  }

  /** Removing files, and directories other than the three of the layout, keeps the layout. */
  lemma LayoutShrinks(env: Env, d: Disk, d': Disk)
    requires Layout(env, d) && d'.files.Keys <= d.files.Keys && d'.dirs <= d.dirs
    requires RootPath(env.base) in d'.dirs && IndexPath(env.base) in d'.dirs && KeywordPath(env.base) in d'.dirs
    ensures Layout(env, d')
  {
  }

  /** `deleteIndex` cleans up: a shard left without entries loses its file, and its
      directory too when nothing else is in it. */
  lemma DeletePostingCleansUp(env: Env, d: Disk, h: Digest, id: nat)
    requires Layout(env, d)
    requires ShardFile(env.base, h) in d.files
    requires Filter(d.files[ShardFile(env.base, h)], DecimalBytes(id)) == []
    requires forall f :: f in d.files && f != ShardFile(env.base, h) ==> Parent(f) != ShardDir(env.base, h)
    requires forall q :: q in d.dirs ==> Parent(q) != ShardDir(env.base, h)
    ensures ShardFile(env.base, h) !in DeletePosting(env, d, h, id).files
    ensures ShardDir(env.base, h) !in DeletePosting(env, d, h, id).dirs
  {
    var file, dir := ShardFile(env.base, h), ShardDir(env.base, h);
    var d1 := Remove(d, file);
    assert d1.files == d.files - {file};
    if dir in d1.dirs {
      assert DirIsEmpty(d1, dir);
    }
  }

  /** `deleteIndex` keeps the directory of a shard whose file still has entries. */
  lemma DeletePostingKeepsDir(env: Env, d: Disk, h: Digest, id: nat)
    requires Layout(env, d)
    requires ShardFile(env.base, h) in d.files
    requires Filter(d.files[ShardFile(env.base, h)], DecimalBytes(id)) != []
    ensures ShardDir(env.base, h) in DeletePosting(env, d, h, id).dirs
    ensures ShardFile(env.base, h) in DeletePosting(env, d, h, id).files
  {
    var base := env.base;
    var file, dir := ShardFile(base, h), ShardDir(base, h);
    var rest := Filter(d.files[file], DecimalBytes(id));
    WriteIndexEffect(env, d, h, rest);
    var d1 := WriteIndex(env, d, h, rest);
    ParentsOfPaths(base, h, 0);
    assert file in d1.files && Parent(file) == dir;
    assert !DirIsEmpty(d1, dir);
  }

  // ---- the posting loops ----

  /** The contents of the shard file of `h`, if there is one. */
  function ShardAt(env: Env, d: Disk, h: Digest): Option<seq<byte>> {
    FileAt(d, ShardFile(env.base, h))
  }

  lemma DistinctInit<T>(s: seq<T>)
    requires Distinct(s) && s != []
    ensures Distinct(s[..|s| - 1]) && s[|s| - 1] !in s[..|s| - 1]
  {
  }

  /** One term of an insertion: the shard of `h` gains `dc` (an absent shard starts
      empty), and no other shard, no keyword file and not meta.json changes. */
  lemma AppendPostingEffect(env: Env, d: Disk, h: Digest, dc: seq<byte>)
    requires Layout(env, d)
    ensures var r := AppendPosting(env, d, h, dc);
      Layout(env, r) && ShardAt(env, r, h) == Some(OrEmpty(ShardAt(env, d, h)) + dc) &&
      (forall h': Digest :: h' != h ==> ShardAt(env, r, h') == ShardAt(env, d, h')) &&
      (forall n: nat :: FileAt(r, KeywordFile(env.base, n)) == FileAt(d, KeywordFile(env.base, n))) &&
      FileAt(r, MetaPath(env.base)) == FileAt(d, MetaPath(env.base))
  {
    var bytes := OrEmpty(FileAt(d, ShardFile(env.base, h))) + dc;
    assert AppendPosting(env, d, h, dc) == WriteIndex(env, d, h, bytes);
    WriteIndexEffect(env, d, h, bytes);
    var r := WriteIndex(env, d, h, bytes);
    forall h': Digest | h' != h
      ensures ShardAt(env, r, h') == ShardAt(env, d, h')
    {
      if ShardFile(env.base, h') == ShardFile(env.base, h) {
        ShardFileInjective(env.base, h', h);
      }
    }
    forall n: nat
      ensures FileAt(r, KeywordFile(env.base, n)) == FileAt(d, KeywordFile(env.base, n))
    {
      PathsApart(env.base, h, h, n);
    }
    PathsApart(env.base, h, h, 0);
  }

  /** The posting loop of an insertion appends `dc` to the shard of every digest (an
      absent shard starts empty) and touches no keyword file and not meta.json. */
  lemma {:induction false} AppendAllEffect(env: Env, d: Disk, hs: seq<Digest>, dc: seq<byte>)
    requires Layout(env, d) && Distinct(hs)
    ensures Layout(env, AppendAll(env, d, hs, dc))
    ensures forall h: Digest :: ShardAt(env, AppendAll(env, d, hs, dc), h) ==
              (if h in hs then Some(OrEmpty(ShardAt(env, d, h)) + dc) else ShardAt(env, d, h))
    ensures forall n: nat :: FileAt(AppendAll(env, d, hs, dc), KeywordFile(env.base, n)) == FileAt(d, KeywordFile(env.base, n))
    ensures FileAt(AppendAll(env, d, hs, dc), MetaPath(env.base)) == FileAt(d, MetaPath(env.base))
  {
    if hs != [] {
      var init, last := hs[..|hs| - 1], hs[|hs| - 1];
      DistinctInit(hs);
      AppendAllEffect(env, d, init, dc);
      var d1 := AppendAll(env, d, init, dc);
      AppendPostingEffect(env, d1, last, dc);
    }
  }

  /** The loop of `Delete` leaves the shard of every digest as `Filtered` says, however
      often the digest occurs, and touches no keyword file and not meta.json. */
  lemma {:induction false} DeleteAllEffect(env: Env, d: Disk, hs: seq<Digest>, id: nat)
    requires Layout(env, d)
    ensures Layout(env, DeleteAll(env, d, hs, id))
    ensures forall h: Digest :: ShardAt(env, DeleteAll(env, d, hs, id), h) ==
              (if h in hs then Filtered(ShardAt(env, d, h), id) else ShardAt(env, d, h))
    ensures forall n: nat :: FileAt(DeleteAll(env, d, hs, id), KeywordFile(env.base, n)) == FileAt(d, KeywordFile(env.base, n))
    ensures FileAt(DeleteAll(env, d, hs, id), MetaPath(env.base)) == FileAt(d, MetaPath(env.base))
  {
    if hs != [] {
      var init, last := hs[..|hs| - 1], hs[|hs| - 1];
      DeleteAllEffect(env, d, init, id);
      var d1 := DeleteAll(env, d, init, id);
      DeletePostingEffect(env, d1, last, id);
      DeletePostingLayout(env, d1, last, id);
      var d2 := DeletePosting(env, d1, last, id);
      assert DeleteAll(env, d, hs, id) == d2;
      forall h: Digest
        ensures ShardAt(env, d2, h) == if h in hs then Filtered(ShardAt(env, d, h), id) else ShardAt(env, d, h)
      {
        if ShardFile(env.base, h) == ShardFile(env.base, last) {
          ShardFileInjective(env.base, h, last);
          FilteredTwice(ShardAt(env, d, h), id);
        }
      }
      forall n: nat
        ensures FileAt(d2, KeywordFile(env.base, n)) == FileAt(d, KeywordFile(env.base, n))
      {
        PathsApart(env.base, last, last, n);
      }
      PathsApart(env.base, last, last, 0);
    }
  }

  // ---- the metadata record ----

  /** An insertion gives the title an id larger than every id in use and keeps every
      other title's id. */
  lemma WithTitleMeta(m: MetaRecord, title: string)
    requires WellFormed(m) && title !in m.titleId
    ensures var m1 := WithTitle(m, title);
      WellFormed(m1) && title in m1.titleId && m1.idTitle[m1.titleId[title]] == title &&
      (forall id :: id in m.idTitle ==> id < m1.titleId[title]) &&
      (forall t :: t in m.titleId ==> t in m1.titleId && m1.titleId[t] == m.titleId[t])
  {
  }

  /** A deletion drops the title and its id and keeps every other title's id. */
  lemma WithoutTitleMeta(m: MetaRecord, title: string)
    requires WellFormed(m)
    ensures var m1 := WithoutTitle(m, title);
      WellFormed(m1) && title !in m1.titleId && IdOf(m.titleId, title) !in m1.idTitle && m1.maxid == m.maxid &&
      (forall t :: t in m.titleId && t != title ==> t in m1.titleId && m1.titleId[t] == m.titleId[t])
  {
  }

  /** Deleting a title just inserted gives back the record, except that the id it had
      is never handed out again. */
  lemma WithoutWithTitle(m: MetaRecord, title: string)
    requires WellFormed(m) && title !in m.titleId
    ensures WithoutTitle(WithTitle(m, title), title) == m.(maxid := m.maxid + 1)
  {
    var m1 := WithTitle(m, title);
    assert m1.idTitle - {m.maxid + 1} == m.idTitle;
    assert m1.titleId - {title} == m.titleId;
  }

  /** An update (delete, then insert) moves the title to a new, larger id. */
  lemma UpdateMeta(m: MetaRecord, title: string)
    requires WellFormed(m) && title in m.titleId
    ensures var m2 := WithTitle(WithoutTitle(m, title), title);
      WellFormed(m2) && title in m2.titleId && m2.titleId[title] > m.titleId[title] &&
      m.titleId[title] !in m2.idTitle &&
      (forall t :: t in m.titleId ==> t in m2.titleId)
  {
    WithoutTitleMeta(m, title);
    WithTitleMeta(WithoutTitle(m, title), title);
  }

  // ---- insertion and deletion of one document ----

  /** A new document: the next id, its title in both maps, `id` appended to the shard of
      every term, its keyword file listing the terms in `order`, the record saved. */
  lemma InsertNewEffect(env: Env, st: Store, title: string, order: seq<string>)
    requires Layout(env, st.disk) && st.cache.Some? && WellFormed(st.cache.value)
    requires title !in st.cache.value.titleId
    requires Distinct(TermDigests(env, order))
    ensures var r, m, id := InsertNew(env, st, title, order), st.cache.value, st.cache.value.maxid + 1;
      Layout(env, r.disk) && r.cache == Some(WithTitle(m, title)) &&
      FileAt(r.disk, KeywordFile(env.base, id)) == Some(Terminated(TermTexts(order), 0)) &&
      FileAt(r.disk, MetaPath(env.base)) == Some(env.encodeMeta(WithTitle(m, title))) &&
      (forall n: nat :: n != id ==> FileAt(r.disk, KeywordFile(env.base, n)) == FileAt(st.disk, KeywordFile(env.base, n))) &&
      (forall h: Digest :: ShardAt(env, r.disk, h) ==
                           if h in TermDigests(env, order) then Some(OrEmpty(ShardAt(env, st.disk, h)) + (DecimalBytes(id) + [0]))
                           else ShardAt(env, st.disk, h))
  {
    var m, id := st.cache.value, st.cache.value.maxid + 1;
    var hs, dc := TermDigests(env, order), DecimalBytes(id) + [0];
    AppendAllEffect(env, st.disk, hs, dc);
    var d1 := AppendAll(env, st.disk, hs, dc);
    var c, mc := Terminated(TermTexts(order), 0), env.encodeMeta(WithTitle(m, title));
    KeywordAndMetaWrites(env, d1, id, c, mc);
    assert InsertNew(env, st, title, order) == Store(Write(Write(d1, KeywordFile(env.base, id), c), MetaPath(env.base), mc), Some(WithTitle(m, title)));
  }

  /** Writing keyword file `id` and then meta.json changes those two files only. */
  lemma KeywordAndMetaWrites(env: Env, d: Disk, id: nat, c: seq<byte>, mc: seq<byte>)
    requires Layout(env, d) && id >= 1
    ensures var d2 := Write(Write(d, KeywordFile(env.base, id), c), MetaPath(env.base), mc);
      Layout(env, d2) &&
      FileAt(d2, KeywordFile(env.base, id)) == Some(c) && FileAt(d2, MetaPath(env.base)) == Some(mc) &&
      (forall n: nat :: n != id ==> FileAt(d2, KeywordFile(env.base, n)) == FileAt(d, KeywordFile(env.base, n))) &&
      (forall h: Digest :: ShardAt(env, d2, h) == ShardAt(env, d, h))
  {
    var base, kf := env.base, KeywordFile(env.base, id);
    KeywordWriteEffect(env, d, id, c);
    var d1 := Write(d, kf, c);
    MetaWriteEffect(env, d1, mc);
    var d2 := Write(d1, MetaPath(base), mc);
    forall n: nat | n != id
      ensures FileAt(d2, KeywordFile(base, n)) == FileAt(d, KeywordFile(base, n))
    {
      if KeywordFile(base, n) == kf {
        KeywordFileInjective(base, n, id);
      }
      PathsApart(base, seq(20, i => 0), seq(20, i => 0), n);
    }
    forall h: Digest
      ensures ShardAt(env, d2, h) == ShardAt(env, d, h)
    {
      PathsApart(base, h, h, id);
    }
    PathsApart(base, seq(20, i => 0), seq(20, i => 0), id);
  }

  /** `Delete(title)` on a loaded state: both maps lose the title, its keyword file is
      gone, and, when that file could be read, the id is deleted from the shard of every
      chunk in it and the record is saved. */
  lemma DeleteLoadedEffect(env: Env, st: Store, title: string)
    requires Layout(env, st.disk) && st.cache.Some? && WellFormed(st.cache.value)
    ensures var r, m := DeleteLoaded(env, st, title), st.cache.value;
      var id := IdOf(m.titleId, title);
      var kf := KeywordFile(env.base, id);
      Layout(env, r.disk) && r.cache == Some(WithoutTitle(m, title)) &&
      kf !in r.disk.files &&
      (forall n: nat :: n != id ==> FileAt(r.disk, KeywordFile(env.base, n)) == FileAt(st.disk, KeywordFile(env.base, n))) &&
      FileAt(r.disk, MetaPath(env.base)) ==
        (if kf in st.disk.files then Some(env.encodeMeta(WithoutTitle(m, title))) else FileAt(st.disk, MetaPath(env.base))) &&
      (forall h: Digest :: ShardAt(env, r.disk, h) ==
                           if kf in st.disk.files && h in ChunkDigests(env, Split(st.disk.files[kf], 0)) then Filtered(ShardAt(env, st.disk, h), id)
                           else ShardAt(env, st.disk, h))
  {
    var m := st.cache.value;
    var id := IdOf(m.titleId, title);
    var kf := KeywordFile(env.base, id);
    KeywordRemovedEffect(env, st.disk, id);
    if kf in st.disk.files {
      var hs := ChunkDigests(env, Split(st.disk.files[kf], 0));
      var d1 := Remove(st.disk, kf);
      DeleteSavedEffect(env, d1, hs, id, WithoutTitle(m, title));
      assert DeleteLoaded(env, st, title).disk == SaveMeta(env, DeleteAll(env, d1, hs, id), WithoutTitle(m, title));
    }
  }

  /** Removing keyword file `id` leaves every other keyword file, every shard and
      meta.json as they were. */
  lemma KeywordRemovedEffect(env: Env, d: Disk, id: nat)
    requires Layout(env, d)
    ensures var d1, kf := Remove(d, KeywordFile(env.base, id)), KeywordFile(env.base, id);
      Layout(env, d1) && kf !in d1.files &&
      (forall n: nat :: n != id ==> FileAt(d1, KeywordFile(env.base, n)) == FileAt(d, KeywordFile(env.base, n))) &&
      (forall h: Digest :: ShardAt(env, d1, h) == ShardAt(env, d, h)) &&
      FileAt(d1, MetaPath(env.base)) == FileAt(d, MetaPath(env.base))
  {
    var base, kf := env.base, KeywordFile(env.base, id);
    KeywordRemoveEffect(env, d, id);
    var d1 := Remove(d, kf);
    forall n: nat | n != id
      ensures FileAt(d1, KeywordFile(base, n)) == FileAt(d, KeywordFile(base, n))
    {
      if KeywordFile(base, n) == kf {
        KeywordFileInjective(base, n, id);
      }
    }
    forall h: Digest
      ensures ShardAt(env, d1, h) == ShardAt(env, d, h)
    {
      PathsApart(base, h, h, id);
    }
    KeywordNotMeta(base, id);
  }

  lemma KeywordNotMeta(base: string, n: nat)
    ensures KeywordFile(base, n) != MetaPath(base)
  {
    var i := |base| + 9;
    assert KeywordFile(base, n)[i] == 'k' && MetaPath(base)[i] == 'm';
  }

  /** The loop of `Delete` over the digests `hs`, then `saveMeta(m1)`: the shards of the
      digests filtered, meta.json holding `m1`, and no keyword file changed. */
  lemma DeleteSavedEffect(env: Env, d: Disk, hs: seq<Digest>, id: nat, m1: MetaRecord)
    requires Layout(env, d)
    ensures var r := SaveMeta(env, DeleteAll(env, d, hs, id), m1);
      Layout(env, r) && FileAt(r, MetaPath(env.base)) == Some(env.encodeMeta(m1)) &&
      (forall n: nat :: FileAt(r, KeywordFile(env.base, n)) == FileAt(d, KeywordFile(env.base, n))) &&
      (forall h: Digest :: ShardAt(env, r, h) == if h in hs then Filtered(ShardAt(env, d, h), id) else ShardAt(env, d, h))
  {
    var base := env.base;
    DeleteAllEffect(env, d, hs, id);
    var d2 := DeleteAll(env, d, hs, id);
    MetaWriteEffect(env, d2, env.encodeMeta(m1));
    var d3 := SaveMeta(env, d2, m1);
    forall n: nat
      ensures FileAt(d3, KeywordFile(base, n)) == FileAt(d2, KeywordFile(base, n))
    {
      KeywordNotMeta(base, n);
    }
    forall h: Digest
      ensures ShardAt(env, d3, h) == ShardAt(env, d2, h)
    {
      PathsApart(base, h, h, 0);
    }
  }

  /** Deleting a title the record does not know changes nothing: id 0 is nobody's, and
      there is no keyword file 0 to read or remove. */
  lemma DeleteUnknownUnchanged(env: Env, st: Store, title: string)
    requires Layout(env, st.disk) && st.cache.Some? && WellFormed(st.cache.value)
    requires title !in st.cache.value.titleId
    ensures DeleteLoaded(env, st, title) == st
  {
    var m := st.cache.value;
    assert IdOf(m.titleId, title) == 0 && 0 !in m.idTitle;
    assert m.idTitle - {0} == m.idTitle && m.titleId - {title} == m.titleId;
    assert WithoutTitle(m, title) == m;
    assert Remove(st.disk, KeywordFile(env.base, 0)) == st.disk;
  }

  /** `Delete` of a title the (loaded) record does not know leaves the state as
      `getMetainfo` left it. */
  lemma DeleteOfUnknown(env: Env, st: Store, title: string)
    requires Layout(env, st.disk) && title !in CurrentMeta(env, st).titleId
    requires WellFormed(CurrentMeta(env, st))
    ensures Load(env, st).1.Some? && DeleteOf(env, st, title) == Load(env, st).0
  {
    LoadEffect(env, st);
    DeleteUnknownUnchanged(env, Load(env, st).0, title);
  }

  /** A title the record does not hold is in no search result. */
  lemma UnknownNotListed(env: Env, d: Disk, m: MetaRecord, title: string, keyword: string)
    requires WellFormed(m) && title !in m.titleId && title != ""
    ensures title !in SearchResult(env, d, m, keyword)
  {
    var sw := SplitWordOf(env, keyword);
    if sw == {} {
      AllTitles(m);
    } else {
      var ms := Matches(env, d, sw);
      TitlesOfSet(m, ms);
      forall x | x in ms
        ensures TitleOf(m, x) != title
      {
        if x >= 0 && x as nat in m.idTitle {
          assert m.idTitle[x as nat] in m.titleId;
        }
      }
    }
  }

  /** After `Delete(title)` no search lists the title any more. */
  lemma DeletedNotListed(env: Env, st: Store, title: string, keyword: string)
    requires Layout(env, st.disk) && st.cache.Some? && WellFormed(st.cache.value)
    requires title != ""
    ensures var r := DeleteLoaded(env, st, title);
      r.cache.Some? && title !in SearchResult(env, r.disk, r.cache.value, keyword)
  {
    DeleteLoadedEffect(env, st, title);
    WithoutTitleMeta(st.cache.value, title);
    var r := DeleteLoaded(env, st, title);
    UnknownNotListed(env, r.disk, r.cache.value, title, keyword);
  }

  // ---- deleting undoes inserting ----

  /** A shard an insertion of `id` may meet: absent, or a non-empty, well-terminated
      list without `id`. */
  predicate Clear(o: Option<seq<byte>>, id: nat) {
    o.None? || (o.value != [] && Tail(o.value, 0) == [] && DecimalBytes(id) !in Chunks(o.value, 0))
  }

  lemma DeleteUndoesAppend(o: Option<seq<byte>>, id: nat)
    requires Clear(o, id)
    ensures Filtered(Some(OrEmpty(o) + (DecimalBytes(id) + [0])), id) == o
  {
    var b := OrEmpty(o);
    assert b + (DecimalBytes(id) + [0]) == b + DecimalBytes(id) + [0];
    if o.None? {
      assert Chunks(b, 0) == [];
    }
    FilterAppend(b, id);
  }

  /** The chunks `Delete` reads back from a keyword file written for `order`: the terms,
      then the empty piece after the last 0. */
  lemma KeywordPieces(env: Env, order: seq<string>)
    requires forall i :: 0 <= i < |order| ==> 0 !in Utf8(order[i])
    ensures ChunkDigests(env, Split(Terminated(TermTexts(order), 0), 0)) == TermDigests(env, order) + [env.sha1([])]
  {
    var ps := TermTexts(order);
    assert Split(Terminated(ps, 0), 0) == ps + [[]] by {
      ChunksTerminated(ps, 0);
    }
    TextDigests(env, order);
  }

  /** The digests of the pieces of a keyword file, followed by the empty piece. */
  lemma TextDigests(env: Env, order: seq<string>)
    ensures ChunkDigests(env, TermTexts(order) + [[]]) == TermDigests(env, order) + [env.sha1([])]
  {
    var ps := TermTexts(order) + [[]];
    assert ps[..|ps| - 1] == TermTexts(order);
    assert ChunkDigests(env, TermTexts(order)) == TermDigests(env, order);
  }

  /** `r` is the store on disk `d0` with record `m` again, except that `maxid` has moved
      on by one: the record, meta.json, every shard and every keyword file. */
  ghost predicate Restored(env: Env, d0: Disk, m: MetaRecord, r: Store) {
    r.cache == Some(m.(maxid := m.maxid + 1)) &&
    FileAt(r.disk, MetaPath(env.base)) == Some(env.encodeMeta(m.(maxid := m.maxid + 1))) &&
    (forall h: Digest :: ShardAt(env, r.disk, h) == ShardAt(env, d0, h)) &&
    (forall n: nat :: FileAt(r.disk, KeywordFile(env.base, n)) == FileAt(d0, KeywordFile(env.base, n)))
  }

  /** What deleting the new document needs of the disk before the insertion: no keyword
      file yet for the new id `id`, a clean shard or none for every term digest in `hs`,
      and no shard for the digest `e` of the empty piece. */
  ghost predicate Fresh(env: Env, d0: Disk, id: nat, hs: seq<Digest>, e: Digest) {
    KeywordFile(env.base, id) !in d0.files &&
    (forall h :: h in hs ==> Clear(ShardAt(env, d0, h), id)) &&
    ShardAt(env, d0, e) == None
  }

  /** Inserting a new document and deleting it again restores every shard and every
      keyword file, and the record up to `maxid`. The shard of the empty piece that
      `Delete` also visits must be absent, and the digests must not collide. */
  lemma InsertThenDelete(env: Env, st: Store, title: string, order: seq<string>)
    requires Layout(env, st.disk) && st.cache.Some? && WellFormed(st.cache.value)
    requires title !in st.cache.value.titleId
    requires Distinct(TermDigests(env, order) + [env.sha1([])])
    requires NulFree(order)
    requires Fresh(env, st.disk, st.cache.value.maxid + 1, TermDigests(env, order), env.sha1([]))
    ensures Restored(env, st.disk, st.cache.value, DeleteLoaded(env, InsertNew(env, st, title, order), title))
  {
    DeleteTermsAfterInsert(env, st.disk, st.cache.value, title, order);
    var st1 := InsertedState(env, st, title, order);
  }

  lemma DistinctSnoc<T>(s: seq<T>, x: T)
    requires Distinct(s + [x])
    ensures Distinct(s) && x !in s
  {
    var all := s + [x];
    forall i, j | 0 <= i < j < |s| ensures s[i] != s[j] {
      assert all[i] == s[i] && all[j] == s[j];
    }
    forall i | 0 <= i < |s| ensures s[i] != x {
      assert all[i] == s[i] && all[|s|] == x;
    }
  }

  /** The state `st1` an insertion under title `title` as id `m.maxid + 1` leaves on
      disk `d0` with record `m`, for terms with digests `hs` and keyword file `content`:
      the title in the record, the keyword file written, no other keyword file changed,
      and the id appended to the shard of each term. */
  ghost predicate AfterInsert(env: Env, d0: Disk, st1: Store, m: MetaRecord, title: string, hs: seq<Digest>, content: seq<byte>) {
    var id := m.maxid + 1;
    Layout(env, st1.disk) && st1.cache == Some(WithTitle(m, title)) && WellFormed(WithTitle(m, title)) &&
    FileAt(st1.disk, KeywordFile(env.base, id)) == Some(content) &&
    (forall n: nat :: n != id ==> FileAt(st1.disk, KeywordFile(env.base, n)) == FileAt(d0, KeywordFile(env.base, n))) &&
    (forall h: Digest :: ShardAt(env, st1.disk, h) ==
                         if h in hs then Some(OrEmpty(ShardAt(env, d0, h)) + (DecimalBytes(id) + [0]))
                         else ShardAt(env, d0, h))
  }

  /** The first half of `InsertThenDelete`: what the insertion leaves. */
  lemma InsertedState(env: Env, st: Store, title: string, order: seq<string>) returns (st1: Store)
    requires Layout(env, st.disk) && st.cache.Some? && WellFormed(st.cache.value)
    requires title !in st.cache.value.titleId
    requires Distinct(TermDigests(env, order) + [env.sha1([])])
    ensures st1 == InsertNew(env, st, title, order)
    ensures AfterInsert(env, st.disk, st1, st.cache.value, title, TermDigests(env, order), Terminated(TermTexts(order), 0))
  {
    DistinctSnoc(TermDigests(env, order), env.sha1([]));
    st1 := InsertNew(env, st, title, order);
    InsertNewEffect(env, st, title, order);
    WithTitleMeta(st.cache.value, title);
  }

  /** No term holds a 0 byte, the separator of keyword files. */
  predicate NulFree(order: seq<string>) {
    forall i :: 0 <= i < |order| ==> 0 !in Utf8(order[i])
  }

  /** The second half of `InsertThenDelete`, for the keyword file of `order`. */
  lemma DeleteTermsAfterInsert(env: Env, d0: Disk, m: MetaRecord, title: string, order: seq<string>)
    requires WellFormed(m) && title !in m.titleId
    requires Distinct(TermDigests(env, order) + [env.sha1([])]) && NulFree(order)
    requires Fresh(env, d0, m.maxid + 1, TermDigests(env, order), env.sha1([]))
    ensures forall st1 :: AfterInsert(env, d0, st1, m, title, TermDigests(env, order), Terminated(TermTexts(order), 0)) ==>
                          Restored(env, d0, m, DeleteLoaded(env, st1, title))
  {
    KeywordPieces(env, order);
    DeleteAfterInsert(env, d0, m, title, TermDigests(env, order), env.sha1([]), Terminated(TermTexts(order), 0));
  }

  /** Deleting the title again from any state the insertion may have left, when the keyword file reads back as the digests `hs`
      followed by the digest `e` of the empty piece. */
  lemma DeleteAfterInsert(env: Env, d0: Disk, m: MetaRecord, title: string, hs: seq<Digest>, e: Digest, content: seq<byte>)
    requires WellFormed(m) && title !in m.titleId
    requires Distinct(hs + [e]) && ChunkDigests(env, Split(content, 0)) == hs + [e]
    requires Fresh(env, d0, m.maxid + 1, hs, e)
    ensures forall st1 :: AfterInsert(env, d0, st1, m, title, hs, content) ==> Restored(env, d0, m, DeleteLoaded(env, st1, title))
  {
    var id := m.maxid + 1;
    DistinctSnoc(hs, e);
    assert IdOf(WithTitle(m, title).titleId, title) == id;
    WithoutWithTitle(m, title);
    forall st1 | AfterInsert(env, d0, st1, m, title, hs, content)
      ensures Restored(env, d0, m, DeleteLoaded(env, st1, title))
    {
      var kf := KeywordFile(env.base, id);
      assert kf in st1.disk.files && st1.disk.files[kf] == content;
      DeleteLoadedEffect(env, st1, title);
      var r := DeleteLoaded(env, st1, title);
      ShardsRestored(env, d0, st1.disk, r.disk, hs, e, id);
      forall n: nat
        ensures FileAt(r.disk, KeywordFile(env.base, n)) == FileAt(d0, KeywordFile(env.base, n))
      {
        if n != id {
          assert FileAt(r.disk, KeywordFile(env.base, n)) == FileAt(st1.disk, KeywordFile(env.base, n));
        }
      }
    }
  }

  lemma ShardsRestored(env: Env, d0: Disk, d1: Disk, d2: Disk, hs: seq<Digest>, e: Digest, id: nat)
    requires e !in hs && ShardAt(env, d0, e) == None
    requires forall h :: h in hs ==> Clear(ShardAt(env, d0, h), id)
    requires forall h: Digest :: ShardAt(env, d1, h) ==
                                 if h in hs then Some(OrEmpty(ShardAt(env, d0, h)) + (DecimalBytes(id) + [0])) else ShardAt(env, d0, h)
    requires forall h: Digest :: ShardAt(env, d2, h) ==
                                 if h in hs + [e] then Filtered(ShardAt(env, d1, h), id) else ShardAt(env, d1, h)
    ensures forall h: Digest :: ShardAt(env, d2, h) == ShardAt(env, d0, h)
  {
    forall h: Digest
      ensures ShardAt(env, d2, h) == ShardAt(env, d0, h)
    {
      if h in hs {
        DeleteUndoesAppend(ShardAt(env, d0, h), id);
      }
    }
  }

  // ---- what a search finds ----

  /** An id matches exactly when at least one term's shard can be read and every
      readable shard of the terms lists it. */
  lemma MatchesMeaning(env: Env, d: Disk, terms: set<string>, x: int)
    ensures x in Matches(env, d, terms) <==>
            (exists k :: k in terms && Found(env, d, k)) &&
            (forall k :: k in terms && Found(env, d, k) ==> x in ShardIds(env, d, k))
  {
    if (exists k :: k in terms && Found(env, d, k)) &&
       (forall k :: k in terms && Found(env, d, k) ==> x in ShardIds(env, d, k)) {
      var k :| k in terms && Found(env, d, k);
      assert x in ShardIds(env, d, k);
    }
  }

  /** A term without a shard is skipped, as if it were not part of the query. */
  lemma MissingTermSkipped(env: Env, d: Disk, terms: set<string>, k: string)
    requires !Found(env, d, k)
    ensures Matches(env, d, terms) == Matches(env, d, terms - {k})
  {
    forall x
      ensures x in Matches(env, d, terms) <==> x in Matches(env, d, terms - {k})
    {
      MatchesMeaning(env, d, terms, x);
      MatchesMeaning(env, d, terms - {k}, x);
    }
  }

  /** After an insertion, the shard of every term of the document can be read and ends
      with the new id; the shards of other digests are as before. */
  lemma InsertNewIndexes(env: Env, st: Store, title: string, order: seq<string>)
    requires Layout(env, st.disk) && st.cache.Some? && WellFormed(st.cache.value)
    requires title !in st.cache.value.titleId
    requires Distinct(TermDigests(env, order))
    requires forall i :: 0 <= i < |order| ==> Tail(OrEmpty(ShardAt(env, st.disk, env.sha1(Utf8(order[i])))), 0) == []
    ensures var r, id := InsertNew(env, st, title, order), st.cache.value.maxid + 1;
      r.cache == Some(WithTitle(st.cache.value, title)) &&
      forall i :: 0 <= i < |order| ==>
        Found(env, r.disk, order[i]) && ShardIds(env, r.disk, order[i]) == ShardIds(env, st.disk, order[i]) + [id] &&
        id in ShardIds(env, r.disk, order[i])
  {
    InsertNewEffect(env, st, title, order);
    AppendIndexes(env, st.disk, InsertNew(env, st, title, order).disk, order, st.cache.value.maxid + 1);
  }

  lemma AppendIndexes(env: Env, d: Disk, r: Disk, order: seq<string>, id: nat)
    requires forall h: Digest :: ShardAt(env, r, h) ==
                                 if h in TermDigests(env, order) then Some(OrEmpty(ShardAt(env, d, h)) + (DecimalBytes(id) + [0]))
                                 else ShardAt(env, d, h)
    requires forall i :: 0 <= i < |order| ==> Tail(OrEmpty(ShardAt(env, d, env.sha1(Utf8(order[i])))), 0) == []
    ensures forall i :: 0 <= i < |order| ==>
      Found(env, r, order[i]) && ShardIds(env, r, order[i]) == ShardIds(env, d, order[i]) + [id] &&
      id in ShardIds(env, r, order[i])
  {
    var hs := TermDigests(env, order);
    forall i | 0 <= i < |order|
      ensures Found(env, r, order[i]) && ShardIds(env, r, order[i]) == ShardIds(env, d, order[i]) + [id]
      ensures id in ShardIds(env, r, order[i])
    {
      var h := hs[i];
      assert h in hs && h == env.sha1(Utf8(order[i]));
      AppendedShard(env, d, r, h, id);
    }
  }

  lemma AppendedShard(env: Env, d: Disk, r: Disk, h: Digest, id: nat)
    requires ShardAt(env, r, h) == Some(OrEmpty(ShardAt(env, d, h)) + (DecimalBytes(id) + [0]))
    requires Tail(OrEmpty(ShardAt(env, d, h)), 0) == []
    ensures Read(r, ShardFile(env.base, h)).Data?
    ensures Decode(OrEmpty(ShardAt(env, r, h))) == Decode(OrEmpty(ShardAt(env, d, h))) + [id]
  {
    var b, x := OrEmpty(ShardAt(env, d, h)), DecimalBytes(id);
    assert b + (x + [0]) == b + x + [0];
    DecodeAppend(b, id);
    assert ShardFile(env.base, h) in r.files;
  }

  /** After an insertion, a query whose terms are all terms of the new document finds it. */
  lemma InsertedIsFound(env: Env, st: Store, title: string, order: seq<string>, keyword: string)
    requires Layout(env, st.disk) && st.cache.Some? && WellFormed(st.cache.value)
    requires title !in st.cache.value.titleId
    requires Distinct(TermDigests(env, order))
    requires forall i :: 0 <= i < |order| ==> Tail(OrEmpty(ShardAt(env, st.disk, env.sha1(Utf8(order[i])))), 0) == []
    requires SplitWordOf(env, keyword) != {}
    requires forall k :: k in SplitWordOf(env, keyword) ==> k in order
    ensures var r := InsertNew(env, st, title, order);
      title in SearchResult(env, r.disk, r.cache.value, keyword)
  {
    var r := InsertNew(env, st, title, order);
    InsertNewIndexes(env, st, title, order);
    InsertNewTitle(env, st, title, order);
    TitleFound(env, r.disk, r.cache.value, title, st.cache.value.maxid + 1, order, keyword);
  }

  lemma InsertNewTitle(env: Env, st: Store, title: string, order: seq<string>)
    requires st.cache.Some?
    ensures var r, id := InsertNew(env, st, title, order), st.cache.value.maxid + 1;
      r.cache.Some? && id in r.cache.value.idTitle && r.cache.value.idTitle[id] == title
  {
    var m1 := WithTitle(st.cache.value, title);
    assert InsertNew(env, st, title, order).cache == Some(m1);
    assert m1.idTitle[st.cache.value.maxid + 1] == title;
  }

  lemma TitleFound(env: Env, d: Disk, m: MetaRecord, title: string, id: nat, order: seq<string>, keyword: string)
    requires id in m.idTitle && m.idTitle[id] == title
    requires forall i :: 0 <= i < |order| ==> Found(env, d, order[i]) && id in ShardIds(env, d, order[i])
    requires SplitWordOf(env, keyword) != {}
    requires forall k :: k in SplitWordOf(env, keyword) ==> k in order
    ensures title in SearchResult(env, d, m, keyword)
  {
    var sw := SplitWordOf(env, keyword);
    ListedEverywhere(env, d, sw, order, id);
    TitlesOfSet(m, Matches(env, d, sw));
    assert TitleOf(m, id) == title;
  }

  /** An id that the shard of every term lists matches a query made of those terms. */
  lemma ListedEverywhere(env: Env, d: Disk, terms: set<string>, order: seq<string>, id: nat)
    requires terms != {} && forall k :: k in terms ==> k in order
    requires forall i :: 0 <= i < |order| ==> Found(env, d, order[i]) && id in ShardIds(env, d, order[i])
    ensures id in Matches(env, d, terms)
  {
    var k0 :| k0 in terms;
    forall k | k in terms
      ensures Found(env, d, k) && id in ShardIds(env, d, k)
    {
      var i :| 0 <= i < |order| && order[i] == k;
    }
    MatchesMeaning(env, d, terms, id);
  }

  /** The titles of a set of ids, newest first: one per id, and the titles of those ids. */
  lemma TitlesOfSet(m: MetaRecord, s: set<int>)
    ensures |Titles(m, Descending(s))| == |s|
    ensures forall t :: t in Titles(m, Descending(s)) <==> exists x :: x in s && TitleOf(m, x) == t
  {
    var ids := Descending(s);
    var ts := Titles(m, ids);
    forall t | t in ts
      ensures exists x :: x in s && TitleOf(m, x) == t
    {
      var j :| 0 <= j < |ts| && ts[j] == t;
      assert ids[j] in s && TitleOf(m, ids[j]) == t;
    }
    forall x | x in s
      ensures TitleOf(m, x) in ts
    {
      var j :| 0 <= j < |ids| && ids[j] == x;
      assert ts[j] == TitleOf(m, x);
    }
  }

  /** Every id of a well-formed record, newest first, gives every title exactly once. */
  lemma AllTitles(m: MetaRecord)
    requires WellFormed(m)
    ensures var ts := Titles(m, Descending(set id | id in m.idTitle :: id as int));
      Distinct(ts) && forall t :: t in ts <==> t in m.titleId
  {
    var s := set id | id in m.idTitle :: id as int;
    var ids := Descending(s);
    var ts := Titles(m, ids);
    assert forall j :: 0 <= j < |ids| ==> ids[j] in s;
    forall i, j | 0 <= i < j < |ts|
      ensures ts[i] != ts[j]
    {
      assert ids[i] > ids[j];
      assert ids[i] >= 0 && ids[i] as nat in m.idTitle;
      assert ids[j] >= 0 && ids[j] as nat in m.idTitle;
      assert m.titleId[ts[i]] == ids[i] && m.titleId[ts[j]] == ids[j];
    }
    TitlesOfSet(m, s);
    forall t
      ensures t in ts <==> t in m.titleId
    {
      if t in m.titleId {
        var id := m.titleId[t];
        assert id as int in s && TitleOf(m, id) == t;
      }
      if t in ts {
        var x :| x in s && TitleOf(m, x) == t;
        assert x >= 0 && x as nat in m.idTitle;
      }
    }
  }

  /** A query without terms lists every title exactly once. */
  lemma EmptyQueryListsAll(env: Env, d: Disk, m: MetaRecord, keyword: string)
    requires WellFormed(m) && SplitWordOf(env, keyword) == {}
    ensures Distinct(SearchResult(env, d, m, keyword))
    ensures forall t :: t in SearchResult(env, d, m, keyword) <==> t in m.titleId
  {
    AllTitles(m);
  }

  /** A query with terms lists, newest first, the titles of the matching ids. */
  lemma QueryListsMatches(env: Env, d: Disk, m: MetaRecord, keyword: string)
    requires SplitWordOf(env, keyword) != {}
    ensures var res, ms := SearchResult(env, d, m, keyword), Matches(env, d, SplitWordOf(env, keyword));
      |res| == |ms| &&
      (forall t :: t in res <==> exists x :: x in ms && TitleOf(m, x) == t)
  {
    TitlesOfSet(m, Matches(env, d, SplitWordOf(env, keyword)));
  }

  // ---- loading the record ----

  /** `getMetainfo` on a laid-out disk always returns the current record and caches it;
      it writes meta.json only when there was neither a cached record nor the file. */
  lemma LoadEffect(env: Env, st: Store)
    requires Layout(env, st.disk)
    ensures var s1 := Load(env, st).0;
      Load(env, st).1 == Some(CurrentMeta(env, st)) && s1.cache == Load(env, st).1 &&
      Layout(env, s1.disk) &&
      (forall h: Digest :: ShardAt(env, s1.disk, h) == ShardAt(env, st.disk, h)) &&
      (forall n: nat :: FileAt(s1.disk, KeywordFile(env.base, n)) == FileAt(st.disk, KeywordFile(env.base, n))) &&
      FileAt(s1.disk, MetaPath(env.base)) ==
        if st.cache.None? && MetaPath(env.base) !in st.disk.files then Some(env.encodeMeta(EmptyMeta))
        else FileAt(st.disk, MetaPath(env.base))
  {
    var base := env.base;
    MetaReachable(env, st.disk);
    if st.cache.None? && MetaPath(base) !in st.disk.files {
      MetaWriteEffect(env, st.disk, env.encodeMeta(EmptyMeta));
      var d1 := Write(st.disk, MetaPath(base), env.encodeMeta(EmptyMeta));
      forall h: Digest
        ensures ShardAt(env, d1, h) == ShardAt(env, st.disk, h)
      {
        PathsApart(base, h, h, 0);
      }
      forall n: nat
        ensures FileAt(d1, KeywordFile(base, n)) == FileAt(st.disk, KeywordFile(base, n))
      {
        PathsApart(base, seq(20, i => 0), seq(20, i => 0), n);
      }
    }
  }

  /** `getMetainfo` fails exactly when nothing is cached, meta.json is no file, and it is
      a directory or a directory on the way to it is a regular file. */
  lemma LoadFails(env: Env, st: Store)
    ensures Load(env, st).1.None? <==>
      st.cache.None? && MetaPath(env.base) !in st.disk.files &&
      (MetaPath(env.base) in st.disk.dirs || Blocked(st.disk, MetaPath(env.base)))
  {
    assert MetaPath(env.base) != "";
  }

  /** On a laid-out disk no directory on the way to meta.json is a regular file. */
  lemma MetaReachable(env: Env, d: Disk)
    requires Layout(env, d)
    ensures !Blocked(d, MetaPath(env.base))
  {
    MetaUnblocked(d, env.base);
  }

  lemma MetaUnblocked(d: Disk, base: string)
    requires RootPath(base) !in d.files
    requires forall q :: q in Ancestors(base) ==> q !in d.files
    ensures !Blocked(d, MetaPath(base))
  {
    assert Parent(MetaPath(base)) == RootPath(base) by {
      ParentOfChild(RootPath(base), "meta.json");
    }
    assert Ancestors(RootPath(base)) == {RootPath(base)} + Ancestors(base) by {
      ParentOfChild(base, IndexDir);
    }
  }

  /** On a laid-out disk, `getMetainfo` never fails. */
  lemma LoadSucceeds(env: Env, st: Store)
    requires Layout(env, st.disk)
    ensures Load(env, st).1.Some?
  {
    MetaReachable(env, st.disk);
  }

  /** Once `getMetainfo` has run, running it again changes nothing and returns the same. */
  lemma LoadCached(env: Env, st: Store)
    ensures Load(env, Load(env, st).0) == Load(env, st)
  {
  }

  // ---- setting up the directories ----

  /** `handEmptyDir` on a path no longer than `keyword`, with no file on the way up to
      it: afterwards it is a directory, no file changed, and nothing is in the way. */
  lemma EnsureDirClean(env: Env, d: Disk, p: string)
    requires Clean(env, d) && p != "" && |p| <= |env.base| + 16
    requires forall q :: q in Ancestors(p) ==> q !in d.files
    ensures Clean(env, EnsureDir(d, p)) && p in EnsureDir(d, p).dirs
    ensures EnsureDir(d, p).files == d.files && d.dirs <= EnsureDir(d, p).dirs
  {
    var r := EnsureDir(d, p);
    if !IsDir(d, p) {
      MkdirAllMakes(d, p);
    }
    CleanGrows(env, d, r, |p|);
  }

  /** Adding directories that are not files and are too short to be a shard, a keyword
      file or the meta record keeps a disk clean. */
  lemma CleanGrows(env: Env, d: Disk, r: Disk, len: nat)
    requires Clean(env, d) && len <= |env.base| + 16
    requires r.files == d.files && d.dirs <= r.dirs
    requires forall q :: q in r.dirs && q !in d.dirs ==> q !in d.files && |q| <= len
    ensures Clean(env, r)
  {
    forall h: Digest
      ensures ShardFile(env.base, h) !in r.dirs
    {
      assert |ShardFile(env.base, h)| > len;
    }
    forall n: nat
      ensures KeywordFile(env.base, n) !in r.dirs
    {
      assert |KeywordFile(env.base, n)| > len;
    }
    assert |MetaPath(env.base)| > len;
  }

  /** `Init` on a disk where nothing is in the way and no file blocks the directories:
      the layout. */
  lemma InitLayout(env: Env, d: Disk)
    requires Clean(env, d)
    requires forall q :: q in Ancestors(KeywordPath(env.base)) ==> q !in d.files
    requires forall q :: q in Ancestors(IndexPath(env.base)) ==> q !in d.files
    ensures Layout(env, InitDisk(env, d)) && InitDisk(env, d).files == d.files
  {
    var base := env.base;
    var h: Digest := seq(20, i => 0);
    ParentsOfPaths(base, h, 0);
    assert Ancestors(IndexPath(base)) == {IndexPath(base)} + Ancestors(RootPath(base));
    EnsureDirClean(env, d, RootPath(base));
    var d1 := EnsureDir(d, RootPath(base));
    EnsureDirClean(env, d1, KeywordPath(base));
    var d2 := EnsureDir(d1, KeywordPath(base));
    EnsureDirClean(env, d2, IndexPath(base));
  }

  /** `Init` on a laid-out disk changes nothing. */
  lemma InitKeepsLayout(env: Env, d: Disk)
    requires Layout(env, d)
    ensures InitDisk(env, d) == d
  {
  }
}
