/** The file-backed search index `LowSearch` of webmark-backend/search/mod.go as a
    class: its `meta` cache is a field, the file system it works on is a `FileSystem`
    object, and every method is proved to change the two exactly as the effect
    functions of LowSearchSpec say. */
module LowSearchEngine {
  import opened Seqs
  import opened Text
  import opened Wrappers
  import opened Disks
  import opened SearchPaths
  import opened Postings
  import opened Terms
  import opened Intersect
  import opened LowSearchSpec
  import opened LowSearchProps
  import opened LowSearchIndex

  // ---- the file helpers (lines 34-91) ----

  /** `writeFile`: create or truncate, then write. */
  method WriteFile(fs: FileSystem, p: string, c: seq<byte>)
    modifies fs
    ensures fs.State() == Write(old(fs.State()), p, c)
  {
    fs.Set(Write(fs.State(), p, c));
  }

  /** `readFile`: the contents, or the error. */
  method ReadFile(fs: FileSystem, p: string) returns (r: ReadResult)
    ensures r == Read(fs.State(), p)
    ensures r.Data? <==> p in fs.files
  {
    r := Read(fs.State(), p);
  }

  /** `handEmptyDir`. */
  method HandEmptyDir(fs: FileSystem, p: string)
    modifies fs
    ensures fs.State() == EnsureDir(old(fs.State()), p)
  {
    fs.Set(EnsureDir(fs.State(), p));
  }

  /** `isDirEmpty`'s boolean result. */
  method IsDirEmptyAt(fs: FileSystem, p: string) returns (empty: bool)
    ensures empty == DirIsEmpty(fs.State(), p)
  {
    empty := p in fs.dirs && forall f :: f in fs.files ==> Parent(f) != p;
    if empty {
      empty := forall q :: q in fs.dirs ==> Parent(q) != p;
    }
  }

  /** `os.Remove`. */
  method RemovePath(fs: FileSystem, p: string)
    modifies fs
    ensures fs.State() == Remove(old(fs.State()), p)
  {
    fs.Set(Remove(fs.State(), p));
  }

  /** The posting decoder of `Search` (lines 389-398): one id per 0 byte, built digit by
      digit; bytes after the last 0 are dropped. */
  method DecodePostings(data: seq<byte>) returns (ta: seq<int>)
    ensures ta == Decode(data)
  {
    ta := [];
    var t: int := 0;
    for i := 0 to |data|
      invariant ta == Decode(data[..i])
      invariant t == DigitsValue(Tail(data[..i], 0))
    {
      var v := data[i];
      assert data[..i + 1] == data[..i] + [v];
      assert (data[..i] + [v])[..i] == data[..i];
      if v == 0 {
        ta := ta + [t];
        t := 0;
      } else {
        t := t * 10 + (v as int - 48) % 256;
      }
    }
    assert data[..|data|] == data;
  }

  /** The `deleteIndex` filter loop (lines 124-140): the chunks other than `idb`, each
      again followed by 0. */
  method FilterPostings(data: seq<byte>, idb: seq<byte>) returns (rest: seq<byte>)
    ensures rest == Filter(data, idb)
  {
    var temp: seq<byte> := [];
    rest := [];
    for i := 0 to |data|
      invariant temp == Tail(data[..i], 0)
      invariant rest == Filter(data[..i], idb)
    {
      var v := data[i];
      assert data[..i + 1] == data[..i] + [v];
      assert (data[..i] + [v])[..i] == data[..i];
      if v == 0 {
        if temp != idb {
          rest := rest + temp + [0];
        }
        temp := [];
      } else {
        temp := temp + [v];
      }
    }
    assert data[..|data|] == data;
  }

  /** The ids of a set, in some order, each once, as ranging over a Go map gives them. */
  method KeysOf(m: map<nat, string>) returns (keys: seq<int>)
    ensures Distinct(keys)
    ensures forall x :: x in keys <==> x >= 0 && x as nat in m
  {
    keys := [];
    var pending := m.Keys;
    while pending != {}
      invariant pending <= m.Keys
      invariant Distinct(keys)
      invariant forall x :: x in keys <==> x >= 0 && x as nat in m && x as nat !in pending
      decreases |pending|
    {
      if forall x :: x !in pending { assert false; }
      var e :| e in pending;
      assert e as int !in keys;
      keys := keys + [e as int];
      pending := pending - {e};
    }
  }

  /** `meta.IdTitle[v]` for each id, in order. */
  method TitlesOf(m: MetaRecord, ids: seq<int>) returns (res: seq<string>)
    ensures res == Titles(m, ids)
  {
    res := [];
    for i := 0 to |ids|
      invariant res == Titles(m, ids[..i])
    {
      assert ids[..i + 1][..i] == ids[..i];
      res := res + [TitleOf(m, ids[i])];
    }
    assert ids[..|ids|] == ids;
  }

  /** A list of posting lists is the lists of the terms `fk`, which are exactly the terms
      of `terms` whose shard can be read: its intersection is what matches. */
  lemma IntersectionMatches(env: Env, d: Disk, terms: set<string>, fk: seq<string>, a: seq<seq<int>>)
    requires |a| == |fk| && forall j :: 0 <= j < |a| ==> a[j] == ShardIds(env, d, fk[j])
    requires forall k :: k in fk <==> k in terms && Found(env, d, k)
    ensures forall x :: (|a| > 0 && InAll(a, x)) <==> x in Matches(env, d, terms)
  {
    forall x
      ensures (|a| > 0 && InAll(a, x)) <==> x in Matches(env, d, terms)
    {
      MatchesMeaning(env, d, terms, x);
      if |a| > 0 && InAll(a, x) {
        forall k | k in terms && Found(env, d, k)
          ensures x in ShardIds(env, d, k)
        {
          var j :| 0 <= j < |fk| && fk[j] == k;
          assert x in a[j];
        }
        assert fk[0] in terms && Found(env, d, fk[0]);
      }
      if x in Matches(env, d, terms) {
        forall j | 0 <= j < |a|
          ensures x in a[j]
        {
          assert fk[j] in fk;
        }
        var k :| k in terms && Found(env, d, k);
        assert k in fk;
      }
    }
  }

  /** The insertion branch of `InsertOrUpdateOf`. */
  lemma InsertBranch(env: Env, st: Store, title: string, content: string, order: seq<string>)
    requires Load(env, st).1.Some? && IdOf(Load(env, st).1.value.titleId, title) == 0
    ensures InsertOrUpdateOf(env, st, title, order) == InsertNew(env, Load(env, st).0, title, order)
    ensures IndexedText(env, Load(env, st).1.value, title, content) == title + " " + env.toLower(title + " " + content)
  {
  }

  /** The update branch: after the deletion the title has no id, and the text split by
      the second call is the one `IndexedText` gives. */
  lemma UpdateBranch(env: Env, st: Store, title: string, content: string)
    requires Load(env, st).1.Some? && IdOf(Load(env, st).1.value.titleId, title) != 0
    ensures var st2 := DeleteOf(env, st, title);
      Load(env, st2) == (st2, st2.cache) && st2.cache.Some? && IdOf(st2.cache.value.titleId, title) == 0 &&
      IndexedText(env, st2.cache.value, title, env.toLower(title + " " + content)) == IndexedText(env, Load(env, st).1.value, title, content)
  {
  }

  lemma UpdateBranchResult(env: Env, st: Store, title: string, order: seq<string>)
    requires Load(env, st).1.Some? && IdOf(Load(env, st).1.value.titleId, title) != 0
    ensures InsertOrUpdateOf(env, DeleteOf(env, st, title), title, order) == InsertOrUpdateOf(env, st, title, order)
  {
  }

  lemma MetaLoaded(env: Env, st: Store)
    requires Load(env, st).1.Some?
    ensures Load(env, st).1.value == CurrentMeta(env, st)
  {
  }

  lemma SameElements(c: seq<int>, ms: set<int>)
    requires forall x :: x in c <==> x in ms
    ensures (set x | x in c) == ms
  {
    ghost var cs := set y | y in c;
    forall x
      ensures x in cs <==> x in ms
    {
      if x in c {
        assert x in cs;
      }
    }
  }

  class LowSearch {
    /** The `BasePath` and the collaborators the index calls. */
    const env: Env
    /** The file system below `BasePath`. */
    const fs: FileSystem
    /** The `meta` pointer: the record, once read or created. */
    var meta: Option<MetaRecord>

    function State(): Store
      reads this, fs
    {
      Store(fs.State(), meta)
    }

    /** After `Init` on an untouched disk, and so long as only this index touches its
        files: the layout, a well-formed record, and shards that agree with the keyword
        files and the record. */
    ghost predicate Valid()
      reads this, fs
    {
      Consistent(env, State())
    }

    constructor(env: Env, fs: FileSystem)
      ensures this.env == env && this.fs == fs && meta == None
    {
      this.env := env;
      this.fs := fs;
      meta := None;
    }

    /** `getMetainfo`. */
    method GetMetainfo() returns (r: Option<MetaRecord>)
      modifies this, fs
      ensures (State(), r) == Load(env, old(State()))
    {
      if meta.Some? {
        return meta;
      }
      var data := ReadFile(fs, MetaPath(env.base));
      match data {
        case Data(b) =>
          meta := Some(env.decodeMeta(b));
          r := meta;
        case NotExist =>
          WriteFile(fs, MetaPath(env.base), env.encodeMeta(EmptyMeta));
          meta := Some(EmptyMeta);
          r := meta;
        case IoError =>
          r := None;
      }
    }

    /** `getNextId`: loads the record, increments its `Maxid` and returns it. */
    method GetNextId() returns (id: nat)
      requires Load(env, State()).1.Some?
      modifies this, fs
      ensures var (st1, m) := Load(env, old(State()));
        id == m.value.maxid + 1 && fs.State() == st1.disk && meta == Some(m.value.(maxid := id))
    {
      var m := GetMetainfo();
      id := m.value.maxid + 1;
      meta := Some(m.value.(maxid := id));
    }

    /** `saveMeta`. */
    method SaveMetaFile()
      requires meta.Some?
      modifies fs
      ensures fs.State() == SaveMeta(env, old(fs.State()), meta.value)
    {
      WriteFile(fs, MetaPath(env.base), env.encodeMeta(meta.value));
    }

    /** `Init`: on an untouched disk, before any record is loaded, it makes the index
        valid. */
    method Init()
      modifies fs
      ensures fs.State() == InitDisk(env, old(fs.State()))
      ensures old(Untouched(env, fs.State())) && meta == None ==> Valid()
    {
      ghost var d0 := fs.State();
      HandEmptyDir(fs, RootPath(env.base));
      HandEmptyDir(fs, KeywordPath(env.base));
      HandEmptyDir(fs, IndexPath(env.base));
      if Untouched(env, d0) {
        InitConsistent(env, d0);
      }
    }

    /** `readIndex`. */
    method ReadIndex(h: Digest) returns (r: ReadResult)
      ensures r == Read(fs.State(), ShardFile(env.base, h))
    {
      r := ReadFile(fs, ShardFile(env.base, h));
    }

    /** `writeIndex`. */
    method WriteIndexFile(h: Digest, data: seq<byte>)
      modifies fs
      ensures fs.State() == WriteIndex(env, old(fs.State()), h, data)
    {
      HandEmptyDir(fs, ShardDir(env.base, h));
      WriteFile(fs, ShardFile(env.base, h), data);
    }

    /** `deleteIndex`; `failed` is the read error it returns. */
    method DeleteIndex(h: Digest, id: nat) returns (failed: bool)
      modifies fs
      ensures fs.State() == DeletePosting(env, old(fs.State()), h, id)
      ensures failed <==> ShardFile(env.base, h) !in old(fs.files)
    {
      var file, dir := ShardFile(env.base, h), ShardDir(env.base, h);
      var idata := ReadFile(fs, file);
      if !idata.Data? {
        return true;
      }
      var rest := FilterPostings(idata.bytes, DecimalBytes(id));
      if rest == [] {
        RemovePath(fs, file);
      } else {
        WriteIndexFile(h, rest);
      }
      var empty := IsDirEmptyAt(fs, dir);
      if empty {
        RemovePath(fs, dir);
      }
      failed := false;
    }

    /** `splitWord`. */
    method SplitWord(content: string) returns (tm: set<string>)
      ensures tm == SplitWordOf(env, content)
    {
      var segments := env.cutSearch(env.toLower(content));
      tm := SplitSegments(segments);
    }

    /** `InsertOrUpdate(title, content)`; `order` is the order in which the map of terms
        was visited. */
    method InsertOrUpdate(title: string, content: string) returns (ghost order: seq<string>)
      requires Load(env, State()).1.Some?
      modifies this, fs
      ensures Enumerates(order, SplitWordOf(env, IndexedText(env, Load(env, old(State())).1.value, title, content)))
      ensures State() == InsertOrUpdateOf(env, old(State()), title, order)
      ensures old(Valid()) && NulFree(order) ==> Valid()
      decreases if Load(env, State()).1.Some? && IdOf(Load(env, State()).1.value.titleId, title) == 0 then 0 else 1
    {
      ghost var st0 := State();
      var lowered := env.toLower(title + " " + content);
      var m := GetMetainfo();
      var id := IdOf(m.value.titleId, title);
      if id == 0 {
        order := InsertNewDoc(title, lowered);
        InsertBranch(env, st0, title, content, order);
      } else {
        Delete(title);
        UpdateBranch(env, st0, title, content);
        order := InsertOrUpdate(title, lowered);
        UpdateBranchResult(env, st0, title, order);
      }
      if Consistent(env, st0) && NulFree(order) {
        InsertOrUpdateKeeps(env, st0, title, order);
      }
    }

    /** The insertion branch of `InsertOrUpdate` (lines 243-275), on a loaded record. */
    method InsertNewDoc(title: string, lowered: string) returns (ghost order: seq<string>)
      requires meta.Some?
      modifies this, fs
      ensures Enumerates(order, SplitWordOf(env, title + " " + lowered))
      ensures State() == InsertNew(env, old(State()), title, order)
    {
      ghost var m := meta.value;
      var id := GetNextId();
      meta := Some(meta.value.(idTitle := meta.value.idTitle[id := title], titleId := meta.value.titleId[title := id]));
      assert meta == Some(WithTitle(m, title));
      var sw := SplitWord(title + " " + lowered);
      var buffer;
      buffer, order := PostTerms(sw, id);
      WriteFile(fs, KeywordFile(env.base, id), buffer);
      SaveMetaFile();
    }

    /** The term loop of an insertion (lines 255-270): the id is appended to the shard of
        every term, and `buffer` collects the keyword file. */
    method PostTerms(sw: set<string>, id: nat) returns (buffer: seq<byte>, ghost order: seq<string>)
      modifies fs
      ensures Enumerates(order, sw)
      ensures buffer == Terminated(TermTexts(order), 0)
      ensures fs.State() == AppendAll(env, old(fs.State()), TermDigests(env, order), DecimalBytes(id) + [0])
    {
      ghost var d0 := fs.State();
      var dc := DecimalBytes(id) + [0];
      buffer := [];
      var pending := sw;
      order := [];
      while pending != {}
        invariant pending <= sw
        invariant Distinct(order)
        invariant forall k :: k in order <==> k in sw && k !in pending
        invariant buffer == Terminated(TermTexts(order), 0)
        invariant fs.State() == AppendAll(env, d0, TermDigests(env, order), dc)
        decreases |pending|
      {
        var key :| key in pending;
        VisitStep(sw, pending, order, key);
        var hash := env.sha1(Utf8(key));
        PostTerm(hash, dc);
        TermsSnoc(env, order, key);
        AppendAllSnoc(env, d0, TermDigests(env, order), hash, dc);
        buffer := buffer + Utf8(key) + [0];
        order := order + [key];
        pending := pending - {key};
      }
    }

    /** One term of the loop: the shard of `hash` gains the entry `dc`. */
    method PostTerm(hash: Digest, dc: seq<byte>)
      modifies fs
      ensures fs.State() == AppendPosting(env, old(fs.State()), hash, dc)
    {
      var idata := ReadIndex(hash);
      if idata.NotExist? {
        assert [] + dc == dc;
        WriteIndexFile(hash, dc);
      } else {
        WriteIndexFile(hash, (if idata.Data? then idata.bytes else []) + dc);
      }
    }

    /** `Delete(title)`. */
    method Delete(title: string)
      requires Load(env, State()).1.Some?
      modifies this, fs
      ensures State() == DeleteOf(env, old(State()), title)
      ensures old(Valid()) ==> Valid()
    {
      ghost var st0 := State();
      if Consistent(env, st0) {
        DeleteKeeps(env, st0, title);
      }
      var m := GetMetainfo();
      var id := IdOf(m.value.titleId, title);
      meta := Some(WithoutTitle(m.value, title));
      var kwp := KeywordFile(env.base, id);
      var idata := ReadFile(fs, kwp);
      RemovePath(fs, kwp);
      if !idata.Data? {
        return;
      }
      var bb := Split(idata.bytes, 0);
      DeleteChunks(bb, id);
      SaveMetaFile();
    }

    /** The loop of `Delete` over the chunks of the keyword file (lines 302-305). */
    method DeleteChunks(bb: seq<seq<byte>>, id: nat)
      modifies fs
      ensures fs.State() == DeleteAll(env, old(fs.State()), ChunkDigests(env, bb), id)
    {
      ghost var d1 := fs.State();
      for i := 0 to |bb|
        invariant fs.State() == DeleteAll(env, d1, ChunkDigests(env, bb[..i]), id)
      {
        assert bb[..i + 1][..i] == bb[..i];
        var hash := env.sha1(bb[i]);
        var _ := DeleteIndex(hash, id);
      }
      assert bb[..|bb|] == bb;
    }

    /** `Search(keyword)`: the titles as `SearchResult` gives them; the state afterwards
        is the one `getMetainfo` leaves. The record is needed unless the query has terms
        and nothing matches them. */
    method Search(keyword: string) returns (res: seq<string>)
      requires Load(env, State()).1.Some? || (SplitWordOf(env, keyword) != {} && Matches(env, fs.State(), SplitWordOf(env, keyword)) == {})
      modifies this, fs
      ensures res == SearchResult(env, old(fs.State()), CurrentMeta(env, old(State())), keyword)
      ensures State() == Load(env, old(State())).0
      ensures old(Valid()) ==> Valid()
    {
      ghost var st0 := State();
      ghost var d0 := fs.State();
      ghost var m0 := CurrentMeta(env, State());
      if Consistent(env, st0) {
        SearchKeeps(env, st0);
      }
      var sw := SplitWord(keyword);
      if sw == {} {
        MetaLoaded(env, State());
        var m := GetMetainfo();
        res := ListAll(m.value);
      } else {
        var a, fk := CollectPostings(sw);
        var c := Intersection(a);
        ghost var ms := Matches(env, d0, sw);
        IntersectionMatches(env, d0, sw, fk, a);
        SameElements(c, ms);
        SortDescendingDistinct(c);
        c := SortDescending(c);
        var m := GetMetainfo();
        if c == [] {
          res := [];
        } else {
          assert c[0] in ms;
          MetaLoaded(env, st0);
          res := TitlesOf(m.value, c);
        }
        assert res == Titles(m0, Descending(ms));
      }
    }

    /** The shards read for the terms of a query (lines 382-400): one decoded list per
        term whose shard could be read, and `fk` the terms these belong to. */
    method CollectPostings(sw: set<string>) returns (a: seq<seq<int>>, ghost fk: seq<string>)
      ensures |a| == |fk| && forall j :: 0 <= j < |a| ==> a[j] == ShardIds(env, fs.State(), fk[j])
      ensures forall k :: k in fk <==> k in sw && Found(env, fs.State(), k)
    {
      a := [];
      fk := [];
      var pending := sw;
      while pending != {}
        invariant pending <= sw
        invariant |a| == |fk| && forall j :: 0 <= j < |a| ==> a[j] == ShardIds(env, fs.State(), fk[j])
        invariant forall k :: k in fk <==> k in sw && k !in pending && Found(env, fs.State(), k)
        decreases |pending|
      {
        var k :| k in pending;
        pending := pending - {k};
        var idata := ReadIndex(env.sha1(Utf8(k)));
        if !idata.Data? {
          continue;
        }
        var ta := DecodePostings(idata.bytes);
        a := a + [ta];
        fk := fk + [k];
      }
    }
  }

  /** The listing for an empty query (lines 365-380): every title, by descending id. */
  method ListAll(m: MetaRecord) returns (res: seq<string>)
    ensures res == Titles(m, Descending(set id | id in m.idTitle :: id as int))
  {
    var rkeys := KeysOf(m.idTitle);
    ghost var ids := set id | id in m.idTitle :: id as int;
    forall x
      ensures x in rkeys <==> x in ids
    {
      if x in ids {
        var id :| id in m.idTitle && x == id as int;
      }
      if x in rkeys {
        assert x as nat in m.idTitle;
      }
    }
    SameElements(rkeys, ids);
    SortDescendingDistinct(rkeys);
    rkeys := SortDescending(rkeys);
    res := TitlesOf(m, rkeys);
  }
}
