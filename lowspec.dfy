/** The state of the file-backed index `LowSearch` (webmark-backend/search/mod.go)
    and the effect of each of its operations on that state, as functions. The class in
    lowsearch.dfy is proved to have exactly these effects; the lemmas here and in
    lowprops.dfy say what the effects mean. */
module LowSearchSpec {
  import opened Seqs
  import opened Text
  import opened Wrappers
  import opened Disks
  import opened SearchPaths
  import opened Postings
  import opened Terms
  import opened Intersect

  /** `MetaInfo`: the id-to-title and title-to-id maps and the largest id handed out. */
  datatype MetaRecord = MetaRecord(idTitle: map<nat, string>, titleId: map<string, nat>, maxid: nat)

  /** The record `getMetainfo` creates when there is no metadata file. */
  const EmptyMeta := MetaRecord(map[], map[], 0)

  /** The two maps are inverse to each other and every id lies in `1..maxid`. */
  predicate WellFormed(m: MetaRecord) {
    (forall id :: id in m.idTitle ==> 1 <= id <= m.maxid && m.idTitle[id] in m.titleId && m.titleId[m.idTitle[id]] == id) &&
    (forall t :: t in m.titleId ==> m.titleId[t] in m.idTitle && m.idTitle[m.titleId[t]] == t)
  }

  /** What the index depends on but does not define: its `BasePath`, SHA-1, the
      segmenter's `CutSearch`, `strings.ToLower`, and the JSON encoding of `MetaInfo`. */
  datatype Env = Env(
    base: string,
    sha1: seq<byte> -> Digest,
    cutSearch: string -> seq<string>,
    toLower: string -> string,
    encodeMeta: MetaRecord -> seq<byte>,
    decodeMeta: seq<byte> -> MetaRecord)

  /** The disk, and the `meta` pointer in which a `LowSearch` caches the record once read. */
  datatype Store = Store(disk: Disk, cache: Option<MetaRecord>)

  /** Go's `m[k]` on a map of ids: 0 for a missing key. */
  function IdOf(m: map<string, nat>, t: string): nat {
    if t in m then m[t] else 0
  }

  /** The contents of a file, if it is one. */
  function FileAt(d: Disk, p: string): Option<seq<byte>> {
    if p in d.files then Some(d.files[p]) else None
  }

  function OrEmpty(o: Option<seq<byte>>): seq<byte> {
    if o.Some? then o.value else []
  }

  // ---- metadata ----

  /** The record a `LowSearch` works with: the cached one, else the one in meta.json,
      else the empty record it would create. */
  function CurrentMeta(env: Env, st: Store): MetaRecord {
    if st.cache.Some? then st.cache.value
    else match Read(st.disk, MetaPath(env.base))
      case Data(b) => env.decodeMeta(b)
      case _ => EmptyMeta
  }

  /** `getMetainfo`: the state afterwards and the record returned (none on a read error
      other than "does not exist"). */
  function Load(env: Env, st: Store): (Store, Option<MetaRecord>) {
    if st.cache.Some? then (st, st.cache)
    else match Read(st.disk, MetaPath(env.base))
      case Data(b) => (st.(cache := Some(env.decodeMeta(b))), Some(env.decodeMeta(b)))
      case NotExist =>
        (Store(Write(st.disk, MetaPath(env.base), env.encodeMeta(EmptyMeta)), Some(EmptyMeta)), Some(EmptyMeta))
      case IoError => (st, None)
  }

  /** The record after an insertion gives `title` the next id. */
  function WithTitle(m: MetaRecord, title: string): MetaRecord {
    var id := m.maxid + 1;
    MetaRecord(m.idTitle[id := title], m.titleId[title := id], id)
  }

  /** The record after `Delete(title)`: the title's id (0 when it has none) and the title
      are dropped from both maps; `maxid` stays. */
  function WithoutTitle(m: MetaRecord, title: string): MetaRecord {
    MetaRecord(m.idTitle - {IdOf(m.titleId, title)}, m.titleId - {title}, m.maxid)
  }

  /** `saveMeta`: the cached record written to meta.json. */
  function SaveMeta(env: Env, d: Disk, m: MetaRecord): Disk {
    Write(d, MetaPath(env.base), env.encodeMeta(m))
  }

  // ---- shards ----

  /** `writeIndex`: make the shard directory if needed, then write the shard file. */
  function WriteIndex(env: Env, d: Disk, h: Digest, data: seq<byte>): Disk {
    Write(EnsureDir(d, ShardDir(env.base, h)), ShardFile(env.base, h), data)
  }

  /** One term of an insertion: the shard's old contents (nothing unless it could be
      read) followed by the new entry `dc`. */
  function AppendPosting(env: Env, d: Disk, h: Digest, dc: seq<byte>): Disk {
    var prior := Read(d, ShardFile(env.base, h));
    WriteIndex(env, d, h, (if prior.Data? then prior.bytes else []) + dc)
  }

  /** `deleteIndex(h, id)`: nothing happens when the shard cannot be read; otherwise
      the filtered entries are written back, or the file is removed when none is left,
      and then the shard directory is removed if that left it empty. */
  function DeletePosting(env: Env, d: Disk, h: Digest, id: nat): Disk {
    var file, dir := ShardFile(env.base, h), ShardDir(env.base, h);
    match Read(d, file)
    case Data(b) =>
      var rest := Filter(b, DecimalBytes(id));
      var d1 := if rest == [] then Remove(d, file) else WriteIndex(env, d, h, rest);
      if DirIsEmpty(d1, dir) then Remove(d1, dir) else d1
    case _ => d
  }

  /** The digest of each term, as `getSha1([]byte(key))` computes it. */
  function TermDigests(env: Env, keys: seq<string>): (hs: seq<Digest>)
    ensures |hs| == |keys|
    ensures forall i :: 0 <= i < |keys| ==> hs[i] == env.sha1(Utf8(keys[i]))
  {
    if keys == [] then [] else TermDigests(env, keys[..|keys| - 1]) + [env.sha1(Utf8(keys[|keys| - 1]))]
  }

  /** The digest of each chunk of a keyword file, as `getSha1(key)` computes it. */
  function ChunkDigests(env: Env, pieces: seq<seq<byte>>): (hs: seq<Digest>)
    ensures |hs| == |pieces|
    ensures forall i :: 0 <= i < |pieces| ==> hs[i] == env.sha1(pieces[i])
  {
    if pieces == [] then [] else ChunkDigests(env, pieces[..|pieces| - 1]) + [env.sha1(pieces[|pieces| - 1])]
  }

  /** The posting loop of an insertion, over the terms in the order visited. */
  function AppendAll(env: Env, d: Disk, hs: seq<Digest>, dc: seq<byte>): Disk {
    if hs == [] then d else AppendPosting(env, AppendAll(env, d, hs[..|hs| - 1], dc), hs[|hs| - 1], dc)
  }

  /** The loop of `Delete` over the chunks of a keyword file. */
  function DeleteAll(env: Env, d: Disk, hs: seq<Digest>, id: nat): Disk {
    if hs == [] then d else DeletePosting(env, DeleteAll(env, d, hs[..|hs| - 1], id), hs[|hs| - 1], id)
  }

  /** The bytes of each term, as `buffer.WriteString(key)` writes them. */
  function TermTexts(keys: seq<string>): (ps: seq<seq<byte>>)
    ensures |ps| == |keys|
    ensures forall i :: 0 <= i < |keys| ==> ps[i] == Utf8(keys[i])
  {
    if keys == [] then [] else TermTexts(keys[..|keys| - 1]) + [Utf8(keys[|keys| - 1])]
  }

  // ---- operations ----

  /** `splitWord`: the indexable segments of the lower-cased text. */
  function SplitWordOf(env: Env, content: string): set<string> {
    TermSet(env.cutSearch(env.toLower(content)))
  }

  /** `order` lists each element of `terms` exactly once. */
  ghost predicate Enumerates(order: seq<string>, terms: set<string>) {
    Distinct(order) && forall k :: k in order <==> k in terms
  }

  /** One more term of `terms` visited: what is left shrinks and the visit order grows. */
  lemma VisitStep(terms: set<string>, pending: set<string>, order: seq<string>, key: string)
    requires pending <= terms && key in pending
    requires Distinct(order) && forall k :: k in order <==> k in terms && k !in pending
    ensures pending - {key} <= terms && |pending - {key}| < |pending|
    ensures Distinct(order + [key]) && forall k :: k in order + [key] <==> k in terms && k !in pending - {key}
  {
    var o := order + [key];
    forall i, j | 0 <= i < j < |o|
      ensures o[i] != o[j]
    {
      if j == |order| {
        assert o[i] == order[i];
      } else {
        assert o[i] == order[i] && o[j] == order[j];
      }
    }
  }

  /** The insertion branch of `InsertOrUpdate`, on a loaded state, for a title without
      an id: take the next id, map it to the title both ways, append it to the posting
      of every term (visited in `order`), write the keyword file, save the record. */
  function InsertNew(env: Env, st: Store, title: string, order: seq<string>): Store
    requires st.cache.Some?
  {
    var m := st.cache.value;
    var id := m.maxid + 1;
    var m1 := WithTitle(m, title);
    var d1 := AppendAll(env, st.disk, TermDigests(env, order), DecimalBytes(id) + [0]);
    var d2 := Write(d1, KeywordFile(env.base, id), Terminated(TermTexts(order), 0));
    Store(SaveMeta(env, d2, m1), Some(m1))
  }

  /** `Delete` on a loaded state: drop the title's id from both maps, read and remove
      its keyword file, and, only if that file could be read, delete the id from the
      shard of every chunk of it and save the record. */
  function DeleteLoaded(env: Env, st: Store, title: string): Store
    requires st.cache.Some?
  {
    var m := st.cache.value;
    var id := IdOf(m.titleId, title);
    var m1 := WithoutTitle(m, title);
    var kwp := KeywordFile(env.base, id);
    var kw := Read(st.disk, kwp);
    var d1 := Remove(st.disk, kwp);
    if !kw.Data? then Store(d1, Some(m1))
    else
      var d2 := DeleteAll(env, d1, ChunkDigests(env, Split(kw.bytes, 0)), id);
      Store(SaveMeta(env, d2, m1), Some(m1))
  }

  /** `Delete(title)`. */
  function DeleteOf(env: Env, st: Store, title: string): Store
    requires Load(env, st).1.Some?
  {
    var (st1, _) := Load(env, st);
    DeleteLoaded(env, st1, title)
  }

  /** The text `InsertOrUpdate(title, content)` finally splits into terms: a new title
      splits `title + " " + lower(title + " " + content)`; an existing one is deleted
      and re-inserted with the already lowered content, so one more round is added. */
  function IndexedText(env: Env, m: MetaRecord, title: string, content: string): string {
    var lowered := env.toLower(title + " " + content);
    if IdOf(m.titleId, title) == 0 then title + " " + lowered
    else title + " " + env.toLower(title + " " + lowered)
  }

  /** `InsertOrUpdate(title, content)`, the terms visited in `order`. */
  function InsertOrUpdateOf(env: Env, st: Store, title: string, order: seq<string>): Store
    requires Load(env, st).1.Some?
  {
    var (st1, _) := Load(env, st);
    if IdOf(st1.cache.value.titleId, title) == 0 then InsertNew(env, st1, title, order)
    else
      var st2 := DeleteLoaded(env, st1, title);
      InsertNew(env, st2, title, order)
  }

  /** The ids a shard holds for a term, and whether its shard could be read at all. */
  function ShardIds(env: Env, d: Disk, k: string): seq<nat> {
    var r := Read(d, ShardFile(env.base, env.sha1(Utf8(k))));
    if r.Data? then Decode(r.bytes) else []
  }

  predicate Found(env: Env, d: Disk, k: string) {
    Read(d, ShardFile(env.base, env.sha1(Utf8(k)))).Data?
  }

  /** The ids listed in the shard of every term whose shard can be read (none when no
      shard can be read): what `intersection` keeps. */
  ghost function Matches(env: Env, d: Disk, terms: set<string>): set<int> {
    set k, x | k in terms && Found(env, d, k) && x in ShardIds(env, d, k) &&
      (forall k' :: k' in terms && Found(env, d, k') ==> x in ShardIds(env, d, k')) :: x
  }

  /** `meta.IdTitle[v]`: the empty string for an id without a title. */
  function TitleOf(m: MetaRecord, v: int): string {
    if v >= 0 && v as nat in m.idTitle then m.idTitle[v as nat] else ""
  }

  /** The title of each id, in order. */
  function Titles(m: MetaRecord, ids: seq<int>): (ts: seq<string>)
    ensures |ts| == |ids|
    ensures forall i :: 0 <= i < |ids| ==> ts[i] == TitleOf(m, ids[i])
  {
    if ids == [] then [] else Titles(m, ids[..|ids| - 1]) + [TitleOf(m, ids[|ids| - 1])]
  }

  /** `Search(keyword)` on disk `d` with record `m`: with no terms, every title, newest
      (largest id) first; otherwise the titles of the matching ids, newest first. */
  ghost function SearchResult(env: Env, d: Disk, m: MetaRecord, keyword: string): seq<string> {
    var sw := SplitWordOf(env, keyword);
    if sw == {} then Titles(m, Descending(set id | id in m.idTitle :: id as int))
    else Titles(m, Descending(Matches(env, d, sw)))
  }

  /** `Init`: the root, keyword and index directories. */
  function InitDisk(env: Env, d: Disk): Disk {
    var d1 := EnsureDir(d, RootPath(env.base));
    var d2 := EnsureDir(d1, KeywordPath(env.base));
    EnsureDir(d2, IndexPath(env.base))
  }

  // ---- the layout every operation keeps ----

  /** Nothing stands in the way of the index's own files and directories: in
      particular no directory above `BasePath` is a regular file. */
  ghost predicate Clean(env: Env, d: Disk) {
    DiskOk(d) &&
    (forall q {:trigger q in Ancestors(env.base)} :: q in Ancestors(env.base) ==> q !in d.files) &&
    MetaPath(env.base) !in d.dirs &&
    KeywordFile(env.base, 0) !in d.files &&
    (forall h: Digest :: ShardDir(env.base, h) !in d.files) &&
    (forall h: Digest :: ShardFile(env.base, h) !in d.dirs) &&
    (forall n: nat :: KeywordFile(env.base, n) !in d.dirs)
  }

  /** After `Init`: the three directories exist and nothing is in the way. */
  ghost predicate Layout(env: Env, d: Disk) {
    Clean(env, d) &&
    RootPath(env.base) in d.dirs && IndexPath(env.base) in d.dirs && KeywordPath(env.base) in d.dirs
  }

  // ---- one more step of each loop ----

  lemma TermsSnoc(env: Env, order: seq<string>, key: string)
    ensures TermDigests(env, order + [key]) == TermDigests(env, order) + [env.sha1(Utf8(key))]
    ensures TermTexts(order + [key]) == TermTexts(order) + [Utf8(key)]
    ensures Terminated(TermTexts(order + [key]), 0) == Terminated(TermTexts(order), 0) + Utf8(key) + [0]
  {
    assert (order + [key])[..|order|] == order;
    var ps := TermTexts(order) + [Utf8(key)];
    assert ps[..|ps| - 1] == TermTexts(order);
  }

  lemma ChunkDigestsSnoc(env: Env, pieces: seq<seq<byte>>, i: nat)
    requires i < |pieces|
    ensures ChunkDigests(env, pieces[..i + 1]) == ChunkDigests(env, pieces[..i]) + [env.sha1(pieces[i])]
  {
    assert pieces[..i + 1][..i] == pieces[..i];
  }

  lemma AppendAllSnoc(env: Env, d: Disk, hs: seq<Digest>, h: Digest, dc: seq<byte>)
    ensures AppendAll(env, d, hs + [h], dc) == AppendPosting(env, AppendAll(env, d, hs, dc), h, dc)
  {
    assert (hs + [h])[..|hs|] == hs;
  }

  lemma DeleteAllSnoc(env: Env, d: Disk, hs: seq<Digest>, h: Digest, id: nat)
    ensures DeleteAll(env, d, hs + [h], id) == DeletePosting(env, DeleteAll(env, d, hs, id), h, id)
  {
    assert (hs + [h])[..|hs|] == hs;
  }
}
