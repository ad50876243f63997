# WebMark search, login and session core in Dafny

WebMark is a Markdown notebook server. This project models its core:

- **`LowSearch`**, the file-backed inverted index of `webmark-backend/search/mod.go`
  (modules `LowSearchEngine`, `LowSearchSpec`, `LowSearchProps`, `LowSearchIndex`, `Disks`,
  `SearchPaths`, `Postings`, `Terms`).
  - The index lives under `<BasePath>/<IndexDir>`.
  - `meta.json` maps titles to ids and back and stores the largest id.
  - `keyword/<id>` lists the terms of document `id`, each followed by a 0 byte.
  - `index/<h0>/<h1..h19>` is the posting file (shard) of the term with SHA-1 digest
    `h`: decimal ids, each followed by a 0 byte.
  - The class `LowSearch` keeps the `meta` cache as a field. The disk is a
    `FileSystem` object, and every method is proved to change the two exactly as a
    function of `LowSearchSpec` says.
  - `LowSearchIndex` states the invariant that ties the three kinds of file together:
    every shard lists ids entry by entry, every id a shard lists has a keyword file that
    names that shard's digest, and every keyword file belongs to an id with a title.
    `Init` sets it up, and `getMetainfo`, `Delete`, `InsertOrUpdate` and `Search` keep
    it. The class's `Valid()` is this invariant.
- **`BaseSearchEngine`**, the in-memory index of `search/mod.go` (modules `MemSearch` and
  `MemSearchProps`).
  - It holds a key → id map, its reverse, a term → set-of-ids posting map and a counter.
  - `InsertOrUpdate`, `Delete` and `Search` are methods over that record, proved
    against functions.
- **The shared `intersection`** routine and the descending sort of results (module
  `Intersect`).
- **The login lockout and the sessions of `main.go`** (modules `Server` and
  `ServerProps`).
  - `loginErr`, `loginRecordClear`, the lockout check of `login`, the expiry and
    `/markdown/<name>/` rules of `Auth`, and the hourly sweep of `Job`.
  - These are methods of a class `WebMark` whose fields are `user_map`, `loginRecord`
    and `session_map`. The clock is a parameter `now` in Unix seconds.
- **The request helpers** `GetPathList`, `IsStatic` and `splitWord` of
  `webmark-backend/main.go` (module `WebHelpers`). `GetPathList` of the root `main.go`
  is the same function.
- **The cookie lookup** `getCookieValue` / `getUsername` of
  `page/static/js/webmark.common.js` (module `Cookies`).
- **Go's and JavaScript's library behaviour**, in modules `Seqs`, `Text` and `Wrappers`.
  - Go: `strings.Split`, `bytes.Split`, `strings.Trim`, `strings.TrimPrefix`,
    `strings.HasPrefix`/`HasSuffix`/`Contains`, `[]byte(s)` as UTF-8, `fmt.Sprint` of an
    id, and a Go map seen as a set of keys.
  - JavaScript: `String.prototype.trim`.

The parts the core calls but does not define are parameters: SHA-1, the segmenter's
`CutSearch`, `strings.ToLower`, the JSON coding of `MetaInfo`, bcrypt's `Verify`, and
`Uuid()`.

## Model

| member | source | states |
|---|---|---|
| Seqs.Split | webmark-backend/search/mod.go:300 | `bytes.Split`/`strings.Split` on one separator: at least one piece, and no piece contains the separator |
| Seqs.JoinSplit | main.go:71-74 | joining the pieces of a split with the separator gives back the input |
| Seqs.SplitJoin | main.go:71-74 | splitting separator-free pieces joined with the separator gives back the pieces |
| Seqs.ChunksTerminated | webmark-backend/search/mod.go:254-257 | the 0-terminated pieces written into a keyword or shard file are read back as those pieces |
| Seqs.TerminatedChunks | webmark-backend/search/mod.go:300 | a well-terminated byte string is the terminated list of its chunks |
| Seqs.WithoutAbsent | webmark-backend/search/mod.go:124-140 | removing an id that does not occur changes nothing |
| Seqs.WithoutSnoc | webmark-backend/search/mod.go:124-140 | removing an id from a list extended by one element drops that element exactly when it is the id |
| Seqs.Elements | search/mod.go:79-85 | `getKeys`: every element of the map's key set exactly once, and nothing else |
| Text.TrimPrefix | main.go:72 | `strings.TrimPrefix`: the prefix is cut off exactly when present; otherwise the string is unchanged |
| Text.TrimMeaning | webmark-backend/search/mod.go:225 | `strings.Trim` gives "" exactly when every character is in the cutset; otherwise neither end of the result is in the cutset, and the result occurs in the input |
| Text.TrimLeftSuffix | webmark-backend/search/mod.go:225 | the left trim keeps a suffix of its input |
| Text.TrimRightPrefix | webmark-backend/search/mod.go:225 | the right trim keeps a prefix of its input |
| Text.Utf8 | webmark-backend/search/mod.go:229 | `[]byte(s)`/`len(k)`: the UTF-8 encoding, between one and four bytes per character, with a 0 byte exactly for a NUL character |
| Text.DecimalRoundTrip | webmark-backend/search/mod.go:389-398 | the decoder's `t*10 + (v-'0')`, wrapping byte subtraction included, gives back an id from its `fmt.Sprint` digits |
| Text.DecimalInjective | webmark-backend/search/mod.go:261 | different ids have different decimal texts |
| Disks.Read | webmark-backend/search/mod.go:84-91 | `os.ReadFile`: the contents of a file; "does not exist" exactly when the path is no file, no directory and no directory on the way to it is a regular file; any other error otherwise |
| Disks.MkdirAllMakes | webmark-backend/search/mod.go:57-62 | `os.MkdirAll` makes `p` a directory when no path on the way up is a file |
| Disks.DiskOkKept | webmark-backend/search/mod.go:65-72 | writing, making directories and removing keep files and directories apart |
| Disks.Remove | webmark-backend/search/mod.go:296 | `os.Remove` deletes a file or an empty directory and leaves anything else |
| SearchPaths.ParentsOfPaths | webmark-backend/search/mod.go:99-104 | each layout path (root, index, keyword, meta.json, shard directory, shard file, keyword file) lies directly inside the one above it |
| SearchPaths.ShardFileInjective | webmark-backend/search/mod.go:99-111 | different digests are stored in different shard files |
| SearchPaths.ShardDirInjective | webmark-backend/search/mod.go:100 | the first shard level has one directory per first digest byte |
| SearchPaths.KeywordFileInjective | webmark-backend/search/mod.go:272 | different ids have different keyword files |
| SearchPaths.HexInjective | webmark-backend/search/mod.go:102 | `hex.EncodeToString` is injective on byte strings of one length |
| Postings.DecodeEncode | webmark-backend/search/mod.go:389-398 | decoding a shard written for `ids` gives back `ids` |
| Postings.EncodeAppend | webmark-backend/search/mod.go:261-268 | appending an entry to the shard of `ids` gives the shard of `ids + [id]` |
| Postings.DecodeAppend | webmark-backend/search/mod.go:261-268 | appending an entry to any well-terminated shard adds `id` at the end of what is decoded |
| Postings.FilterEncode | webmark-backend/search/mod.go:124-140 | the delete filter on the shard of `ids` gives the shard of `ids` without `id`: every occurrence goes, every other id stays in order |
| Postings.FilterEmpty | webmark-backend/search/mod.go:141-149 | the filtered shard is empty, so the file is removed, exactly when every entry was `id` |
| Postings.FilterTerminated | webmark-backend/search/mod.go:124-140 | what the filter writes back is again well terminated |
| Postings.FilterTwice | webmark-backend/search/mod.go:124-140 | filtering the same id out twice gives what filtering it once gives |
| Postings.FilterAppend | webmark-backend/search/mod.go:115-151 | deleting an id just appended to a shard that did not list it restores the shard |
| Terms.TermSet | webmark-backend/search/mod.go:217-235 | the distinct segments, untrimmed, whose trimmed form is non-empty and at most 10 UTF-8 bytes |
| Terms.SplitSegments | webmark-backend/search/mod.go:217-235 | the dedup loop of `splitWord` computes exactly `TermSet` of the segments |
| Intersect.MinCountPositive | webmark-backend/search/mod.go:317-342 | the count kept for an element stays positive exactly when it occurs in every slice |
| Intersect.CountOccurrences | search/mod.go:38-41 | the counting loop maps every element to its number of occurrences, and nothing else |
| Intersect.Intersection | search/mod.go:28-77 | nothing for no slices; otherwise each element that occurs in every slice, exactly once, and nothing else |
| Intersect.SortDescending | webmark-backend/search/mod.go:404-406 | `sort.Slice` with `>`: the same multiset of elements, in non-increasing order |
| Intersect.SortDescendingDistinct | webmark-backend/search/mod.go:401-406 | sorting distinct ids largest first gives the descending order of their set |
| Intersect.StrictlyDecreasingUnique | webmark-backend/search/mod.go:372-374 | a strictly decreasing sequence is determined by its set of elements |
| LowSearchSpec.TermDigests | webmark-backend/search/mod.go:258 | the digest of each term is SHA-1 of its UTF-8 bytes |
| LowSearchSpec.Titles | webmark-backend/search/mod.go:408-410 | one title per id, `IdTitle[v]` or "" for an id without one |
| LowSearchEngine.WriteFile | webmark-backend/search/mod.go:65-72 | `writeFile` changes the disk as `Write` says |
| LowSearchEngine.ReadFile | webmark-backend/search/mod.go:84-91 | `readFile` returns the contents exactly for a file, a not-exist error for a missing path, and another error for a directory or a path below a regular file; it changes nothing |
| LowSearchEngine.HandEmptyDir | webmark-backend/search/mod.go:57-62 | an existing path is left alone; any other path is made with `MkdirAll` |
| LowSearchEngine.IsDirEmptyAt | webmark-backend/search/mod.go:34-54 | true only for an existing directory without entries |
| LowSearchEngine.RemovePath | webmark-backend/search/mod.go:150 | `os.Remove` changes the disk as `Remove` says |
| LowSearchEngine.DecodePostings | webmark-backend/search/mod.go:389-398 | the decoder loop gives one id per 0 byte, as `Decode` says |
| LowSearchEngine.FilterPostings | webmark-backend/search/mod.go:124-140 | the filter loop gives the chunks other than `idb`, each followed by 0 |
| LowSearchEngine.KeysOf | webmark-backend/search/mod.go:367-370 | the ids of `IdTitle`, each exactly once |
| LowSearchEngine.TitlesOf | webmark-backend/search/mod.go:407-410 | `IdTitle[v]` for each id, in order |
| LowSearchEngine.ListAll | webmark-backend/search/mod.go:365-380 | an empty query lists the titles of all ids, largest id first |
| LowSearchEngine.IntersectionMatches | webmark-backend/search/mod.go:382-401 | the intersection of the readable shards of the query's terms is exactly the matching ids |
| LowSearchEngine.LowSearch.GetMetainfo | webmark-backend/search/mod.go:166-192 | returns and caches the cached record, else the one in meta.json, else creates and writes the empty one; a read error other than absence (meta.json a directory, or a regular file on the way to it) gives nil |
| LowSearchEngine.LowSearch.GetNextId | webmark-backend/search/mod.go:198-202 | the loaded record's `Maxid + 1`, which becomes the new `Maxid` |
| LowSearchEngine.LowSearch.SaveMetaFile | webmark-backend/search/mod.go:204-207 | meta.json is rewritten with the cached record |
| LowSearchEngine.LowSearch.Init | webmark-backend/search/mod.go:210-214 | the root, keyword and index directories are made where missing; on a disk the index has not stored anything on yet, this establishes `Valid()` |
| LowSearchEngine.LowSearch.ReadIndex | webmark-backend/search/mod.go:107-112 | reads the shard file of the digest |
| LowSearchEngine.LowSearch.WriteIndexFile | webmark-backend/search/mod.go:99-104 | makes the shard directory and writes the shard file |
| LowSearchEngine.LowSearch.DeleteIndex | webmark-backend/search/mod.go:115-151 | fails exactly when the shard does not exist; otherwise filters out the id, removes an emptied file, and removes an emptied directory |
| LowSearchEngine.LowSearch.SplitWord | webmark-backend/search/mod.go:217-235 | `splitWord`: the indexable segments of the lower-cased text |
| LowSearchEngine.LowSearch.InsertOrUpdate | webmark-backend/search/mod.go:238-284 | a new title gets the next id and postings; an existing one is deleted and reinserted with the twice-prefixed, re-lowered text; each term is visited once; `Valid()` is kept when no term holds a 0 byte |
| LowSearchEngine.LowSearch.InsertNewDoc | webmark-backend/search/mod.go:243-275 | the insertion branch: next id, both maps, an appended posting per term, keyword file, saved record |
| LowSearchEngine.LowSearch.PostTerms | webmark-backend/search/mod.go:254-270 | the term loop appends `<id>\0` to every term's shard and builds the keyword buffer of the visited terms |
| LowSearchEngine.LowSearch.PostTerm | webmark-backend/search/mod.go:258-269 | one term: the shard gains `<id>\0` after whatever of it could be read, and is created when missing |
| LowSearchEngine.LowSearch.DeleteChunks | webmark-backend/search/mod.go:302-305 | the loop of `Delete`: the id leaves the shard of every chunk's digest, in order |
| LowSearchEngine.LowSearch.Delete | webmark-backend/search/mod.go:287-307 | drops the title from both maps, removes its keyword file, and removes the id from the shard of every listed term when that file could be read; `Valid()` is kept |
| LowSearchEngine.LowSearch.Search | webmark-backend/search/mod.go:362-413 | the titles `SearchResult` gives; the only state change is the one `getMetainfo` makes, so `Valid()` is kept; it needs the record only when the query has no terms or some id matches |
| LowSearchEngine.LowSearch.CollectPostings | webmark-backend/search/mod.go:382-400 | one decoded list per term whose shard could be read; unreadable shards are skipped |
| LowSearchProps.PathsApart | webmark-backend/search/mod.go:154-196 | the layout paths never coincide |
| LowSearchProps.WriteIndexEffect | webmark-backend/search/mod.go:99-104 | on a laid-out disk the shard directory exists afterwards, and the shard file holds exactly `data`; nothing else changes |
| LowSearchProps.KeywordWriteEffect | webmark-backend/search/mod.go:272-273 | writing a keyword file changes only that file |
| LowSearchProps.KeywordRemoveEffect | webmark-backend/search/mod.go:294-296 | removing a keyword file changes only that file |
| LowSearchProps.KeywordRemovedEffect | webmark-backend/search/mod.go:294-296 | removing keyword file `id` leaves every other keyword file, every shard and meta.json as they were |
| LowSearchProps.MetaWriteEffect | webmark-backend/search/mod.go:204-207 | writing meta.json changes only that file |
| LowSearchProps.DeletePostingEffect | webmark-backend/search/mod.go:115-151 | `deleteIndex` changes only the shard's file, as `Filtered` says, and at most its directory |
| LowSearchProps.DeletePostingLayout | webmark-backend/search/mod.go:115-151 | `deleteIndex` keeps the index's directories and keeps its files apart from them |
| LowSearchProps.FilteredTwice | webmark-backend/search/mod.go:115-151 | deleting the same id from a shard twice leaves what deleting it once leaves |
| LowSearchProps.AppendPostingEffect | webmark-backend/search/mod.go:258-269 | one append on a laid-out disk: that shard becomes what it held (nothing when absent) followed by the entry; every other shard, every keyword file and meta.json stay, and so does the layout |
| LowSearchProps.DeletePostingCleansUp | webmark-backend/search/mod.go:141-149 | a shard left without entries loses its file, and its directory too when that is now empty |
| LowSearchProps.DeletePostingKeepsDir | webmark-backend/search/mod.go:141-149 | the directory of a shard that still has entries is kept |
| LowSearchProps.AppendAllEffect | webmark-backend/search/mod.go:255-270 | the posting loop appends `dc` to the shard of every digest (an absent one starts empty) and touches no keyword file and not meta.json |
| LowSearchProps.DeleteAllEffect | webmark-backend/search/mod.go:302-305 | the loop of `Delete` filters the shard of every digest and touches no keyword file and not meta.json |
| LowSearchProps.DeleteSavedEffect | webmark-backend/search/mod.go:302-306 | the loop of `Delete` and `saveMeta`: the listed shards filtered, meta.json holding the record, no keyword file changed |
| LowSearchProps.DeleteUnknownUnchanged | webmark-backend/search/mod.go:287-307 | deleting a title the loaded record does not hold changes nothing: its id is 0, which no title has and no keyword file is stored under |
| LowSearchProps.DeleteOfUnknown | webmark-backend/search/mod.go:287-307 | `Delete` of a title the record does not hold leaves the state as `getMetainfo` left it |
| LowSearchProps.UnknownNotListed | webmark-backend/search/mod.go:362-413 | a non-empty title that a well-formed record does not hold is in no search result |
| LowSearchProps.DeletedNotListed | webmark-backend/search/mod.go:287-413 | after `Delete(title)` no query lists the title |
| LowSearchProps.WithTitleMeta | webmark-backend/search/mod.go:246-249 | an insertion gives the title an id larger than every id in use and keeps every other title's id |
| LowSearchProps.WithoutTitleMeta | webmark-backend/search/mod.go:288-291 | a deletion drops the title and its id and keeps every other title's id |
| LowSearchProps.WithoutWithTitle | webmark-backend/search/mod.go:243-291 | deleting a just-inserted title restores the record, except that its id is never handed out again |
| LowSearchProps.UpdateMeta | webmark-backend/search/mod.go:276-282 | an update moves the title to a new, larger id |
| LowSearchProps.InsertNewEffect | webmark-backend/search/mod.go:243-275 | a new document: the next id, the title in both maps, the id appended to every term's shard, the keyword file listing the terms, the record saved |
| LowSearchProps.DeleteLoadedEffect | webmark-backend/search/mod.go:287-307 | `Delete` on a loaded state: both maps lose the title, the keyword file goes, every listed term's shard is filtered, and the record is saved |
| LowSearchProps.KeywordPieces | webmark-backend/search/mod.go:300 | `bytes.Split` of a keyword file gives the digests of its terms, then that of one empty piece, when terms have no 0 byte |
| LowSearchProps.InsertThenDelete | webmark-backend/search/mod.go:243-307 | inserting a new document and deleting it again restores the record (with `maxid` moved on), meta.json, every shard and every keyword file, given no keyword file yet for the new id, absent or clean shards, no shard for the empty piece, no digest collisions and terms without 0 bytes |
| LowSearchProps.DeleteAfterInsert | webmark-backend/search/mod.go:287-307 | deleting the title from any state an insertion may have left restores every shard and keyword file, when the keyword file reads back as the term digests and that of the empty piece |
| LowSearchProps.MatchesMeaning | webmark-backend/search/mod.go:382-401 | an id matches exactly when some term's shard can be read and every readable shard of the terms lists it |
| LowSearchProps.MissingTermSkipped | webmark-backend/search/mod.go:386-388 | a term without a shard is skipped, as if it were not in the query |
| LowSearchProps.InsertNewIndexes | webmark-backend/search/mod.go:255-270 | after an insertion, the shard of every term of the document can be read and ends with the new id |
| LowSearchProps.InsertedIsFound | webmark-backend/search/mod.go:238-413 | after an insertion, a query made only of terms of the new document finds its title |
| LowSearchProps.AllTitles | webmark-backend/search/mod.go:365-380 | every id of a well-formed record, newest first, gives every title exactly once |
| LowSearchProps.EmptyQueryListsAll | webmark-backend/search/mod.go:365-380 | a query without terms lists every title exactly once |
| LowSearchProps.QueryListsMatches | webmark-backend/search/mod.go:382-411 | a query with terms lists the titles of the matching ids, newest first |
| LowSearchProps.LoadEffect | webmark-backend/search/mod.go:166-192 | `getMetainfo` on a laid-out disk returns the current record and caches it; it writes meta.json only when there was neither a cache nor the file |
| LowSearchProps.LoadFails | webmark-backend/search/mod.go:183-185 | `getMetainfo` fails exactly when nothing is cached, meta.json is no file, and it is a directory or a regular file is on the way to it |
| LowSearchProps.MetaReachable | webmark-backend/search/mod.go:183-185 | on a laid-out disk no directory on the way to meta.json is a regular file |
| LowSearchProps.LoadSucceeds | webmark-backend/search/mod.go:166-192 | on a laid-out disk `getMetainfo` never fails |
| LowSearchProps.LoadCached | webmark-backend/search/mod.go:167-169 | once loaded, loading again changes nothing and returns the same record |
| LowSearchProps.InitLayout | webmark-backend/search/mod.go:210-214 | `Init` on a disk with nothing in the way gives the layout |
| LowSearchProps.InitKeepsLayout | webmark-backend/search/mod.go:210-214 | `Init` on a laid-out disk changes nothing |
| LowSearchIndex.ShardIdsAt | webmark-backend/search/mod.go:386-398 | the ids a query term reads are the ids its shard lists |
| LowSearchIndex.AppendEncoded | webmark-backend/search/mod.go:261-268 | appending an entry to a shard written entry by entry keeps it so, and lists the new id last |
| LowSearchIndex.FilteredEncoded | webmark-backend/search/mod.go:124-149 | `deleteIndex` on a shard written entry by entry keeps it so, and lists the same ids without `id` |
| LowSearchIndex.AppendAllFrame | webmark-backend/search/mod.go:255-270 | the posting loop, for digests that may repeat, changes only the shards of those digests, and no keyword file and not meta.json |
| LowSearchIndex.AppendAllKeeps | webmark-backend/search/mod.go:255-270 | the posting loop of `id` keeps every shard written entry by entry, makes every visited shard list `id`, and adds no other id anywhere |
| LowSearchIndex.InsertNewShards | webmark-backend/search/mod.go:243-275 | an insertion writes the keyword file of the new id, leaves every other one, and the shards list nothing new but the new id, which every term's shard lists |
| LowSearchIndex.InsertIndexed | webmark-backend/search/mod.go:243-275 | a new keyword file naming every shard that gained the new id, with nothing else changed, keeps the invariant |
| LowSearchIndex.InsertNewKeeps | webmark-backend/search/mod.go:243-275 | inserting a new title keeps the invariant, for terms without a 0 byte |
| LowSearchIndex.DeleteIndexed | webmark-backend/search/mod.go:287-307 | removing the keyword file of `id` and filtering every shard it names keeps the invariant and leaves `id` in no shard |
| LowSearchIndex.DeleteShards | webmark-backend/search/mod.go:302-305 | after a deletion every shard is still written entry by entry, lists only ids it listed before, and never `id` |
| LowSearchIndex.DeleteShard | webmark-backend/search/mod.go:115-151 | one shard after a deletion: written entry by entry, without `id`, listing only ids it listed before |
| LowSearchIndex.DeleteLoadedKeeps | webmark-backend/search/mod.go:287-307 | `Delete` on a loaded state keeps the invariant, and its id is left in no shard |
| LowSearchIndex.LoadKeeps | webmark-backend/search/mod.go:166-192 | `getMetainfo` keeps the invariant and returns the record it is about |
| LowSearchIndex.DeleteKeeps | webmark-backend/search/mod.go:287-307 | `Delete` keeps the invariant |
| LowSearchIndex.InsertOrUpdateKeeps | webmark-backend/search/mod.go:238-284 | `InsertOrUpdate`, both the insertion and the update branch, keeps the invariant, for terms without a 0 byte |
| LowSearchIndex.SearchKeeps | webmark-backend/search/mod.go:362-413 | `Search` keeps the invariant |
| LowSearchIndex.ListedKnown | webmark-backend/search/mod.go:386-398 | under the invariant every id a shard lists has a title |
| LowSearchIndex.SearchListsTitles | webmark-backend/search/mod.go:362-413 | under the invariant every title a search lists is a title of the record, never the "" of an id without one |
| LowSearchIndex.ResultTitlesKnown | webmark-backend/search/mod.go:365-411 | when every listed id has a title, every listed title is one of the record's |
| LowSearchIndex.MatchesKnown | webmark-backend/search/mod.go:382-401 | when every listed id has a title, so has every id a query matches |
| LowSearchIndex.DeleteLoadedForgets | webmark-backend/search/mod.go:287-307 | after `Delete(title)` on a loaded state, neither the title nor its id is in the record, the id has no keyword file, and no shard lists it |
| LowSearchIndex.DeleteForgets | webmark-backend/search/mod.go:287-307 | the same for `Delete` on any state that keeps the invariant |
| LowSearchIndex.UpdateMovesTitle | webmark-backend/search/mod.go:238-284 | updating a title moves it to `Maxid + 1`, larger than every id before; the old id is in no map, has no keyword file, and no shard lists it |
| LowSearchIndex.InsertKeepsAbsent | webmark-backend/search/mod.go:243-275 | an insertion leaves an id other than the new one without a keyword file and out of every shard, when it was so before |
| LowSearchIndex.InitConsistent | webmark-backend/search/mod.go:210-214 | `Init` on a disk with nothing of the index stored on it and nothing in the way of its directories, before any record is loaded, establishes the invariant |
| MemSearch.CollectPostings | search/mod.go:156-168 | one slice per kept query term that has a posting, holding that posting's ids |
| MemSearch.IntersectionMatches | search/mod.go:169 | the intersection of those slices is exactly the ids the query matches |
| MemSearch.BaseSearchEngine.constructor | search/mod.go:87-96 | a zero-valued engine: empty maps and `MaxIndex` 0 |
| MemSearch.BaseSearchEngine.IsEmpty | search/mod.go:118-123 | true exactly when `Index` has no term |
| MemSearch.BaseSearchEngine.KeyExists | search/mod.go:126-132 | true exactly when the key is in `Keys` |
| MemSearch.BaseSearchEngine.InsertOrUpdate | search/mod.go:177-220 | a new key gets `MaxIndex + 1` and is posted under every kept trimmed segment; an existing key is deleted and reinserted with the lowered text prefixed by the key again |
| MemSearch.BaseSearchEngine.Delete | search/mod.go:222-230 | a present key leaves both key maps and every posting, and no term is dropped; an absent key changes nothing |
| MemSearch.BaseSearchEngine.Search | search/mod.go:146-175 | no segments: every key exactly once; otherwise the ids in every selected posting, each once, mapped through `RKeys` ("" for a missing id) |
| MemSearchProps.EmptyStorageValid | search/mod.go:87-96 | the zero-valued engine is empty, has no key and keeps the invariant |
| MemSearchProps.InsertOrUpdateKeys | search/mod.go:192-200 | the key gets `MaxIndex + 1`, larger than every id in use; an existing key loses its old id |
| MemSearchProps.InsertOrUpdatePostings | search/mod.go:201-213 | the terms become the old ones plus those of the indexed text; an id is in a posting afterwards exactly when it was there before and is not the key's old id, or it is the new id and the term is one of the text |
| MemSearchProps.ValidDelete | search/mod.go:222-230 | `Delete` keeps the invariant (inverse key maps, ids in `1..MaxIndex`, posted ids have a key) |
| MemSearchProps.ValidInsertOrUpdate | search/mod.go:177-220 | `InsertOrUpdate` keeps the invariant |
| MemSearchProps.DeleteEffect | search/mod.go:222-230 | an absent key changes nothing; a present one loses its key and id, its id leaves every posting, and the terms and `MaxIndex` stay |
| MemSearchProps.InsertThenDelete | search/mod.go:195-230 | deleting a key just inserted restores both key maps and every posting's ids; only empty postings and `MaxIndex` remain changed |
| MemSearchProps.DeleteAfterInsert | search/mod.go:195-230 | the same for any set of posted terms: both key maps restored, each old posting restored, each new one empty |
| MemSearchProps.UnknownTermIgnored | search/mod.go:158-167 | a filtered-out segment or one without a posting does not change what a query selects |
| MemSearchProps.FilteredQueryFindsNothing | search/mod.go:149-169 | a query whose segments are all filtered out finds nothing, unlike a query without segments |
| MemSearchProps.SelectedNonEmpty | search/mod.go:165-167 | a kept query term with a posting selects at least one posting |
| MemSearchProps.InsertedIsFound | search/mod.go:146-220 | after `InsertOrUpdate`, a query whose kept segments are all terms of the indexed text, with at least one, finds the key |
| MemSearchProps.DeletedNotFound | search/mod.go:146-230 | after `Delete`, no query finds the key's old id |
| WebHelpers.GetPathList | webmark-backend/main.go:92-95 | at least one part, and no part contains `/` |
| WebHelpers.GetPathListJoin | main.go:71-74 | joining the parts with `/` gives the path without its prefix; the prefix and the joined parts give the path; without the prefix the whole path was split |
| WebHelpers.GetPathListParts | webmark-backend/main.go:92-95 | a route prefix followed by `/`-free parts joined with `/` splits back into those parts |
| WebHelpers.StaticDirectories | webmark-backend/main.go:1137-1138 | `/` and every path containing `/static/` are static |
| WebHelpers.StaticByName | webmark-backend/main.go:1139-1148 | any other path is static exactly when it ends in one of the seven listed names |
| WebHelpers.StaticExamples | webmark-backend/main.go:1136-1149 | an API route is not static; an asset and a page are |
| WebHelpers.SplitWord | webmark-backend/main.go:890-912 | no duplicates; a segment is emitted, untrimmed, exactly when its trimmed form is non-empty and at most 10 bytes; no segments give nothing |
| Cookies.TrimStart | page/static/js/webmark.common.js:4 | no longer than the input, and does not start with white space |
| Cookies.TrimStartSuffix | page/static/js/webmark.common.js:4 | the result is a suffix of the input, and everything removed before it is white space |
| Cookies.TrimEnd | page/static/js/webmark.common.js:4 | no longer than the input, and does not end with white space |
| Cookies.TrimEndPrefix | page/static/js/webmark.common.js:4 | the result is a prefix of the input, and everything removed after it is white space |
| Cookies.GetCookieValue | page/static/js/webmark.common.js:1-10 | the value of the first entry named `cookieName`, or `null` |
| Cookies.FirstValue | page/static/js/webmark.common.js:3-9 | the loop gives what `Lookup` gives on the entries, returning at the first match |
| Cookies.GetUsername | page/static/js/webmark.common.js:12-14 | the value of the `username` cookie |
| Cookies.LookupFirst | page/static/js/webmark.common.js:3-9 | `null` exactly when no trimmed entry starts with `name=`; otherwise the value of the first such entry |
| Cookies.CookieValueJoin | page/static/js/webmark.common.js:2 | entries joined with `;` are looked up entry by entry |
| Cookies.EntryValue | page/static/js/webmark.common.js:4-6 | ` name=value` belongs to `name` and gives `value`, including the empty value |
| Cookies.LookupSkips | page/static/js/webmark.common.js:3-8 | entries for other names before the first match do not matter |
| Cookies.LookupExample | page/static/js/webmark.common.js:1-10 | `username=v` after other cookies gives `v`, and a later second entry is ignored |
| Server.WebMark.constructor | main.go:48-50 | the given users; no failed-login records and no sessions |
| Server.WebMark.LoginErr | main.go:88-99 | `loginRecord` becomes `Failed`; the sessions and users stay |
| Server.WebMark.StaleUsers | main.go:103-109 | the collected names are exactly those of the locked records whose last attempt is more than a day old |
| Server.WebMark.LoginRecordClear | main.go:102-114 | `loginRecord` becomes `Cleared`; the sessions and users stay |
| Server.WebMark.Login | main.go:117-157 | the tables and outcome `LoginOf` gives: an unknown user, a lockout, a session, or a wrong password |
| Server.WebMark.Auth | main.go:627-669 | the session table and answer `AuthOf` gives; `ok` exactly when a session is returned |
| Server.WebMark.Job | main.go:889-907 | the sessions become `Swept`, then `loginRecord` becomes `Cleared` |
| Server.WebMark.SweepSessions | main.go:897-903 | the sessions become `Swept`; the login records and users stay |
| ServerProps.FailedEffect | main.go:88-99 | a failure stamps the user's record with `now` and adds one attempt, starting at one; every other record stays |
| ServerProps.ClearedEffect | main.go:102-114 | the cleanup removes exactly the records with `Count > 3` and `LastTime < now - 86400`, and leaves the rest as they were |
| ServerProps.ClearedRecent | main.go:103-106 | after a cleanup, every user still locked out failed within the last day |
| ServerProps.ClearedIdempotent | main.go:102-114 | a second cleanup at the same time removes nothing more |
| ServerProps.LockoutLifted | main.go:102-114 | a lockout is lifted by a cleanup exactly when the last failure is more than a day old |
| ServerProps.LockoutBeforeVerify | main.go:128-131 | a known, locked-out user is refused before the password is checked; whatever the password, nothing changes |
| ServerProps.LoginOutcomes | main.go:117-153 | each outcome and its condition; unknown users and wrong passwords count as failures; a good password opens a session of 30 days under the fresh id and leaves `loginRecord` alone |
| ServerProps.FourFailuresLock | main.go:88-131 | four wrong passwords in a row lock a known user out; the fifth attempt is refused even with the right password |
| ServerProps.AuthGrants | main.go:627-669 | access is granted exactly for a present, unexpired session that may reach the path; the answer is that session; the only change drops an expired session |
| ServerProps.AuthExpiredGone | main.go:637-641 | an expired session is removed when seen and refused again afterwards |
| ServerProps.OutsideMarkdown | main.go:657-660 | paths outside `/markdown/` are open to every live session |
| ServerProps.OwnMarkdown | main.go:648-651 | a session reaches everything under `/markdown/<its name>/` |
| ServerProps.OthersMarkdown | main.go:648-656 | for `/`-free names, a session is refused another user's `/markdown/<name>/` |
| ServerProps.SweptEffect | main.go:897-903 | the sweep keeps exactly the sessions with `Expires >= now`, each unchanged |
| ServerProps.SweepAgreesWithAuth | main.go:637-641 | a session the sweep drops is one `Auth` refuses at the same time |
| ServerProps.SessionLifetime | main.go:134-141 | a session opened at `now` survives every sweep up to `now + 30 days` and is removed by the first one after |

## Left out

- **HTTP glue.** The handlers' HTTP side is left out: reading the form, setting
  cookies, redirects, `AuthError`, and the non-POST branch of `login`. So are the other
  handlers of both `main.go` files and the SQLite code of `webmark-backend/main.go`.
- **Outside code as parameters.** SHA-1, `CutSearch`, `strings.ToLower`, bcrypt's
  `Verify`, `Uuid()` and the JSON coding of `MetaInfo` are parameters. Digest
  collisions are excluded by hypothesis where a lemma needs that.
- **`BaseSearchEngine.Load`/`Save`.** They are JSON file I/O, left out.
- **`session_save` and session files.** `session_save` and the `os.Remove` of a session
  file in `Auth` and `Job` are file I/O on the sessions directory, left out. Only the
  map entries are modelled.
- **Concurrency and the timer.** The HTTP server runs handlers concurrently with `Job`
  over unlocked maps; the model is sequential. `Job`'s timer loop is one round, `Job(now)`.
- **One `now` per sweep.** Server.WebMark.Job: the sweep reads the clock once per
  session. The model uses one `now` for the whole round.
- **The nil-session branch.** The nil check in `Auth` (main.go:643-646) follows a
  dereference of the same pointer, so it is unreachable for a live entry. Nil entries
  are not modelled.
- **Integer widths.** Integers are unbounded. `int64` ids and Unix times never overflow
  in the model, and the Go decoder's `int64` wrap-around on very long shard entries is
  not modelled.
- **File-system errors.** Only the disk's shape is modelled. The errors modelled are
  "does not exist", "is a directory" and "not a directory" (a regular file on the way to
  the path); permissions, full disks and the like are left out, and so is a partially failed
  `MkdirAll` part-way up a path. Paths are strings without normalisation.
- **The meta-record precondition.** LowSearchEngine.LowSearch.InsertOrUpdate, `Delete`
  and `GetNextId` require `getMetainfo` to succeed. The source dereferences the nil
  record it would otherwise return and panics. `Search` requires it only when the query
  has no terms or some id matches, the two cases in which it reads the record. On a
  laid-out disk, and so under `Valid()`, `getMetainfo` always succeeds (LoadSucceeds).
- **Result order of `intersection`.** Intersect.Intersection states the elements, not
  their order. The source sorts them by their final count with an unstable sort; that
  order is unspecified among equal counts and depends on Go's map iteration order.
- **Result order of `BaseSearchEngine.Search`.** MemSearch.BaseSearchEngine.Search
  states the result's elements and its link to `ids`, not an order, for the same reason,
  and an empty query lists the keys in map order.
- **Visiting order of the insertion loop.** LowSearchEngine.LowSearch.InsertOrUpdate
  leaves the order in which terms are visited (Go's map order) as a ghost `order`, stated
  only to enumerate the terms once each.
- **Terms with a NUL byte.** A term containing a 0 byte would break the keyword file's
  framing; the lemmas that read keyword files back assume terms without one.
- LowSearchEngine.LowSearch.InsertOrUpdate: keeps `Valid()` only for terms without a 0
  byte. Such a term is split when its keyword file is read back, so a later `Delete`
  would leave the id in that term's shard.
- **JavaScript strings.** JavaScript strings are UTF-16 code units; here they are
  sequences of characters, so `length` and `substring` count characters. `trim`'s
  white-space set is written out from ECMA-262 sections 12.2 and 12.3.
- **nil and empty maps.** Go's nil and empty maps are both `map[]`. This is sound
  because every write happens after `InsertOrUpdate` has made the maps.
