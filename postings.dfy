/** The layout of a posting shard (webmark-backend/search/mod.go): one entry per
    document id, each the id's decimal text followed by a 0 byte. Insertion appends an
    entry (lines 261-269), `Search` decodes the entries (lines 389-398) and
    `deleteIndex` filters them (lines 124-140). */
module Postings {
  import opened Seqs
  import opened Text

  /** The decimal text of each id. */
  function IdTexts(ids: seq<nat>): (ps: seq<seq<byte>>)
    ensures |ps| == |ids|
    ensures forall i :: 0 <= i < |ps| ==> ps[i] == DecimalBytes(ids[i])
  {
    if ids == [] then [] else IdTexts(ids[..|ids| - 1]) + [DecimalBytes(ids[|ids| - 1])]
  }

  /** The shard holding `ids` in this order. */
  function Encode(ids: seq<nat>): seq<byte> {
    Terminated(IdTexts(ids), 0)
  }

  /** The value the decoder assigns to each chunk. */
  function Values(cs: seq<seq<byte>>): (ids: seq<nat>)
    ensures |ids| == |cs|
    ensures forall i :: 0 <= i < |cs| ==> ids[i] == DigitsValue(cs[i])
  {
    if cs == [] then [] else Values(cs[..|cs| - 1]) + [DigitsValue(cs[|cs| - 1])]
  }

  /** The ids `Search` reads from a shard: one per 0-terminated chunk, in file order;
      bytes after the last 0 are not read as an id. */
  function Decode(data: seq<byte>): seq<nat> {
    Values(Chunks(data, 0))
  }

  /** What `deleteIndex` writes back: the 0-terminated chunks other than `idb`, in
      their order, each again followed by 0; bytes after the last 0 are dropped. */
  function Filter(data: seq<byte>, idb: seq<byte>): seq<byte> {
    Terminated(Without(Chunks(data, 0), idb), 0)
  }

  lemma ChunksOfEncode(ids: seq<nat>)
    ensures Chunks(Encode(ids), 0) == IdTexts(ids)
    ensures Tail(Encode(ids), 0) == []
  {
    ChunksTerminated(IdTexts(ids), 0);
  }

  /** Decoding a shard written for `ids` gives back `ids`. */
  lemma DecodeEncode(ids: seq<nat>)
    ensures Decode(Encode(ids)) == ids
  {
    ChunksOfEncode(ids);
    forall i | 0 <= i < |ids|
      ensures Decode(Encode(ids))[i] == ids[i]
    {
      DecimalRoundTrip(ids[i]);
    }
  }

  /** Appending an entry to a shard written for `ids` gives the shard for `ids + [id]`. */
  lemma EncodeAppend(ids: seq<nat>, id: nat)
    ensures Encode(ids + [id]) == Encode(ids) + DecimalBytes(id) + [0]
  {
    var ps := IdTexts(ids + [id]);
    assert ps == IdTexts(ids) + [DecimalBytes(id)];
    assert ps[..|ids|] == IdTexts(ids);
  }

  /** Appending the entry of `id` to the shard written for `ids` gives the shard written
      for `ids + [id]`, which decodes to `ids + [id]`. */
  lemma EncodeSnoc(ids: seq<nat>, id: nat)
    ensures Encode(ids) + (DecimalBytes(id) + [0]) == Encode(ids + [id])
    ensures Decode(Encode(ids + [id])) == ids + [id]
  {
    EncodeAppend(ids, id);
    assert Encode(ids) + (DecimalBytes(id) + [0]) == Encode(ids) + DecimalBytes(id) + [0];
    DecodeEncode(ids + [id]);
  }

  /** Appending an entry to any well-terminated shard adds `id` at the end of what is
      decoded, and the shard stays well terminated. */
  lemma DecodeAppend(data: seq<byte>, id: nat)
    requires Tail(data, 0) == []
    ensures Decode(data + DecimalBytes(id) + [0]) == Decode(data) + [id]
    ensures Tail(data + DecimalBytes(id) + [0], 0) == []
  {
    ChunksOfAppend(data, id);
    DecimalRoundTrip(id);
    var cs := Chunks(data, 0) + [DecimalBytes(id)];
    assert Values(cs) == Values(Chunks(data, 0)) + [id];
  }

  lemma {:induction false} WithoutIdTexts(ids: seq<nat>, id: nat)
    ensures Without(IdTexts(ids), DecimalBytes(id)) == IdTexts(Without(ids, id))
  {
    if ids != [] {
      var init, last := ids[..|ids| - 1], ids[|ids| - 1];
      assert ids == init + [last];
      IdTextsSnoc(init, last);
      WithoutIdTexts(init, id);
      WithoutSnoc(IdTexts(init), DecimalBytes(id), DecimalBytes(last));
      WithoutSnoc(init, id, last);
      if last != id {
        if DecimalBytes(last) == DecimalBytes(id) {
          DecimalInjective(last, id);
        }
        IdTextsSnoc(Without(init, id), last);
      }
    }
  }

  lemma IdTextsSnoc(ids: seq<nat>, x: nat)
    ensures IdTexts(ids + [x]) == IdTexts(ids) + [DecimalBytes(x)]
  {
    assert (ids + [x])[..|ids|] == ids;
  }

  /** Filtering the shard written for `ids` gives the shard for `ids` without `id`: every
      occurrence of `id` goes, every other id stays, in its order. */
  lemma FilterEncode(ids: seq<nat>, id: nat)
    ensures Filter(Encode(ids), DecimalBytes(id)) == Encode(Without(ids, id))
    ensures Decode(Filter(Encode(ids), DecimalBytes(id))) == Without(ids, id)
  {
    ChunksOfEncode(ids);
    WithoutIdTexts(ids, id);
    DecodeEncode(Without(ids, id));
  }

  /** The filtered shard is empty, so the file is removed, exactly when every entry was `id`. */
  lemma FilterEmpty(ids: seq<nat>, id: nat)
    ensures Filter(Encode(ids), DecimalBytes(id)) == [] <==> forall i :: 0 <= i < |ids| ==> ids[i] == id
  {
    FilterEncode(ids, id);
    var r := Without(ids, id);
    assert |IdTexts(r)| == |r|;
    if r != [] {
      assert r[0] in ids && r[0] != id;
    }
  }

  /** What `deleteIndex` writes back is itself well terminated. */
  lemma FilterTerminated(data: seq<byte>, idb: seq<byte>)
    ensures Tail(Filter(data, idb), 0) == []
  {
    ChunksTerminated(Without(Chunks(data, 0), idb), 0);
  }

  /** Filtering a second time for the same id changes nothing more. */
  lemma FilterTwice(data: seq<byte>, idb: seq<byte>)
    ensures Filter(Filter(data, idb), idb) == Filter(data, idb)
  {
    var w := Without(Chunks(data, 0), idb);
    ChunksTerminated(w, 0);
    WithoutAbsent(w, idb);
  }

  /** The chunks after appending an entry: the old ones and the new entry. */
  lemma ChunksOfAppend(data: seq<byte>, id: nat)
    requires Tail(data, 0) == []
    ensures Chunks(data + DecimalBytes(id) + [0], 0) == Chunks(data, 0) + [DecimalBytes(id)]
    ensures Tail(data + DecimalBytes(id) + [0], 0) == []
  {
    var e := DecimalBytes(id) + [0];
    ChunksAppend(data, e, 0);
    NoSeparator(DecimalBytes(id), 0);
    assert e[..|e| - 1] == DecimalBytes(id);
    assert Chunks(e, 0) == [DecimalBytes(id)];
    assert data + DecimalBytes(id) + [0] == data + e;
  }

  /** Deleting an id right after appending it to a well-terminated shard that did not
      list it gives back the shard as it was. */
  lemma FilterAppend(data: seq<byte>, id: nat)
    requires Tail(data, 0) == [] && DecimalBytes(id) !in Chunks(data, 0)
    ensures Filter(data + DecimalBytes(id) + [0], DecimalBytes(id)) == data
  {
    ChunksOfAppend(data, id);
    var cs := Chunks(data, 0) + [DecimalBytes(id)];
    assert cs[..|cs| - 1] == Chunks(data, 0);
    WithoutAbsent(Chunks(data, 0), DecimalBytes(id));
    TerminatedChunks(data, 0);
  }
}
