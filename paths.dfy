/** Where the file-backed index keeps things below its `BasePath`
    (webmark-backend/search/mod.go): a root directory `.search`, the metadata file
    `meta.json`, one keyword file per document id under `keyword`, and the posting
    shards under `index`, two levels deep and addressed by a term's SHA-1 digest. */
module SearchPaths {
  import opened Text
  import opened Disks

  /** A SHA-1 digest. */
  type Digest = d: seq<byte> | |d| == 20 witness seq(20, i => 0)

  const IndexDir := ".search"

  function HexDigit(n: nat): (c: char)
    requires n < 16
    ensures '0' <= c <= '9' || 'a' <= c <= 'f'
  {
    if n < 10 then (48 + n) as char else (87 + n) as char
  }

  /** `%02x` of one byte: two lower-case hexadecimal digits. */
  function HexByte(b: byte): (s: string)
    ensures |s| == 2 && '/' !in s
  {
    [HexDigit(b / 16), HexDigit(b % 16)]
  }

  predicate IsLowerHex(s: string) {
    forall i :: 0 <= i < |s| ==> '0' <= s[i] <= '9' || 'a' <= s[i] <= 'f'
  }

  /** `hex.EncodeToString`: two lower-case hexadecimal digits per byte. */
  function Hex(bs: seq<byte>): (s: string)
    ensures |s| == 2 * |bs|
    ensures IsLowerHex(s) && '/' !in s
  {
    if bs == [] then "" else Hex(bs[..|bs| - 1]) + HexByte(bs[|bs| - 1])
  }

  function RootPath(base: string): (p: string)
    ensures |p| == |base| + 8
  {
    base + "/" + IndexDir
  }

  function IndexPath(base: string): (p: string)
    ensures |p| == |base| + 14 && p[|base| + 9] == 'i'
  {
    RootPath(base) + "/" + "index"
  }

  function MetaPath(base: string): (p: string)
    ensures |p| == |base| + 18 && p[|base| + 9] == 'm'
  {
    RootPath(base) + "/" + "meta.json"
  }

  function KeywordPath(base: string): (p: string)
    ensures |p| == |base| + 16 && p[|base| + 9] == 'k'
  {
    RootPath(base) + "/" + "keyword"
  }

  /** `keyword/<id>`, the file listing the terms indexed for document `id`. */
  function KeywordFile(base: string, id: nat): (p: string)
    ensures |p| >= |base| + 18 && p[|base| + 9] == 'k'
  {
    KeywordPath(base) + "/" + Decimal(id)
  }

  /** The shard directory: `index/` and the first digest byte in hex. */
  function ShardDir(base: string, h: Digest): (p: string)
    ensures |p| == |base| + 17 && p[|base| + 9] == 'i'
  {
    IndexPath(base) + "/" + HexByte(h[0])
  }

  /** The shard file: the shard directory and the other 19 digest bytes in hex. */
  function ShardFile(base: string, h: Digest): (p: string)
    ensures |p| == |base| + 56 && p[|base| + 9] == 'i'
  {
    ShardDir(base, h) + "/" + Hex(h[1..])
  }

  /** The directory structure: each path lies directly inside the one above it. */
  lemma ParentsOfPaths(base: string, h: Digest, id: nat)
    ensures Parent(RootPath(base)) == base
    ensures Parent(IndexPath(base)) == RootPath(base)
    ensures Parent(MetaPath(base)) == RootPath(base)
    ensures Parent(KeywordPath(base)) == RootPath(base)
    ensures Parent(KeywordFile(base, id)) == KeywordPath(base)
    ensures Parent(ShardDir(base, h)) == IndexPath(base)
    ensures Parent(ShardFile(base, h)) == ShardDir(base, h)
  {
    ParentOfChild(base, IndexDir);
    ParentOfChild(RootPath(base), "index");
    ParentOfChild(RootPath(base), "meta.json");
    ParentOfChild(RootPath(base), "keyword");
    ParentOfChild(KeywordPath(base), Decimal(id));
    ParentOfChild(IndexPath(base), HexByte(h[0]));
    ParentOfChild(ShardDir(base, h), Hex(h[1..]));
  }

  lemma HexByteInjective(a: byte, b: byte)
    requires HexByte(a) == HexByte(b)
    ensures a == b
  {
    assert HexDigit(a / 16) == HexDigit(b / 16) && HexDigit(a % 16) == HexDigit(b % 16);
  }

  /** Two concatenations with equally long first parts are equal part by part. */
  lemma ConcatParts(x: string, y: string, x': string, y': string)
    requires x + y == x' + y' && |x| == |x'|
    ensures x == x' && y == y'
  {
    assert x == (x + y)[..|x|] && x' == (x' + y')[..|x|];
    assert y == (x + y)[|x|..] && y' == (x' + y')[|x|..];
  }

  lemma {:induction false} HexInjective(a: seq<byte>, b: seq<byte>)
    requires |a| == |b| && Hex(a) == Hex(b)
    ensures a == b
  {
    if a != [] {
      var n := |a|;
      var a0, b0, x, y := a[..n - 1], b[..n - 1], a[n - 1], b[n - 1];
      assert Hex(a) == Hex(a0) + HexByte(x) && Hex(b) == Hex(b0) + HexByte(y);
      ConcatParts(Hex(a0), HexByte(x), Hex(b0), HexByte(y));
      HexInjective(a0, b0);
      HexByteInjective(x, y);
      assert a == a0 + [x] && b == b0 + [y];
    }
  }

  /** Different digests are kept in different shard files. */
  lemma ShardFileInjective(base: string, h1: Digest, h2: Digest)
    requires ShardFile(base, h1) == ShardFile(base, h2)
    ensures h1 == h2
  {
    var n := |base|;
    var p1, p2 := ShardFile(base, h1), ShardFile(base, h2);
    assert p1[n + 15..n + 17] == HexByte(h1[0]) && p2[n + 15..n + 17] == HexByte(h2[0]);
    assert p1[n + 18..] == Hex(h1[1..]) && p2[n + 18..] == Hex(h2[1..]);
    HexByteInjective(h1[0], h2[0]);
    HexInjective(h1[1..], h2[1..]);
    assert h1 == [h1[0]] + h1[1..] && h2 == [h2[0]] + h2[1..];
  }

  /** The first shard level has one directory per first digest byte. */
  lemma ShardDirInjective(base: string, h1: Digest, h2: Digest)
    requires ShardDir(base, h1) == ShardDir(base, h2)
    ensures h1[0] == h2[0]
  {
    var n := |base|;
    var p1, p2 := ShardDir(base, h1), ShardDir(base, h2);
    assert p1[n + 15..] == HexByte(h1[0]) && p2[n + 15..] == HexByte(h2[0]);
    HexByteInjective(h1[0], h2[0]);
  }

  lemma KeywordFileInjective(base: string, a: nat, b: nat)
    requires KeywordFile(base, a) == KeywordFile(base, b)
    ensures a == b
  {
    var n := |base|;
    var p, q := KeywordFile(base, a), KeywordFile(base, b);
    assert p[n + 17..] == Decimal(a) && q[n + 17..] == Decimal(b);
    assert Utf8(Decimal(a)) == Utf8(Decimal(b));
    DecimalInjective(a, b);
  }
}
