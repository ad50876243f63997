/** String helpers of Go's `strings` and `fmt` packages that the modelled code relies on.

    A Dafny `char` is a Unicode scalar value, which is what Go calls a rune; Go's
    `len` of a string and `[]byte(s)` work on the UTF-8 bytes, so those are
    modelled by `Utf8`. */
module Text {

  /** A byte of a file or of an encoded string. */
  type byte = x: int | 0 <= x < 256

  predicate HasPrefix(s: string, p: string) {
    |p| <= |s| && s[..|p|] == p
  }

  predicate HasSuffix(s: string, p: string) {
    |p| <= |s| && s[|s| - |p|..] == p
  }

  /** `p` occurs in `s` starting at index `i`. */
  predicate OccursAt(s: string, p: string, i: int) {
    0 <= i <= |s| - |p| && s[i..i + |p|] == p
  }

  /** Go's `strings.Contains`. */
  predicate Contains(s: string, p: string) {
    exists i | 0 <= i <= |s| - |p| :: OccursAt(s, p, i)
  }

  /** Go's `strings.TrimPrefix`: `p` is cut off the front when it is there. */
  function TrimPrefix(s: string, p: string): (r: string)
    ensures HasPrefix(s, p) ==> p + r == s
    ensures !HasPrefix(s, p) ==> r == s
  {
    if HasPrefix(s, p) then s[|p|..] else s
  }

  /** Drops the leading characters that occur in `cutset`. */
  function TrimLeft(s: string, cutset: set<char>): (r: string)
    ensures |r| <= |s|
    ensures r != "" ==> r[0] !in cutset
    ensures forall i :: 0 <= i < |s| - |r| ==> s[i] in cutset
  {
    if s != "" && s[0] in cutset then TrimLeft(s[1..], cutset) else s
  }

  /** Drops the trailing characters that occur in `cutset`. */
  function TrimRight(s: string, cutset: set<char>): (r: string)
    ensures |r| <= |s|
    ensures r != "" ==> r[|r| - 1] !in cutset
    ensures forall i :: |r| <= i < |s| ==> s[i] in cutset
  {
    if s != "" && s[|s| - 1] in cutset then TrimRight(s[..|s| - 1], cutset) else s
  }

  /** `TrimLeft` keeps a suffix of its input. */
  lemma {:induction false} TrimLeftSuffix(s: string, cutset: set<char>)
    ensures TrimLeft(s, cutset) == s[|s| - |TrimLeft(s, cutset)|..]
  {
    if s != "" && s[0] in cutset {
      var t := s[1..];
      TrimLeftSuffix(t, cutset);
      assert t[|t| - |TrimLeft(t, cutset)|..] == s[|s| - |TrimLeft(s, cutset)|..];
    }
  }

  /** `TrimRight` keeps a prefix of its input. */
  lemma {:induction false} TrimRightPrefix(s: string, cutset: set<char>)
    ensures TrimRight(s, cutset) == s[..|TrimRight(s, cutset)|]
  {
    if s != "" && s[|s| - 1] in cutset {
      var t := s[..|s| - 1];
      TrimRightPrefix(t, cutset);
      assert t[..|TrimRight(t, cutset)|] == s[..|TrimRight(s, cutset)|];
    }
  }

  /** Go's `strings.Trim(s, cutset)`: both ends lose every character (rune) of `cutset`,
      which is given as the set of its characters. */
  function Trim(s: string, cutset: set<char>): string {
    TrimRight(TrimLeft(s, cutset), cutset)
  }

  /** What is left by `Trim` is empty exactly when every character is in the cutset;
      otherwise it neither starts nor ends with one, and it occurs in `s`. */
  lemma TrimMeaning(s: string, cutset: set<char>)
    ensures var r := Trim(s, cutset);
      (r == "" <==> forall i :: 0 <= i < |s| ==> s[i] in cutset) &&
      (r != "" ==> r[0] !in cutset && r[|r| - 1] !in cutset) &&
      Contains(s, r)
  {
    var l := TrimLeft(s, cutset);
    var r := TrimRight(l, cutset);
    var k := |s| - |l|;
    TrimLeftSuffix(s, cutset);
    TrimRightPrefix(l, cutset);
    assert s[k..k + |r|] == r;
    assert OccursAt(s, r, k);
    if r == "" {
      assert l == "";
    } else {
      assert s[k] == r[0];
    }
  }

  /** The UTF-8 encoding of one scalar value. */
  function Utf8Char(c: char): (bs: seq<byte>)
    ensures 1 <= |bs| <= 4
    ensures 0 in bs <==> c == '\0'
    ensures c as int < 0x80 ==> bs == [c as int]
  {
    var n := c as int;
    if n < 0x80 then [n]
    else if n < 0x800 then [0xC0 + n / 0x40, 0x80 + n % 0x40]
    else if n < 0x1_0000 then [0xE0 + n / 0x1000, 0x80 + (n / 0x40) % 0x40, 0x80 + n % 0x40]
    else [0xF0 + n / 0x4_0000, 0x80 + (n / 0x1000) % 0x40, 0x80 + (n / 0x40) % 0x40, 0x80 + n % 0x40]
  }

  /** Go's `[]byte(s)`: the UTF-8 encoding of a string. Its length is Go's `len(s)`. */
  function Utf8(s: string): (bs: seq<byte>)
    ensures 0 in bs <==> '\0' in s
    ensures |s| <= |bs| <= 4 * |s|
  {
    if s == "" then []
    else
      var bs := Utf8(s[..|s| - 1]) + Utf8Char(s[|s| - 1]);
      assert s == s[..|s| - 1] + [s[|s| - 1]];
      bs
  }

  function Digit(d: nat): (c: char)
    requires d < 10
    ensures '0' <= c <= '9' && c as int == 48 + d
  {
    "0123456789"[d]
  }

  /** `fmt.Sprint(n)` and `%d` of a non-negative integer: its decimal digits, no leading zero. */
  function Decimal(n: nat): (s: string)
    ensures |s| >= 1
    ensures forall i :: 0 <= i < |s| ==> '0' <= s[i] <= '9'
    ensures '/' !in s
    ensures s[0] == '0' ==> n == 0
  {
    if n < 10 then [Digit(n)] else Decimal(n / 10) + [Digit(n % 10)]
  }

  /** The bytes of `Decimal(n)`, as `[]byte(fmt.Sprint(n))` gives them. */
  function DecimalBytes(n: nat): (bs: seq<byte>)
    ensures |bs| >= 1 && 0 !in bs
  {
    Utf8(Decimal(n))
  }

  /** The value the posting decoder builds from one chunk: `t = t*10 + int64(v-'0')`,
      where `v-'0'` is a byte subtraction and so wraps around below '0'. */
  function DigitsValue(bs: seq<byte>): nat
  {
    if bs == [] then 0 else DigitsValue(bs[..|bs| - 1]) * 10 + (bs[|bs| - 1] as int - 48) % 256
  }

  lemma Utf8Snoc(s: string, c: char)
    ensures Utf8(s + [c]) == Utf8(s) + Utf8Char(c)
  {
    assert (s + [c])[..|s|] == s;
  }

  lemma DigitsValueSnoc(bs: seq<byte>, q: nat, d: nat)
    requires DigitsValue(bs) == q && d < 10
    ensures DigitsValue(bs + [48 + d]) == q * 10 + d
  {
    assert (bs + [48 + d])[..|bs|] == bs;
  }

  lemma DecimalBytesStep(n: nat)
    requires n >= 10
    ensures DecimalBytes(n) == DecimalBytes(n / 10) + [48 + n % 10]
  {
    Utf8Snoc(Decimal(n / 10), Digit(n % 10));
  }

  /** Decoding the decimal text of `n` gives back `n`. */
  lemma {:induction false} DecimalRoundTrip(n: nat)
    ensures DigitsValue(DecimalBytes(n)) == n
  {
    if n >= 10 {
      DecimalRoundTrip(n / 10);
      DecimalBytesStep(n);
      DigitsValueSnoc(DecimalBytes(n / 10), n / 10, n % 10);
    } else {
      Utf8Snoc([], Digit(n));
      DigitsValueSnoc([], 0, n);
    }
  }

  /** Different ids have different decimal texts. */
  lemma DecimalInjective(a: nat, b: nat)
    requires DecimalBytes(a) == DecimalBytes(b)
    ensures a == b
  {
    DecimalRoundTrip(a);
    DecimalRoundTrip(b);
  }
}
