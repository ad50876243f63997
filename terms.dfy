/** Which segments of a text become index terms, shared by the `splitWord` of
    webmark-backend/search/mod.go (lines 217-235) and the one of
    webmark-backend/main.go (lines 890-912): a segment is kept when trimming the
    cutset off both ends leaves something non-empty of at most 10 UTF-8 bytes, and it
    is then kept as it was, untrimmed. */
module Terms {
  import opened Text

  /** The characters of the `trim` cutset of webmark-backend/search/mod.go:25 and
      webmark-backend/main.go:41. */
  const Cutset: set<char> := {
    '"', '\n', '\t', ' ', '`', '1', '2', '3', '4', '5', '6', '7', '8', '9', '0', '|',
    '\U{ff5e}', '~', '!', '@', '#', '$', '%', '^', '&', '*', '(', ')', '_', '-', '+',
    '=', ',', '.', '<', '>', '/', '?', '\'', ':', ';', '\U{ff1b}', '\U{ff1a}', '[', ']',
    '{', '}', '\\', '\U{ff01}', '\U{ff0c}', '\U{ffe5}', '\U{2026}', '\U{ff08}',
    '\U{ff09}', '\U{2014}', '\U{300a}', '\U{300b}', '\U{3002}', '\U{ff1f}', '\U{3010}',
    '\U{3011}', '\U{3001}', '\U{201d}', '\U{201c}'}

  /** A segment whose trimmed form is non-empty and at most 10 bytes long. */
  predicate Indexable(s: string) {
    var k := Trim(s, Cutset);
    k != "" && |Utf8(k)| <= 10
  }

  /** The distinct indexable segments, untrimmed. */
  function TermSet(segments: seq<string>): (terms: set<string>)
    ensures forall s :: s in terms <==> s in segments && Indexable(s)
  {
    set s | s in segments && Indexable(s)
  }

  /** One more segment: it joins the terms when it is indexable. */
  lemma TermSetSnoc(segments: seq<string>, s: string)
    ensures TermSet(segments + [s]) == TermSet(segments) + (if Indexable(s) then {s} else {})
  {
    var all := segments + [s];
    forall x
      ensures x in all <==> x in segments || x == s
    {
      if x in all {
        var i :| 0 <= i < |all| && all[i] == x;
        if i < |segments| {
          assert x == segments[i];
        }
      }
      if x in segments {
        var i :| 0 <= i < |segments| && segments[i] == x;
        assert all[i] == x;
      }
      assert all[|segments|] == s;
    }
  }

  /** The dedup loop of either `splitWord`: the indexable segments, as a set. */
  method SplitSegments(segments: seq<string>) returns (tm: set<string>)
    ensures tm == TermSet(segments)
  {
    tm := {};
    for i := 0 to |segments|
      invariant tm == TermSet(segments[..i])
    {
      var s := segments[i];
      assert segments[..i + 1] == segments[..i] + [s];
      TermSetSnoc(segments[..i], s);
      var k := Trim(s, Cutset);
      if k == "" {
        continue;
      }
      if |Utf8(k)| > 10 {
        continue;
      }
      tm := tm + {s};
    }
    assert segments[..|segments|] == segments;
  }
}
