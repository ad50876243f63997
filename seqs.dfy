/** Splitting a sequence at a separator element and putting it back together.

    Go's `strings.Split` and `bytes.Split` and JavaScript's `String.prototype.split`
    all behave like `Split` below when the separator is a single element: the pieces
    between separators, including an empty first piece, an empty last piece, and the
    single piece `[s]` when the separator does not occur.

    The functions recurse on the LAST element, so that a loop that walks the input
    from the front and keeps a "current piece" buffer matches them step by step. */
module Seqs {

  /** No element occurs twice. */
  predicate Distinct<T(==)>(s: seq<T>) {
    forall i, j :: 0 <= i < j < |s| ==> s[i] != s[j]
  }

  /** What follows the last `sep` of `s` (all of `s` when `sep` does not occur). */
  function Tail<T(==)>(s: seq<T>, sep: T): (t: seq<T>)
    ensures sep !in t
    ensures |t| <= |s|
  {
    if s == [] then []
    else if s[|s| - 1] == sep then []
    else Tail(s[..|s| - 1], sep) + [s[|s| - 1]]
  }

  /** The pieces of `s` that a `sep` closes, in order; the unterminated rest is not one of them. */
  function Chunks<T(==)>(s: seq<T>, sep: T): (cs: seq<seq<T>>)
    ensures forall i :: 0 <= i < |cs| ==> sep !in cs[i]
  {
    if s == [] then []
    else if s[|s| - 1] == sep then Chunks(s[..|s| - 1], sep) + [Tail(s[..|s| - 1], sep)]
    else Chunks(s[..|s| - 1], sep)
  }

  /** The pieces between separators: the model of Go's `strings.Split(s, sep)` for a one-character `sep`. */
  function Split<T(==)>(s: seq<T>, sep: T): (ps: seq<seq<T>>)
    ensures |ps| >= 1
    ensures forall i :: 0 <= i < |ps| ==> sep !in ps[i]
  {
    Chunks(s, sep) + [Tail(s, sep)]
  }

  /** The pieces with one `sep` between every two: Go's `strings.Join`. */
  function Join<T>(ps: seq<seq<T>>, sep: T): seq<T>
  {
    if |ps| == 0 then []
    else if |ps| == 1 then ps[0]
    else Join(ps[..|ps| - 1], sep) + [sep] + ps[|ps| - 1]
  }

  /** Every piece followed by `sep`: the layout of posting and keyword files. */
  function Terminated<T>(ps: seq<seq<T>>, sep: T): (s: seq<T>)
    ensures ps != [] ==> |s| > 0 && s[|s| - 1] == sep
  {
    if ps == [] then [] else Terminated(ps[..|ps| - 1], sep) + ps[|ps| - 1] + [sep]
  }

  /** `s` with every occurrence of `x` removed, the other elements in their order. */
  function Without<T(==)>(s: seq<T>, x: T): (r: seq<T>)
    ensures x !in r
    ensures forall i :: 0 <= i < |r| ==> r[i] in s
    ensures forall i :: 0 <= i < |s| && s[i] != x ==> s[i] in r
    ensures |r| <= |s|
  {
    if s == [] then []
    else if s[|s| - 1] == x then Without(s[..|s| - 1], x)
    else Without(s[..|s| - 1], x) + [s[|s| - 1]]
  }

  lemma {:induction false} NoSeparator<T>(s: seq<T>, sep: T)
    requires sep !in s
    ensures Chunks(s, sep) == [] && Tail(s, sep) == s
  {
    if s != [] {
      NoSeparator(s[..|s| - 1], sep);
      assert s[..|s| - 1] + [s[|s| - 1]] == s;
    }
  }

  /** Once `a` ends with a separator (or is empty), what follows is split on its own. */
  lemma {:induction false} ChunksAppend<T>(a: seq<T>, b: seq<T>, sep: T)
    requires Tail(a, sep) == []
    ensures Chunks(a + b, sep) == Chunks(a, sep) + Chunks(b, sep)
    ensures Tail(a + b, sep) == Tail(b, sep)
  {
    if b == [] {
      assert a + b == a;
    } else {
      var b', x := b[..|b| - 1], b[|b| - 1];
      ChunksAppend(a, b', sep);
      var s := a + b;
      assert s[..|s| - 1] == a + b';
      assert s[|s| - 1] == x;
    }
  }

  /** Splitting what `Terminated` wrote gives back its pieces. */
  lemma {:induction false} ChunksTerminated<T>(ps: seq<seq<T>>, sep: T)
    requires forall i :: 0 <= i < |ps| ==> sep !in ps[i]
    ensures Chunks(Terminated(ps, sep), sep) == ps
    ensures Tail(Terminated(ps, sep), sep) == []
  {
    if ps != [] {
      var init, last := ps[..|ps| - 1], ps[|ps| - 1];
      assert forall i :: 0 <= i < |init| ==> init[i] == ps[i];
      ChunksTerminated(init, sep);
      ChunksOfPiece(last, sep);
      var a, b := Terminated(init, sep), last + [sep];
      ChunksAppend(a, b, sep);
      TerminatedSnoc(init, last, sep);
      PiecesSnoc(ps, init, last, Chunks(a + b, sep), Chunks(a, sep), Chunks(b, sep));
    }
  }

  /** Reassembling the chunks of `init` and `last`. */
  lemma PiecesSnoc<T>(ps: seq<seq<T>>, init: seq<seq<T>>, last: seq<T>, c: seq<seq<T>>, ca: seq<seq<T>>, cb: seq<seq<T>>)
    requires ps != [] && init == ps[..|ps| - 1] && last == ps[|ps| - 1]
    requires c == ca + cb && ca == init && cb == [last]
    ensures c == ps
  {
  }

  /** One separator-free piece followed by `sep` is split into that piece. */
  lemma ChunksOfPiece<T>(last: seq<T>, sep: T)
    requires sep !in last
    ensures Chunks(last + [sep], sep) == [last] && Tail(last + [sep], sep) == []
  {
    NoSeparator(last, sep);
    assert (last + [sep])[..|last + [sep]| - 1] == last;
  }

  lemma TerminatedSnoc<T>(init: seq<seq<T>>, last: seq<T>, sep: T)
    ensures Terminated(init + [last], sep) == Terminated(init, sep) + (last + [sep])
  {
    var ps := init + [last];
    assert ps[..|ps| - 1] == init;
  }

  /** A separator-free extension of the last piece extends the joined sequence. */
  lemma JoinExtendLast<T>(ps: seq<seq<T>>, q: seq<T>, x: T, sep: T)
    ensures Join(ps + [q + [x]], sep) == Join(ps + [q], sep) + [x]
  {
    if |ps| > 0 {
      assert (ps + [q + [x]])[..|ps|] == ps;
      assert (ps + [q])[..|ps|] == ps;
    }
  }

  /** Joining the pieces of a split gives back the original sequence. */
  lemma {:induction false} JoinSplit<T>(s: seq<T>, sep: T)
    ensures Join(Split(s, sep), sep) == s
  {
    if s != [] {
      var init, x := s[..|s| - 1], s[|s| - 1];
      JoinSplit(init, sep);
      assert init + [x] == s;
      if x == sep {
        assert Split(s, sep) == Split(init, sep) + [[]];
        assert (Split(init, sep) + [[]])[..|Split(init, sep)|] == Split(init, sep);
      } else {
        assert Split(s, sep) == Chunks(init, sep) + [Tail(init, sep) + [x]];
        JoinExtendLast(Chunks(init, sep), Tail(init, sep), x, sep);
      }
    }
  }

  /** Splitting joined separator-free pieces gives back the pieces. */
  lemma {:induction false} SplitJoin<T>(ps: seq<seq<T>>, sep: T)
    requires |ps| >= 1
    requires forall i :: 0 <= i < |ps| ==> sep !in ps[i]
    ensures Split(Join(ps, sep), sep) == ps
  {
    if |ps| == 1 {
      NoSeparator(ps[0], sep);
    } else {
      var init, last := ps[..|ps| - 1], ps[|ps| - 1];
      SplitJoin(init, sep);
      var a := Join(init, sep) + [sep];
      assert a[..|a| - 1] == Join(init, sep);
      assert Tail(a, sep) == [];
      ChunksAppend(a, last, sep);
      NoSeparator(last, sep);
      assert Chunks(a, sep) == Split(Join(init, sep), sep);
      assert init + [last] == ps;
    }
  }

  /** A well-terminated sequence is the terminated list of its chunks. */
  lemma {:induction false} TerminatedChunks<T>(s: seq<T>, sep: T)
    requires Tail(s, sep) == []
    ensures Terminated(Chunks(s, sep), sep) == s
    decreases |s|
  {
    if s != [] {
      var init := s[..|s| - 1];
      assert s[|s| - 1] == sep;
      var k := |init| - |Tail(init, sep)|;
      TailSplit(init, sep);
      assert Tail(init[..k], sep) == [];
      TerminatedChunks(init[..k], sep);
      ChunksAppend(init[..k], Tail(init, sep), sep);
      NoSeparator(Tail(init, sep), sep);
      assert init[..k] + Tail(init, sep) == init;
      assert Chunks(s, sep) == Chunks(init[..k], sep) + [Tail(init, sep)];
      assert s == init[..k] + Tail(init, sep) + [sep];
    }
  }

  /** `s` is what comes before its tail, then the tail; what comes before ends with `sep`. */
  lemma {:induction false} TailSplit<T>(s: seq<T>, sep: T)
    ensures s == s[..|s| - |Tail(s, sep)|] + Tail(s, sep)
    ensures Tail(s[..|s| - |Tail(s, sep)|], sep) == []
  {
    if s != [] && s[|s| - 1] != sep {
      var init := s[..|s| - 1];
      TailSplit(init, sep);
      assert s[..|s| - |Tail(s, sep)|] == init[..|init| - |Tail(init, sep)|];
    }
  }

  /** Removing `x` from a sequence extended by `y`. */
  lemma WithoutSnoc<T>(s: seq<T>, x: T, y: T)
    ensures Without(s + [y], x) == if y == x then Without(s, x) else Without(s, x) + [y]
  {
    assert (s + [y])[..|s|] == s;
  }

  /** Removing an element that does not occur changes nothing. */
  lemma {:induction false} WithoutAbsent<T>(s: seq<T>, x: T)
    requires x !in s
    ensures Without(s, x) == s
  {
    if s != [] {
      WithoutAbsent(s[..|s| - 1], x);
    }
  }

  /** The elements of `s`, each once, in the order ranging over a Go map (or set)
      gives them: `getKeys` of search/mod.go and the key listings of both engines. */
  method Elements<K(==)>(s: set<K>) returns (r: seq<K>)
    ensures Distinct(r)
    ensures forall x :: x in r <==> x in s
  {
    r := [];
    var pending := s;
    while pending != {}
      invariant pending <= s
      invariant Distinct(r)
      invariant forall x :: x in r <==> x in s && x !in pending
      decreases |pending|
    {
      if forall x :: x !in pending { assert false; }
      var e :| e in pending;
      r := r + [e];
      pending := pending - {e};
    }
  }
}
