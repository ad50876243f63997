/** The pure request helpers of webmark-backend/main.go, and `GetPathList`, which the
    root main.go has in the same words: splitting a request path after a route prefix,
    recognising static files, and the term filter `splitWord`. */
module WebHelpers {
  import opened Seqs
  import opened Text
  import opened Terms

  /** `GetPathList(paths, prefix)`: the prefix goes when it is there, and the rest is
      split at every `/`. */
  function GetPathList(paths: string, prefix: string): (parts: seq<string>)
    ensures |parts| >= 1
    ensures forall i :: 0 <= i < |parts| ==> '/' !in parts[i]
  {
    Split(TrimPrefix(paths, prefix), '/')
  }

  /** Joining the parts with `/` gives back the path without its prefix; without the
      prefix, the whole path is what was split. */
  lemma GetPathListJoin(paths: string, prefix: string)
    ensures Join(GetPathList(paths, prefix), '/') == TrimPrefix(paths, prefix)
    ensures HasPrefix(paths, prefix) ==> prefix + Join(GetPathList(paths, prefix), '/') == paths
    ensures !HasPrefix(paths, prefix) ==> Join(GetPathList(paths, prefix), '/') == paths
  {
    JoinSplit(TrimPrefix(paths, prefix), '/');
  }

  /** A route prefix followed by `/`-free parts joined with `/` is split back into
      those parts. */
  lemma GetPathListParts(prefix: string, parts: seq<string>)
    requires |parts| >= 1 && forall i :: 0 <= i < |parts| ==> '/' !in parts[i]
    ensures GetPathList(prefix + Join(parts, '/'), prefix) == parts
  {
    var p := prefix + Join(parts, '/');
    assert p[..|prefix|] == prefix;
    assert p[|prefix|..] == Join(parts, '/');
    SplitJoin(parts, '/');
  }

  /** The file names `IsStatic` serves from anywhere. */
  const StaticNames: seq<string> :=
    ["index.html", "asset-manifest.json", "favicon.ico", "logo192.png", "logo512.png", "manifest.json", "robots.txt"]

  /** `IsStatic(name)`. */
  predicate IsStatic(name: string) {
    name == "/" ||
    Contains(name, "/static/") ||
    HasSuffix(name, "index.html") ||
    HasSuffix(name, "asset-manifest.json") ||
    HasSuffix(name, "favicon.ico") ||
    HasSuffix(name, "logo192.png") ||
    HasSuffix(name, "logo512.png") ||
    HasSuffix(name, "manifest.json") ||
    HasSuffix(name, "robots.txt")
  }

  /** The root and everything under a `/static/` directory are static. */
  lemma StaticDirectories(name: string, i: nat)
    requires OccursAt(name, "/static/", i)
    ensures IsStatic("/") && IsStatic(name)
  {
  }

  /** Any other path is static exactly when it ends in one of the listed names. */
  lemma StaticByName(name: string)
    requires name != "/" && !Contains(name, "/static/")
    ensures IsStatic(name) <==> exists j :: 0 <= j < |StaticNames| && HasSuffix(name, StaticNames[j])
  {
    if IsStatic(name) {
      var j := StaticIndex(name);
      assert HasSuffix(name, StaticNames[j]);
    }
    if exists j :: 0 <= j < |StaticNames| && HasSuffix(name, StaticNames[j]) {
      var j :| 0 <= j < |StaticNames| && HasSuffix(name, StaticNames[j]);
      ListedIsStatic(name, j);
    }
  }

  /** The listed name a static path other than the two general cases ends in. */
  lemma StaticIndex(name: string) returns (j: nat)
    requires name != "/" && !Contains(name, "/static/") && IsStatic(name)
    ensures j < |StaticNames| && HasSuffix(name, StaticNames[j])
  {
    j := if HasSuffix(name, "index.html") then 0
      else if HasSuffix(name, "asset-manifest.json") then 1
      else if HasSuffix(name, "favicon.ico") then 2
      else if HasSuffix(name, "logo192.png") then 3
      else if HasSuffix(name, "logo512.png") then 4
      else if HasSuffix(name, "manifest.json") then 5
      else 6;
  }

  /** A path ending in a listed name is static. */
  lemma ListedIsStatic(name: string, j: nat)
    requires j < |StaticNames| && HasSuffix(name, StaticNames[j])
    ensures IsStatic(name)
  {
  }

  /** The routes of the API are not static; a page and an asset are. */
  lemma StaticExamples()
    ensures !IsStatic("/wmapi/search")
    ensures IsStatic("/markdown/alice/static/a.png")
    ensures IsStatic("/user_main/index.html")
  {
    assert OccursAt("/markdown/alice/static/a.png", "/static/", 15);
    var s := "/wmapi/search";
    forall i | 0 <= i <= |s| - 8
      ensures !OccursAt(s, "/static/", i)
    {
      assert s[i + 1] != 's';
    }
  }

  /** `splitWord(content)`: lower-case and segment the text, and emit, once each and
      untrimmed, the segments whose trimmed form is non-empty and at most 10 bytes long;
      no segment, no term. */
  method SplitWord(toLower: string -> string, cutSearch: string -> seq<string>, content: string) returns (sps: seq<string>)
    ensures Distinct(sps)
    ensures var segments := cutSearch(toLower(content));
      forall s :: s in sps <==> s in segments && Trim(s, Cutset) != "" && |Utf8(Trim(s, Cutset))| <= 10
    ensures cutSearch(toLower(content)) == [] ==> sps == []
  {
    var segments := cutSearch(toLower(content));
    var tm := SplitSegments(segments);
    sps := Elements(tm);
    if sps != [] {
      assert sps[0] in segments;
    }
  }
}
