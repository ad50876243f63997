/** The cookie lookup of page/static/js/webmark.common.js: `document.cookie` is split
    at `;`, each entry is trimmed, and the first entry that starts with `name=`
    gives its value; `null` is `None`. */
module Cookies {
  import opened Seqs
  import opened Text
  import opened Wrappers

  /** The characters `String.prototype.trim` removes: the white space and line
      terminators of sections 12.2 and 12.3 of ECMA-262 (tab, line feed, vertical tab,
      form feed, carriage return, the space separators, the line and paragraph
      separators, and the byte order mark). */
  predicate IsJsSpace(c: char) {
    '\t' <= c <= '\r' || c == ' ' || c == '\U{a0}' || c == '\U{1680}' || '\U{2000}' <= c <= '\U{200a}' ||
    c == '\U{2028}' || c == '\U{2029}' || c == '\U{202f}' || c == '\U{205f}' || c == '\U{3000}' || c == '\U{feff}'
  }

  function TrimStart(s: string): (r: string)
    ensures |r| <= |s|
    ensures r != "" ==> !IsJsSpace(r[0])
  {
    if s != "" && IsJsSpace(s[0]) then TrimStart(s[1..]) else s
  }

  function TrimEnd(s: string): (r: string)
    ensures |r| <= |s|
    ensures r != "" ==> !IsJsSpace(r[|r| - 1])
  {
    if s != "" && IsJsSpace(s[|s| - 1]) then TrimEnd(s[..|s| - 1]) else s
  }

  /** `TrimStart` removes a prefix made only of white space. */
  lemma {:induction false} TrimStartSuffix(s: string)
    ensures TrimStart(s) == s[|s| - |TrimStart(s)|..]
    ensures forall i :: 0 <= i < |s| - |TrimStart(s)| ==> IsJsSpace(s[i])
  {
    if s != "" && IsJsSpace(s[0]) {
      var t := s[1..];
      TrimStartSuffix(t);
      assert t[|t| - |TrimStart(t)|..] == s[|s| - |TrimStart(s)|..];
      forall i | 0 <= i < |s| - |TrimStart(s)|
        ensures IsJsSpace(s[i])
      {
        if i > 0 {
          assert s[i] == t[i - 1];
        }
      }
    }
  }

  /** `TrimEnd` removes a suffix made only of white space. */
  lemma {:induction false} TrimEndPrefix(s: string)
    ensures TrimEnd(s) == s[..|TrimEnd(s)|]
    ensures forall i :: |TrimEnd(s)| <= i < |s| ==> IsJsSpace(s[i])
  {
    if s != "" && IsJsSpace(s[|s| - 1]) {
      var t := s[..|s| - 1];
      TrimEndPrefix(t);
      assert t[..|TrimEnd(t)|] == s[..|TrimEnd(s)|];
      forall i | |TrimEnd(s)| <= i < |s|
        ensures IsJsSpace(s[i])
      {
        if i < |s| - 1 {
          assert s[i] == t[i];
        }
      }
    }
  }

  /** `String.prototype.trim`. */
  function JsTrim(s: string): string {
    TrimEnd(TrimStart(s))
  }

  /** The entry, once trimmed, starts with `name=`. */
  predicate IsEntryFor(entry: string, name: string) {
    HasPrefix(JsTrim(entry), name + "=")
  }

  /** The value of the first entry for `name`. */
  function Lookup(entries: seq<string>, name: string): Option<string> {
    if entries == [] then None
    else if IsEntryFor(entries[0], name) then Some(JsTrim(entries[0])[|name| + 1..])
    else Lookup(entries[1..], name)
  }

  function CookieValue(cookie: string, name: string): Option<string> {
    Lookup(Split(cookie, ';'), name)
  }

  /** `getCookieValue(cookieName)`, with `document.cookie` passed in. */
  method GetCookieValue(cookie: string, cookieName: string) returns (v: Option<string>)
    ensures v == CookieValue(cookie, cookieName)
  {
    var cookieArray := Split(cookie, ';');
    v := FirstValue(cookieArray, cookieName);
  }

  /** The loop of `getCookieValue` over the entries, with its early return. */
  method FirstValue(cookieArray: seq<string>, cookieName: string) returns (v: Option<string>)
    ensures v == Lookup(cookieArray, cookieName)
  {
    ghost var want := Lookup(cookieArray, cookieName);
    assert cookieArray[0..] == cookieArray;
    for i := 0 to |cookieArray|
      invariant Lookup(cookieArray[i..], cookieName) == want
    {
      LookupAt(cookieArray, cookieName, i);
      var c := JsTrim(cookieArray[i]);
      if HasPrefix(c, cookieName + "=") {
        assert c[|cookieName| + 1..|c|] == c[|cookieName| + 1..];
        return Some(c[|cookieName| + 1..|c|]);
      }
    }
    assert cookieArray[|cookieArray|..] == [];
    v := None;
  }

  lemma LookupAt(entries: seq<string>, name: string, i: nat)
    requires i < |entries|
    ensures Lookup(entries[i..], name) ==
      if IsEntryFor(entries[i], name) then Some(JsTrim(entries[i])[|name| + 1..]) else Lookup(entries[i + 1..], name)
  {
    assert entries[i..][1..] == entries[i + 1..];
  }

  /** `getUsername()`. */
  method GetUsername(cookie: string) returns (v: Option<string>)
    ensures v == CookieValue(cookie, "username")
  {
    v := GetCookieValue(cookie, "username");
  }

  /** No entry for `name`: `null`; otherwise the value of the first entry for it, so
      an earlier entry wins over a later one. */
  lemma {:induction false} LookupFirst(entries: seq<string>, name: string)
    ensures Lookup(entries, name).None? <==> forall i :: 0 <= i < |entries| ==> !IsEntryFor(entries[i], name)
    ensures Lookup(entries, name).Some? ==>
      exists i :: 0 <= i < |entries| && IsEntryFor(entries[i], name) &&
        (forall j :: 0 <= j < i ==> !IsEntryFor(entries[j], name)) &&
        Lookup(entries, name).value == JsTrim(entries[i])[|name| + 1..]
  {
    if entries != [] && !IsEntryFor(entries[0], name) {
      var rest := entries[1..];
      LookupFirst(rest, name);
      if Lookup(rest, name).Some? {
        var i :| 0 <= i < |rest| && IsEntryFor(rest[i], name) &&
          (forall j :: 0 <= j < i ==> !IsEntryFor(rest[j], name)) &&
          Lookup(rest, name).value == JsTrim(rest[i])[|name| + 1..];
        assert entries[i + 1] == rest[i];
        forall j | 0 <= j < i + 1
          ensures !IsEntryFor(entries[j], name)
        {
          if j > 0 {
            assert entries[j] == rest[j - 1];
          }
        }
      }
      forall i | 0 <= i < |entries| && IsEntryFor(entries[i], name)
        ensures Lookup(rest, name).Some?
      {
        assert entries[i] == rest[i - 1];
      }
    }
  }

  /** A cookie string made of `;`-free entries joined with `;` is looked up entry by
      entry. */
  lemma CookieValueJoin(entries: seq<string>, name: string)
    requires |entries| >= 1 && forall i :: 0 <= i < |entries| ==> ';' !in entries[i]
    ensures CookieValue(Join(entries, ';'), name) == Lookup(entries, name)
  {
    SplitJoin(entries, ';');
  }

  /** A space before an entry does not matter to `trim`. */
  lemma JsTrimSpace(e: string)
    ensures JsTrim(" " + e) == JsTrim(e)
  {
    assert (" " + e)[1..] == e;
  }

  /** An entry that neither starts nor ends with white space is left as it is. */
  lemma JsTrimIdle(e: string)
    requires e != [] ==> !IsJsSpace(e[0]) && !IsJsSpace(e[|e| - 1])
    ensures JsTrim(e) == e
  {
  }

  /** An entry `name=value`, with a space before it, belongs to `name` and gives back
      `value`, whatever the characters of the value, as long as the name does not start
      and the value does not end with white space; an empty value gives `""`. */
  lemma EntryValue(name: string, value: string)
    requires name != [] ==> !IsJsSpace(name[0])
    requires value != [] ==> !IsJsSpace(value[|value| - 1])
    ensures IsEntryFor(" " + name + "=" + value, name)
    ensures JsTrim(" " + name + "=" + value)[|name| + 1..] == value
  {
    var e := name + "=" + value;
    EntryShape(name, value);
    JsTrimSpace(e);
    JsTrimIdle(e);
  }

  lemma EntryShape(name: string, value: string)
    ensures var e := name + "=" + value;
      " " + name + "=" + value == " " + e &&
      e[0] == (if name == [] then '=' else name[0]) &&
      e[|e| - 1] == (if value == [] then '=' else value[|value| - 1]) &&
      e[..|name| + 1] == name + "=" && e[|name| + 1..] == value
  {
    var e := name + "=" + value;
    assert " " + name + "=" + value == " " + e;
    assert e[..|name| + 1] == name + "=";
    assert e[|name| + 1..] == value;
  }

  /** Entries for other names before an entry are skipped: an earlier entry for the
      name wins over a later one, and only the first matters. */
  lemma {:induction false} LookupSkips(others: seq<string>, rest: seq<string>, name: string)
    requires forall i :: 0 <= i < |others| ==> !IsEntryFor(others[i], name)
    ensures Lookup(others + rest, name) == Lookup(rest, name)
  {
    if others != [] {
      var all := others + rest;
      assert all[0] == others[0];
      assert all[1..] == others[1..] + rest;
      LookupSkips(others[1..], rest, name);
      assert Lookup(all, name) == Lookup(all[1..], name);
    } else {
      assert others + rest == rest;
    }
  }

  /** A cookie of one entry `username=bob` among others not for `username`, spaces
      after each `;`, gives `bob`; a second entry for the same name later is ignored. */
  lemma LookupExample(others: seq<string>, later: seq<string>, value: string)
    requires forall i :: 0 <= i < |others| ==> !IsEntryFor(others[i], "username")
    requires value != [] ==> !IsJsSpace(value[|value| - 1])
    ensures Lookup(others + [" username=" + value] + later, "username") == Some(value)
  {
    EntryValue("username", value);
    assert " username=" + value == " " + "username" + "=" + value;
    assert others + [" username=" + value] + later == others + ([" username=" + value] + later);
    LookupSkips(others, [" username=" + value] + later, "username");
  }
}
