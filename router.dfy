/** Model of `PATHS` and `getPageName` in packages/client/src/Router.tsx:
    the page title shown for a location path, found by matching the path
    segment by segment against the route table. */
module Router {

  import opened Wrappers

  /** One entry of the `PATHS` object: its key and the path its function returns. */
  datatype Route = Route(name: string, path: string)

  /** `PATHS`, in declaration order (the order `keys`/`values` enumerate it). */
  const PATHS: seq<Route> := [
    Route("INDEX", "/"),
    Route("HOME", "/home"),
    Route("ONE_PLAYER", "/one-player"),
    Route("MULTI_PLAYER", "/multiplayer")
  ]

  /** The title used when no route matches. */
  const FALLBACK := "Game"

  // ---------------------------------------------------------------------
  // String helpers: `startsWith("/") ? slice(1)`, `split`, `join`, case.

  function StripLeadingSlash(s: string): string
  {
    if |s| > 0 && s[0] == '/' then s[1..] else s
  }

  /** JavaScript's `s.split(sep)` for a one-character separator. */
  function Split(s: string, sep: char): (parts: seq<string>)
    ensures |parts| >= 1
    ensures forall i :: 0 <= i < |parts| ==> sep !in parts[i]
  {
    if s == [] then [""]
    else
      var rest := Split(s[1..], sep);
      if s[0] == sep then [""] + rest
      else [[s[0]] + rest[0]] + rest[1..]
  }

  /** JavaScript's `parts.join(sep)`. */
  function Join(parts: seq<string>, sep: string): string
  {
    if parts == [] then ""
    else if |parts| == 1 then parts[0]
    else parts[0] + sep + Join(parts[1..], sep)
  }

  /** Splitting and joining with the same separator gives the string back. */
  lemma {:induction false} JoinSplit(s: string, sep: char)
    ensures Join(Split(s, sep), [sep]) == s
  {
    if s != [] {
      var rest := Split(s[1..], sep);
      JoinSplit(s[1..], sep);
      if s[0] == sep {
        assert Split(s, sep) == [""] + rest;
      } else {
        var parts := Split(s, sep);
        assert parts == [[s[0]] + rest[0]] + rest[1..];
        if |rest| == 1 {
          assert Join(rest, [sep]) == rest[0];
        } else {
          assert Join(rest, [sep]) == rest[0] + [sep] + Join(rest[1..], [sep]);
          assert parts[1..] == rest[1..];
        }
      }
    }
  }

  /** lodash `toLower` on one character (ASCII letters only). */
  function LowerChar(c: char): char
  {
    if 'A' <= c <= 'Z' then (c as int + 32) as char else c
  }

  /** The upper-casing `capitalize` applies to the first character (ASCII letters only). */
  function UpperChar(c: char): char
  {
    if 'a' <= c <= 'z' then (c as int - 32) as char else c
  }

  function ToLower(s: string): (r: string)
    ensures |r| == |s|
    ensures forall i :: 0 <= i < |s| ==> r[i] == LowerChar(s[i])
  {
    if s == [] then [] else [LowerChar(s[0])] + ToLower(s[1..])
  }

  /** lodash `capitalize`: first character upper case, the rest lower case. */
  function Capitalize(s: string): (r: string)
    ensures |r| == |s|
  {
    if s == [] then [] else [UpperChar(s[0])] + ToLower(s[1..])
  }

  /** One word of a route key after `.map(toLower).map(capitalize)`. */
  function TitleWord(w: string): string
  {
    Capitalize(ToLower(w))
  }

  function MapTitleWords(ws: seq<string>): (r: seq<string>)
    ensures |r| == |ws|
    ensures forall i :: 0 <= i < |ws| ==> r[i] == TitleWord(ws[i])
  {
    if ws == [] then [] else [TitleWord(ws[0])] + MapTitleWords(ws[1..])
  }

  /** `name.split("_").map(toLower).map(capitalize).join(" ")`. */
  function FormatName(name: string): string
  {
    Join(MapTitleWords(Split(name, '_')), " ")
  }

  // ---------------------------------------------------------------------
  // Matching.

  /** The test inside `every`: the route segment at `idx` must exist, be
      non-empty, and either be a `:param` wildcard or equal the input segment. */
  function SegmentMatches(piece: string, pathPieces: seq<string>, idx: nat): bool
  {
    idx < |pathPieces| && pathPieces[idx] != "" &&
    (pathPieces[idx][0] == ':' || piece == pathPieces[idx])
  }

  /** `every(pieces, ...)` over the input segments from index `from` on. */
  function EveryFrom(pieces: seq<string>, pathPieces: seq<string>, from: nat): bool
    decreases |pieces| - from
  {
    from >= |pieces| ||
    (SegmentMatches(pieces[from], pathPieces, from) && EveryFrom(pieces, pathPieces, from + 1))
  }

  /** The segments a path or pattern is split into after one leading '/' is dropped. */
  function Pieces(path: string): (r: seq<string>)
    ensures |r| >= 1
  {
    Split(StripLeadingSlash(path), '/')
  }

  predicate RouteMatches(pieces: seq<string>, route: Route)
  {
    EveryFrom(pieces, Pieces(route.path), 0)
  }

  /** `find(pathNames, ...)`, looking from index `from` on: the index of the
      first route there that matches. */
  function FindRoute(pieces: seq<string>, routes: seq<Route>, from: nat): (r: Option<nat>)
    requires from <= |routes|
    ensures r.Some? ==> from <= r.value < |routes| && RouteMatches(pieces, routes[r.value])
    ensures r.Some? ==> forall j :: from <= j < r.value ==> !RouteMatches(pieces, routes[j])
    ensures r.None? <==> forall j :: from <= j < |routes| ==> !RouteMatches(pieces, routes[j])
    decreases |routes| - from
  {
    if from == |routes| then None
    else if RouteMatches(pieces, routes[from]) then Some(from)
    else FindRoute(pieces, routes, from + 1)
  }

  /** The title for the input segments: that of the first route of `PATHS` that matches. */
  function TitleFor(pieces: seq<string>): string
  {
    match FindRoute(pieces, PATHS, 0)
    case None => FALLBACK
    case Some(k) => FormatName(PATHS[k].name)
  }

  /** `getPageName(PATH)`: "Game" exactly when no route matches the
      stripped, split path, and otherwise the formatted key of the first
      route that matches. */
  function GetPageName(path: string): (r: string)
    ensures r == FALLBACK <==>
      forall j :: 0 <= j < |PATHS| ==> !RouteMatches(Pieces(path), PATHS[j])
    ensures forall k :: (0 <= k < |PATHS| && RouteMatches(Pieces(path), PATHS[k]) &&
                         (forall j :: 0 <= j < k ==> !RouteMatches(Pieces(path), PATHS[j])))
                        ==> r == FormatName(PATHS[k].name)
  {
    TitleForFirstMatch(Pieces(path));
    TitleFor(Pieces(path))
  }

  // ---------------------------------------------------------------------
  // Properties.

  lemma {:induction false} SplitNoSeparator(s: string, sep: char)
    requires sep !in s
    ensures Split(s, sep) == [s]
  {
    if s != [] {
      SplitNoSeparator(s[1..], sep);
      assert s[0] != sep;
      assert [s[0]] + s[1..] == s;
    }
  }

  /** Splitting at the first separator. */
  lemma {:induction false} SplitFirst(a: string, sep: char, b: string)
    requires sep !in a
    ensures Split(a + [sep] + b, sep) == [a] + Split(b, sep)
  {
    if a == [] {
      assert (a + [sep] + b)[1..] == b;
    } else {
      assert (a + [sep] + b)[1..] == a[1..] + [sep] + b;
      SplitFirst(a[1..], sep, b);
      assert (a + [sep] + b)[0] == a[0] != sep;
      assert [a[0]] + a[1..] == a;
    }
  }

  lemma {:induction false} EveryFromIff(pieces: seq<string>, pathPieces: seq<string>, from: nat)
    requires from <= |pieces|
    ensures EveryFrom(pieces, pathPieces, from) <==>
      forall i :: from <= i < |pieces| ==> SegmentMatches(pieces[i], pathPieces, i)
    decreases |pieces| - from
  {
    if from < |pieces| {
      EveryFromIff(pieces, pathPieces, from + 1);
    }
  }

  /** A route matches iff the input has no more segments than the pattern and
      every input segment meets a non-empty pattern segment that is either a
      `:param` wildcard or equal to it. */
  lemma RouteMatchesIff(pieces: seq<string>, route: Route)
    ensures var pp := Pieces(route.path);
      RouteMatches(pieces, route) <==>
        |pieces| <= |pp| &&
        forall i :: 0 <= i < |pieces| ==>
          pp[i] != "" && (pp[i][0] == ':' || pieces[i] == pp[i])
  {
    var pp := Pieces(route.path);
    EveryFromIff(pieces, pp, 0);
    if RouteMatches(pieces, route) {
      if |pieces| > 0 {
        assert SegmentMatches(pieces[|pieces| - 1], pp, |pieces| - 1);
      }
      forall i | 0 <= i < |pieces|
        ensures i < |pp| && pp[i] != "" && (pp[i][0] == ':' || pieces[i] == pp[i])
      {
        assert SegmentMatches(pieces[i], pp, i);
      }
    } else {
      var i :| 0 <= i < |pieces| && !SegmentMatches(pieces[i], pp, i);
    }
  }

  /** An input with more segments than a pattern never matches it. */
  lemma LongerNeverMatches(pieces: seq<string>, route: Route)
    requires |pieces| > |Pieces(route.path)|
    ensures !RouteMatches(pieces, route)
  {
    RouteMatchesIff(pieces, route);
  }

  /** The INDEX route "/" becomes the single empty segment, so it matches nothing. */
  lemma IndexNeverMatches(path: string)
    ensures !RouteMatches(Pieces(path), PATHS[0])
  {
    assert Pieces(PATHS[0].path) == [""];
    RouteMatchesIff(Pieces(path), PATHS[0]);
  }

  /** A key without '_' is one word. */
  lemma FormatOneWord(key: string)
    requires '_' !in key
    ensures FormatName(key) == TitleWord(key)
  {
    SplitNoSeparator(key, '_');
  }

  /** A key `a_b` with one '_' becomes the two title words joined by a space. */
  lemma FormatTwoWords(a: string, b: string)
    requires '_' !in a && '_' !in b
    ensures FormatName(a + "_" + b) == TitleWord(a) + " " + TitleWord(b)
  {
    SplitFirst(a, '_', b);
    SplitNoSeparator(b, '_');
    assert a + "_" + b == a + ['_'] + b;
    assert Split(a + "_" + b, '_') == [a, b];
    var ws := MapTitleWords([a, b]);
    assert ws == [TitleWord(a), TitleWord(b)];
    assert ws[1..] == [TitleWord(b)];
    assert Join(ws, " ") == TitleWord(a) + " " + Join([TitleWord(b)], " ");
  }

  /** The titles of the four routes. */
  lemma RouteTitles()
    ensures FormatName(PATHS[0].name) == "Index"
    ensures FormatName(PATHS[1].name) == "Home"
    ensures FormatName(PATHS[2].name) == "One Player"
    ensures FormatName(PATHS[3].name) == "Multi Player"
  {
    TitleIndex();
    TitleHome();
    TitleOnePlayer();
    TitleMultiPlayer();
  }

  lemma TitleIndex()
    ensures FormatName("INDEX") == "Index"
  {
    TitleWordOf("INDEX", "Index");
    FormatOneWord("INDEX");
  }

  lemma TitleHome()
    ensures FormatName("HOME") == "Home"
  {
    TitleWordOf("HOME", "Home");
    FormatOneWord("HOME");
  }

  lemma TitleOnePlayer()
    ensures FormatName("ONE_PLAYER") == "One Player"
  {
    TitleWordOf("ONE", "One");
    TitleWordOf("PLAYER", "Player");
    FormatTwoWords("ONE", "PLAYER");
    SpellOnePlayer();
  }

  lemma SpellOnePlayer()
    ensures "ONE_PLAYER" == "ONE" + "_" + "PLAYER"
    ensures "One Player" == "One" + " " + "Player"
  {
  }

  lemma TitleMultiPlayer()
    ensures FormatName("MULTI_PLAYER") == "Multi Player"
  {
    TitleWordOf("MULTI", "Multi");
    TitleWordOf("PLAYER", "Player");
    FormatTwoWords("MULTI", "PLAYER");
    SpellMultiPlayer();
  }

  lemma SpellMultiPlayer()
    ensures "MULTI_PLAYER" == "MULTI" + "_" + "PLAYER"
    ensures "Multi Player" == "Multi" + " " + "Player"
  {
  }

  /** The title is that of the first route in `PATHS` that matches, and "Game"
      exactly when none does. */
  lemma {:induction false} TitleForFirstMatch(pieces: seq<string>)
    ensures TitleFor(pieces) == FALLBACK <==>
      forall j :: 0 <= j < |PATHS| ==> !RouteMatches(pieces, PATHS[j])
    ensures forall k :: (0 <= k < |PATHS| && RouteMatches(pieces, PATHS[k]) &&
                         (forall j :: 0 <= j < k ==> !RouteMatches(pieces, PATHS[j])))
                        ==> TitleFor(pieces) == FormatName(PATHS[k].name)
  {
    var r := FindRoute(pieces, PATHS, 0);
    if r.Some? {
      RouteTitles();
      var m := r.value;
      assert TitleFor(pieces) == FormatName(PATHS[m].name);
      if m == 0 {} else if m == 1 {} else if m == 2 {} else {}
      assert TitleFor(pieces) != FALLBACK;
    }
  }

  lemma PatternIndex()
    ensures Pieces(PATHS[0].path) == [""]
  {
    assert PATHS[0].path == "/";
    assert StripLeadingSlash("/") == "";
    assert '/' !in "";
    SplitNoSeparator("", '/');
  }
  lemma PatternHome()
    ensures Pieces(PATHS[1].path) == ["home"]
  {
    assert PATHS[1].path == "/home";
    assert StripLeadingSlash("/home") == "home";
    assert '/' !in "home";
    SplitNoSeparator("home", '/');
  }
  lemma PatternOnePlayer()
    ensures Pieces(PATHS[2].path) == ["one-player"]
  {
    assert PATHS[2].path == "/one-player";
    assert StripLeadingSlash("/one-player") == "one-player";
    assert '/' !in "one-player";
    SplitNoSeparator("one-player", '/');
  }
  lemma PatternMultiPlayer()
    ensures Pieces(PATHS[3].path) == ["multiplayer"]
  {
    assert PATHS[3].path == "/multiplayer";
    assert StripLeadingSlash("/multiplayer") == "multiplayer";
    assert '/' !in "multiplayer";
    SplitNoSeparator("multiplayer", '/');
  }

  /** A one-segment input against a one-segment pattern without ':'. */
  lemma OneSegmentMatches(seg: string, route: Route, pat: string)
    requires Pieces(route.path) == [pat] && pat != "" && pat[0] != ':'
    ensures RouteMatches([seg], route) <==> seg == pat
  {
    assert EveryFrom([seg], [pat], 1);
  }

  /** Which routes a one-segment input matches. */
  lemma OneSegmentRoutes(seg: string)
    ensures !RouteMatches([seg], PATHS[0])
    ensures RouteMatches([seg], PATHS[1]) <==> seg == "home"
    ensures RouteMatches([seg], PATHS[2]) <==> seg == "one-player"
    ensures RouteMatches([seg], PATHS[3]) <==> seg == "multiplayer"
  {
    PatternIndex();
    RouteMatchesIff([seg], PATHS[0]);
    PatternHome();
    OneSegmentMatches(seg, PATHS[1], "home");
    PatternOnePlayer();
    OneSegmentMatches(seg, PATHS[2], "one-player");
    PatternMultiPlayer();
    OneSegmentMatches(seg, PATHS[3], "multiplayer");
  }

  /** A one-segment input matches exactly the route whose pattern is that segment. */
  lemma OneSegmentFind(seg: string)
    ensures FindRoute([seg], PATHS, 0) ==
      if seg == "home" then Some(1)
      else if seg == "one-player" then Some(2)
      else if seg == "multiplayer" then Some(3)
      else None
  {
    OneSegmentRoutes(seg);
    assert FindRoute([seg], PATHS, 4) == None;
    assert FindRoute([seg], PATHS, 0) == FindRoute([seg], PATHS, 1);
  }

  lemma OneSegmentTitle(seg: string)
    ensures TitleFor([seg]) ==
      if seg == "home" then "Home"
      else if seg == "one-player" then "One Player"
      else if seg == "multiplayer" then "Multi Player"
      else FALLBACK
  {
    OneSegmentFind(seg);
    RouteTitles();
  }

  /** A path of one segment, with or without the leading '/', gets the title of
      the route whose pattern is that segment, and "Game" otherwise (so "/" and
      "" get "Game"). */
  lemma GetPageNameOneSegment(path: string, seg: string)
    requires '/' !in seg
    requires path == "/" + seg || path == seg
    ensures GetPageName(path) ==
      if seg == "home" then "Home"
      else if seg == "one-player" then "One Player"
      else if seg == "multiplayer" then "Multi Player"
      else "Game"
  {
    assert StripLeadingSlash(path) == seg;
    SplitNoSeparator(seg, '/');
    OneSegmentTitle(seg);
  }

  /** Every pattern in `PATHS` has one segment, so a path of two or more gives "Game". */
  lemma GetPageNameMultiSegment(path: string)
    requires |Pieces(path)| >= 2
    ensures GetPageName(path) == "Game"
  {
    var pieces := Pieces(path);
    PatternIndex();
    LongerNeverMatches(pieces, PATHS[0]);
    PatternHome();
    LongerNeverMatches(pieces, PATHS[1]);
    PatternOnePlayer();
    LongerNeverMatches(pieces, PATHS[2]);
    PatternMultiPlayer();
    LongerNeverMatches(pieces, PATHS[3]);
    assert FindRoute(pieces, PATHS, 0).None?;
  }

  // ---------------------------------------------------------------------
  // The title format, character by character.

  /** What `FormatName` puts at position `i` of a key: '_' becomes ' ', the
      first letter of each word is upper case and every other letter lower case. */
  function TitleChar(key: string, i: nat): char
    requires i < |key|
  {
    if key[i] == '_' then ' '
    else if i == 0 || key[i - 1] == '_' then UpperChar(LowerChar(key[i]))
    else LowerChar(key[i])
  }

  lemma TitleWordAt(w: string, i: nat)
    requires i < |w|
    ensures |TitleWord(w)| == |w|
    ensures TitleWord(w)[i] == if i == 0 then UpperChar(LowerChar(w[0])) else LowerChar(w[i])
  {
    var l := ToLower(w);
    if i > 0 {
      assert TitleWord(w) == [UpperChar(l[0])] + ToLower(l[1..]);
      assert TitleWord(w)[i] == ToLower(l[1..])[i - 1] == LowerChar(l[i]);
    }
  }

  lemma TitleWordOf(w: string, t: string)
    requires |w| == |t| > 0
    requires t[0] == UpperChar(LowerChar(w[0]))
    requires forall i :: 0 < i < |w| ==> t[i] == LowerChar(w[i])
    ensures TitleWord(w) == t
  {
    forall i | 0 <= i < |w| ensures TitleWord(w)[i] == t[i] {
      TitleWordAt(w, i);
    }
    TitleWordAt(w, 0);
  }

  lemma {:induction false} FormatJoinLength(parts: seq<string>)
    ensures |Join(MapTitleWords(parts), " ")| == |Join(parts, "_")|
    decreases |parts|
  {
    if |parts| > 0 {
      assert |TitleWord(parts[0])| == |parts[0]| by {
        assert |Capitalize(ToLower(parts[0]))| == |ToLower(parts[0])|;
      }
      if |parts| > 1 {
        FormatJoinLength(parts[1..]);
        assert MapTitleWords(parts) == [TitleWord(parts[0])] + MapTitleWords(parts[1..]);
      }
    }
  }

  lemma {:induction false} FormatJoinAt(parts: seq<string>, i: nat)
    requires |parts| >= 1
    requires forall j :: 0 <= j < |parts| ==> '_' !in parts[j]
    requires i < |Join(parts, "_")|
    ensures |Join(MapTitleWords(parts), " ")| == |Join(parts, "_")|
    ensures Join(MapTitleWords(parts), " ")[i] == TitleChar(Join(parts, "_"), i)
    decreases |parts|
  {
    FormatJoinLength(parts);
    var s := Join(parts, "_");
    var t := Join(MapTitleWords(parts), " ");
    var p0 := parts[0];
    var w0 := TitleWord(p0);
    assert |w0| == |p0| by { assert |Capitalize(ToLower(p0))| == |ToLower(p0)|; }
    if |parts| == 1 {
      assert s == p0 && t == w0;
      assert s[i] != '_' by { assert s[i] in p0; }
      if i > 0 { assert s[i - 1] in p0; }
      TitleWordAt(p0, i);
    } else {
      var sr := Join(parts[1..], "_");
      var tr := Join(MapTitleWords(parts[1..]), " ");
      FormatJoinLength(parts[1..]);
      assert MapTitleWords(parts) == [w0] + MapTitleWords(parts[1..]);
      assert s == p0 + "_" + sr;
      assert t == w0 + " " + tr;
      if i < |p0| {
        assert s[i] == p0[i] && s[i] != '_';
        if i > 0 { assert s[i - 1] == p0[i - 1] && s[i - 1] != '_'; }
        TitleWordAt(p0, i);
      } else if i == |p0| {
      } else {
        var k := i - |p0| - 1;
        FormatJoinAt(parts[1..], k);
        assert s[i] == sr[k];
        assert t[i] == tr[k];
        if k > 0 { assert s[i - 1] == sr[k - 1]; } else { assert s[i - 1] == '_'; }
      }
    }
  }

  /** `FormatName` keeps the length of the key and changes it character by
      character as `TitleChar` says. */
  lemma FormatNameAt(key: string, i: nat)
    requires i < |key|
    ensures |FormatName(key)| == |key|
    ensures FormatName(key)[i] == TitleChar(key, i)
  {
    JoinSplit(key, '_');
    FormatJoinAt(Split(key, '_'), i);
  }
}
