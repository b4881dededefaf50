/** Model of packages/client/src/helpers/getQueryParams.ts: the query dictionary
    filled by a global `replace` with the pattern `[?&]+([^=&]+)=([^&]*)`. The
    regular expression is modelled as the matcher it is, backtracking included;
    the replace callback becomes the body of a loop over search positions. */
module QueryParams {

  import opened Wrappers

  predicate IsSeparator(c: char)
  {
    c == '?' || c == '&'
  }

  /** Characters the key group `[^=&]` accepts. */
  predicate IsKeyChar(c: char)
  {
    c != '=' && c != '&'
  }

  /** The end of the run of `?`/`&` characters that starts at `i`. */
  function SeparatorRunEnd(s: string, i: nat): (e: nat)
    requires i <= |s|
    ensures i <= e <= |s|
    ensures forall j :: i <= j < e ==> IsSeparator(s[j])
    ensures e == |s| || !IsSeparator(s[e])
    decreases |s| - i
  {
    if i < |s| && IsSeparator(s[i]) then SeparatorRunEnd(s, i + 1) else i
  }

  /** Where the greedy key group `[^=&]+` starting at `i` stops. */
  function KeyEnd(s: string, i: nat): (e: nat)
    requires i <= |s|
    ensures i <= e <= |s|
    ensures forall j :: i <= j < e ==> IsKeyChar(s[j])
    ensures e == |s| || !IsKeyChar(s[e])
    decreases |s| - i
  {
    if i < |s| && IsKeyChar(s[i]) then KeyEnd(s, i + 1) else i
  }

  /** Where the greedy value group `[^&]*` starting at `i` stops. */
  function ValueEnd(s: string, i: nat): (e: nat)
    requires i <= |s|
    ensures i <= e <= |s|
    ensures forall j :: i <= j < e ==> s[j] != '&'
    ensures e == |s| || s[e] == '&'
    decreases |s| - i
  {
    if i < |s| && s[i] != '&' then ValueEnd(s, i + 1) else i
  }

  /** One match of the pattern: where its key starts, the two groups, and
      where the whole match ends. */
  datatype Match = Match(keyStart: nat, key: string, value: string, end: nat)

  /** `key=value` stands at `keyStart` in `s`, right after a `?` or `&`, with a
      non-empty key free of `=` and `&` and the value running up to the next
      `&` or the end of `s`. */
  ghost predicate PairAt(s: string, keyStart: nat, key: string, value: string)
  {
    && 0 < keyStart
    && keyStart + |key| + 1 + |value| <= |s|
    && IsSeparator(s[keyStart - 1])
    && key != "" && '=' !in key && '&' !in key && '&' !in value
    && s[keyStart..keyStart + |key|] == key
    && s[keyStart + |key|] == '='
    && s[keyStart + |key| + 1..keyStart + |key| + 1 + |value|] == value
    && (keyStart + |key| + 1 + |value| == |s| || s[keyStart + |key| + 1 + |value|] == '&')
  }

  /** The rest of the pattern, `([^=&]+)=([^&]*)`, tried with the key starting at `k`.
      The key group cannot shrink to a shorter key (the next character would be
      a key character, not '='), so only the greedy key can succeed. */
  function MatchKeyAt(s: string, k: nat): (r: Option<Match>)
    requires 0 < k <= |s| && IsSeparator(s[k - 1])
    ensures r.Some? ==> r.value.keyStart == k && PairAt(s, k, r.value.key, r.value.value)
    ensures r.Some? ==> r.value.end == k + |r.value.key| + 1 + |r.value.value|
  {
    var e := KeyEnd(s, k);
    if e > k && e < |s| && s[e] == '=' then
      var v := ValueEnd(s, e + 1);
      Some(Match(k, s[k..e], s[e + 1..v], v))
    else
      None
  }

  /** Backtracking over the separator `[?&]+` at `p`: it first takes `len`
      characters, then gives one back at a time, down to one. */
  function MatchSeparatorOf(s: string, p: nat, len: nat): (r: Option<Match>)
    requires p + len <= |s|
    requires forall j :: p <= j < p + len ==> IsSeparator(s[j])
    ensures r.Some? ==> p < r.value.keyStart <= p + len
    ensures r.Some? ==> PairAt(s, r.value.keyStart, r.value.key, r.value.value)
    ensures r.Some? ==> r.value.end == r.value.keyStart + |r.value.key| + 1 + |r.value.value|
  {
    if len == 0 then None
    else
      match MatchKeyAt(s, p + len)
      case Some(m) => Some(m)
      case None => MatchSeparatorOf(s, p, len - 1)
  }

  /** The match the regular expression finds when tried at position `p`, if any. */
  function MatchAt(s: string, p: nat): (r: Option<Match>)
    requires p <= |s|
    ensures r.Some? ==> p < r.value.keyStart && r.value.end <= |s|
    ensures r.Some? ==> PairAt(s, r.value.keyStart, r.value.key, r.value.value)
    ensures r.Some? ==> r.value.end == r.value.keyStart + |r.value.key| + 1 + |r.value.value|
  {
    MatchSeparatorOf(s, p, SeparatorRunEnd(s, p) - p)
  }

  /** `query[key] = value` on a plain object: assigning to `__proto__` goes to
      the inherited prototype setter, which ignores a string, so that key is
      never stored. */
  function Record(query: map<string, string>, key: string, value: string): map<string, string>
  {
    if key == "__proto__" then query else query[key := value]
  }

  /** The dictionary after the global search has gone on from position `pos`
      with `query` filled so far: a match at `pos` is recorded and the search
      resumes where it ends; otherwise the search moves one character on. */
  function ScanFrom(s: string, pos: nat, query: map<string, string>): map<string, string>
    requires pos <= |s|
    decreases |s| - pos
  {
    if pos == |s| then query
    else
      match MatchAt(s, pos)
      case None => ScanFrom(s, pos + 1, query)
      case Some(m) => ScanFrom(s, m.end, Record(query, m.key, m.value))
  }

  /** The matches the global search finds from position `pos` on, in the
      order it finds them; the search resumes where each match ends. */
  function Matches(s: string, pos: nat): (ms: seq<Match>)
    requires pos <= |s|
    ensures forall i :: 0 <= i < |ms| ==>
      pos < ms[i].keyStart && ms[i].end <= |s| && PairAt(s, ms[i].keyStart, ms[i].key, ms[i].value)
    ensures forall i, j :: 0 <= i < j < |ms| ==> ms[i].end < ms[j].keyStart
    decreases |s| - pos
  {
    if pos == |s| then []
    else
      match MatchAt(s, pos)
      case None => Matches(s, pos + 1)
      case Some(m) => [m] + Matches(s, m.end)
  }

  /** `query` after recording the matches `ms` one after the other. */
  function RecordAll(query: map<string, string>, ms: seq<Match>): map<string, string>
    decreases |ms|
  {
    if ms == [] then query else RecordAll(Record(query, ms[0].key, ms[0].value), ms[1..])
  }

  /** The dictionary `getQueryParams` returns for `url`: every match the
      search finds, recorded in the order they are found. */
  function Query(url: string): (r: map<string, string>)
    ensures r == RecordAll(map[], Matches(url, 0))
  {
    ScanFromRecordsMatches(url, 0, map[]);
    ScanFrom(url, 0, map[])
  }

  /** `getQueryParams(url = "")`. */
  method GetQueryParams(url: Option<string>) returns (query: map<string, string>)
    ensures url.None? ==> query == map[]
    ensures url.Some? ==> query == Query(url.value)
  {
    var s := if url.Some? then url.value else "";
    query := map[];
    var pos := 0;
    while pos < |s|
      invariant pos <= |s|
      invariant ScanFrom(s, pos, query) == ScanFrom(s, 0, map[])
      decreases |s| - pos
    {
      var m := MatchAt(s, pos);
      assert ScanFrom(s, pos, query) ==
        if m.Some? then ScanFrom(s, m.value.end, Record(query, m.value.key, m.value.value))
        else ScanFrom(s, pos + 1, query);
      if m.Some? {
        query := Record(query, m.value.key, m.value.value);
        pos := m.value.end;
      } else {
        pos := pos + 1;
      }
    }
    assert ScanFrom(s, pos, query) == query;
    assert Query(s) == ScanFrom(s, 0, map[]);
  }

  // ---------------------------------------------------------------------
  // Properties.

  /** Every entry of `r` is either kept from `query` or a `key=value` pair
      standing in `s` after position `pos`, with a key other than `__proto__`. */
  ghost predicate FoundAfter(s: string, pos: nat, query: map<string, string>, r: map<string, string>)
  {
    forall k :: k in r ==>
      (k in query && r[k] == query[k]) ||
      (k != "__proto__" && exists ks :: pos < ks && PairAt(s, ks, k, r[k]))
  }

  /** Every pair the scan adds from `pos` on stands in `s` after position `pos`. */
  lemma {:induction false} ScanFromSound(s: string, pos: nat, query: map<string, string>)
    requires pos <= |s|
    ensures FoundAfter(s, pos, query, ScanFrom(s, pos, query))
    decreases |s| - pos
  {
    if pos < |s| {
      var r := ScanFrom(s, pos, query);
      match MatchAt(s, pos)
      case None =>
        ScanFromSound(s, pos + 1, query);
        FoundAfterEarlier(s, pos, pos + 1, query, r);
      case Some(m) =>
        var q' := Record(query, m.key, m.value);
        ScanFromSound(s, m.end, q');
        assert r == ScanFrom(s, m.end, q');
        FoundAfterMatch(s, pos, query, m, r);
    }
  }

  /** A pair found after `b` is found after any `a <= b`. */
  lemma FoundAfterEarlier(s: string, a: nat, b: nat, query: map<string, string>, r: map<string, string>)
    requires a <= b
    requires FoundAfter(s, b, query, r)
    ensures FoundAfter(s, a, query, r)
  {
    forall k | k in r && !(k in query && r[k] == query[k])
      ensures k != "__proto__" && exists ks :: a < ks && PairAt(s, ks, k, r[k])
    {
      var ks :| b < ks && PairAt(s, ks, k, r[k]);
    }
  }

  /** Recording the match found at `pos` and going on after it keeps every
      entry either from `query` or found after `pos`. */
  lemma FoundAfterMatch(s: string, pos: nat, query: map<string, string>, m: Match, r: map<string, string>)
    requires pos < m.keyStart <= m.end
    requires PairAt(s, m.keyStart, m.key, m.value)
    requires FoundAfter(s, m.end, Record(query, m.key, m.value), r)
    ensures FoundAfter(s, pos, query, r)
  {
    var q' := Record(query, m.key, m.value);
    forall k | k in r && !(k in query && r[k] == query[k])
      ensures k != "__proto__" && exists ks :: pos < ks && PairAt(s, ks, k, r[k])
    {
      if k in q' && r[k] == q'[k] {
        assert k == m.key && m.key != "__proto__";
        assert PairAt(s, m.keyStart, k, r[k]);
      } else {
        var ks :| m.end < ks && PairAt(s, ks, k, r[k]);
      }
    }
  }

  /** Every key of the dictionary, with its value, stands in the url right
      after a `?` or `&`: `key=value` with the value running to the next `&`
      or the end, taken as it is (no percent-decoding, no '+' translation, no
      '#' stripping). */
  lemma QueryPairsInUrl(url: string)
    ensures forall k :: k in Query(url) ==>
      k != "__proto__" && exists ks :: PairAt(url, ks, k, Query(url)[k])
  {
    ScanFromSound(url, 0, map[]);
    assert FoundAfter(url, 0, map[], Query(url));
  }

  /** Scanning from `pos` records exactly the matches found from `pos` on, in order. */
  lemma {:induction false} ScanFromRecordsMatches(s: string, pos: nat, query: map<string, string>)
    requires pos <= |s|
    ensures ScanFrom(s, pos, query) == RecordAll(query, Matches(s, pos))
    decreases |s| - pos
  {
    if pos < |s| {
      match MatchAt(s, pos)
      case None =>
        ScanFromRecordsMatches(s, pos + 1, query);
      case Some(m) =>
        ScanFromRecordsMatches(s, m.end, Record(query, m.key, m.value));
        var ms := Matches(s, pos);
        assert ms == [m] + Matches(s, m.end);
        assert ms[1..] == Matches(s, m.end);
    }
  }

  /** Recording matches none of which has key `k` leaves the entry for `k` as it was. */
  lemma {:induction false} RecordAllUntouched(query: map<string, string>, ms: seq<Match>, k: string)
    requires forall l :: 0 <= l < |ms| ==> ms[l].key != k
    ensures k in RecordAll(query, ms) <==> k in query
    ensures k in query ==> RecordAll(query, ms)[k] == query[k]
    decreases |ms|
  {
    if ms != [] {
      assert forall l :: 0 <= l < |ms| - 1 ==> ms[1..][l] == ms[l + 1];
      RecordAllUntouched(Record(query, ms[0].key, ms[0].value), ms[1..], k);
    }
  }

  /** A key recorded by its last match holds that match's value at the end. */
  lemma {:induction false} RecordAllLast(query: map<string, string>, ms: seq<Match>, j: nat)
    requires j < |ms| && ms[j].key != "__proto__"
    requires forall l :: j < l < |ms| ==> ms[l].key != ms[j].key
    ensures ms[j].key in RecordAll(query, ms) && RecordAll(query, ms)[ms[j].key] == ms[j].value
    decreases |ms|
  {
    var q' := Record(query, ms[0].key, ms[0].value);
    assert forall l :: 0 <= l < |ms| - 1 ==> ms[1..][l] == ms[l + 1];
    if j == 0 {
      RecordAllUntouched(q', ms[1..], ms[0].key);
    } else {
      RecordAllLast(q', ms[1..], j - 1);
    }
  }

  /** After recording `ms`, a key is present iff it was in `query` or some
      match other than `__proto__` has it. */
  lemma {:induction false} RecordAllKeys(query: map<string, string>, ms: seq<Match>, k: string)
    ensures k in RecordAll(query, ms) <==>
      k in query || (k != "__proto__" && exists j :: 0 <= j < |ms| && ms[j].key == k)
    decreases |ms|
  {
    if ms != [] {
      var q' := Record(query, ms[0].key, ms[0].value);
      RecordAllKeys(q', ms[1..], k);
      if k != "__proto__" && exists j :: 0 <= j < |ms| && ms[j].key == k {
        var j :| 0 <= j < |ms| && ms[j].key == k;
        if j > 0 {
          assert ms[1..][j - 1].key == k;
        }
      }
      if exists j :: 0 <= j < |ms| - 1 && ms[1..][j].key == k {
        var j :| 0 <= j < |ms| - 1 && ms[1..][j].key == k;
        assert ms[j + 1].key == k;
      }
    }
  }

  /** Completeness of `getQueryParams`: every key the search matches, other
      than `__proto__`, is in the dictionary with the value of its last
      match, and the dictionary has no other key. */
  lemma QueryComplete(url: string)
    ensures var ms := Matches(url, 0);
      forall j :: (0 <= j < |ms| && ms[j].key != "__proto__" &&
                   (forall l :: j < l < |ms| ==> ms[l].key != ms[j].key)) ==>
        ms[j].key in Query(url) && Query(url)[ms[j].key] == ms[j].value
    ensures var ms := Matches(url, 0);
      forall k :: k in Query(url) <==>
        k != "__proto__" && exists j :: 0 <= j < |ms| && ms[j].key == k
  {
    var ms := Matches(url, 0);
    forall j | 0 <= j < |ms| && ms[j].key != "__proto__" &&
        (forall l :: j < l < |ms| ==> ms[l].key != ms[j].key)
      ensures ms[j].key in Query(url) && Query(url)[ms[j].key] == ms[j].value
    {
      RecordAllLast(map[], ms, j);
    }
    forall k
      ensures k in Query(url) <==> k != "__proto__" && exists j :: 0 <= j < |ms| && ms[j].key == k
    {
      RecordAllKeys(map[], ms, k);
    }
  }

  /** Every key is non-empty and free of `=` and `&`; no value holds `&`. */
  lemma QueryShape(url: string)
    ensures forall k :: k in Query(url) ==>
      k != "" && '=' !in k && '&' !in k && '&' !in Query(url)[k]
  {
    QueryPairsInUrl(url);
  }

  /** A position holding neither `?` nor `&` starts no match. */
  lemma {:induction false} ScanSkipsPlain(s: string, pos: nat, to: nat, query: map<string, string>)
    requires pos <= to <= |s|
    requires forall i :: pos <= i < to ==> !IsSeparator(s[i])
    ensures ScanFrom(s, pos, query) == ScanFrom(s, to, query)
    decreases |s| - pos
  {
    if pos < to {
      assert SeparatorRunEnd(s, pos) == pos;
      ScanSkipsPlain(s, pos + 1, to, query);
    }
  }

  /** Without a `?` or `&` nothing is recorded (so "a=b" yields an empty dictionary). */
  lemma NoSeparatorNoPairs(url: string)
    requires forall i :: 0 <= i < |url| ==> !IsSeparator(url[i])
    ensures Query(url) == map[]
  {
    ScanSkipsPlain(url, 0, |url|, map[]);
  }

  // The three greedy runs end where their contracts say, so they are
  // determined by any end that meets them.

  lemma SeparatorRunEndIs(s: string, i: nat, e: nat)
    requires i <= e <= |s|
    requires forall j :: i <= j < e ==> IsSeparator(s[j])
    requires e == |s| || !IsSeparator(s[e])
    ensures SeparatorRunEnd(s, i) == e
  {
  }

  lemma KeyEndIs(s: string, i: nat, e: nat)
    requires i <= e <= |s|
    requires forall j :: i <= j < e ==> IsKeyChar(s[j])
    requires e == |s| || !IsKeyChar(s[e])
    ensures KeyEnd(s, i) == e
  {
  }

  lemma ValueEndIs(s: string, i: nat, e: nat)
    requires i <= e <= |s|
    requires forall j :: i <= j < e ==> s[j] != '&'
    requires e == |s| || s[e] == '&'
    ensures ValueEnd(s, i) == e
  {
  }

  lemma ExampleEmpty()
    ensures Query("") == map[]
  {
  }

  /** A segment without '=' contributes nothing, and the pair after it is still found. */
  lemma ExampleFlag(url: string)
    requires url == "?flag&x=1"
    ensures Query(url) == map["x" := "1"]
  {
    SeparatorRunEndIs(url, 0, 1);
    KeyEndIs(url, 1, 5);
    assert MatchAt(url, 0) == None;
    ScanSkipsPlain(url, 1, 5, map[]);
    SeparatorRunEndIs(url, 5, 6);
    KeyEndIs(url, 6, 7);
    ValueEndIs(url, 8, 9);
    assert url[6..7] == "x" && url[8..9] == "1";
    assert MatchAt(url, 5) == Some(Match(6, "x", "1", 9));
  }

  /** Backtracking: in "??=1" the separator gives back one '?' and the key is "?". */
  lemma ExampleBacktrack(url: string)
    requires url == "??=1"
    ensures Query(url) == map["?" := "1"]
  {
    SeparatorRunEndIs(url, 0, 2);
    KeyEndIs(url, 2, 2);
    assert MatchKeyAt(url, 2) == None;
    KeyEndIs(url, 1, 2);
    ValueEndIs(url, 3, 4);
    assert url[1..2] == "?" && url[3..4] == "1";
    assert MatchKeyAt(url, 1) == Some(Match(1, "?", "1", 4));
    assert MatchSeparatorOf(url, 0, 1) == Some(Match(1, "?", "1", 4));
    assert MatchAt(url, 0) == MatchSeparatorOf(url, 0, 2) == MatchSeparatorOf(url, 0, 1);
    assert Query(url) == ScanFrom(url, 4, map["?" := "1"]);
  }

  /** A later occurrence of a key overwrites the earlier one. */
  lemma ExampleOverwrite(url: string)
    requires url == "?a=1&a=2"
    ensures Query(url) == map["a" := "2"]
  {
    SeparatorRunEndIs(url, 0, 1);
    KeyEndIs(url, 1, 2);
    ValueEndIs(url, 3, 4);
    assert url[1..2] == "a" && url[3..4] == "1";
    assert MatchAt(url, 0) == Some(Match(1, "a", "1", 4));
    SeparatorRunEndIs(url, 4, 5);
    KeyEndIs(url, 5, 6);
    ValueEndIs(url, 7, 8);
    assert url[5..6] == "a" && url[7..8] == "2";
    assert MatchAt(url, 4) == Some(Match(5, "a", "2", 8));
    assert ScanFrom(url, 4, map["a" := "1"]) == ScanFrom(url, 8, map["a" := "1"]["a" := "2"]);
    assert map["a" := "1"]["a" := "2"] == map["a" := "2"];
  }

  /** Values are raw: "%20", '+' and '#' are kept as they are. */
  lemma ExampleRaw(url: string)
    requires url == "?q=%20+#x"
    ensures Query(url) == map["q" := "%20+#x"]
  {
    SeparatorRunEndIs(url, 0, 1);
    KeyEndIs(url, 1, 2);
    ValueEndIs(url, 3, 9);
    assert url[1..2] == "q" && url[3..9] == "%20+#x";
    assert MatchAt(url, 0) == Some(Match(1, "q", "%20+#x", 9));
    assert Query(url) == ScanFrom(url, 9, map["q" := "%20+#x"]);
  }

  /** Assigning to `__proto__` on the dictionary object stores nothing. */
  lemma ExampleProto(url: string)
    requires url == "?__proto__=x"
    ensures Query(url) == map[]
  {
    SeparatorRunEndIs(url, 0, 1);
    KeyEndIs(url, 1, 10);
    ValueEndIs(url, 11, 12);
    assert url[1..10] == "__proto__" && url[10] == '=' && url[11..12] == "x";
    assert MatchAt(url, 0) == Some(Match(1, "__proto__", "x", 12));
    assert Query(url) == ScanFrom(url, 12, map[]);
  }
}
