/**
 * The album store's search-string parser (`filterSet`).
 *
 * Three global regular-expression replacements run in a fixed order over the
 * query, `(\w+):(\w+)`, then `(\w+):"([^"]+)"`, then `(\w+):'([^']+)'`; each
 * deletes its matches from the text and records `predicates[key] = value`.
 * What is left is trimmed and becomes the free-text entry `query`, and the
 * predicates are spread over it.
 */
module QueryParser {
  import opened Options

  /** `\w` of a JavaScript regular expression without the `u` flag. */
  predicate IsWordChar(c: char) {
    ('a' <= c <= 'z') || ('A' <= c <= 'Z') || ('0' <= c <= '9') || c == '_'
  }

  /** The code points that String.prototype.trim removes: WhiteSpace and LineTerminator. */
  predicate IsTrimmed(c: char) {
    || c == '\t' || c == '\n' || c == '\U{000B}' || c == '\U{000C}' || c == '\r' || c == ' '
    || c == '\U{00A0}' || c == '\U{1680}' || ('\U{2000}' <= c <= '\U{200A}')
    || c == '\U{2028}' || c == '\U{2029}' || c == '\U{202F}' || c == '\U{205F}'
    || c == '\U{3000}' || c == '\U{FEFF}'
  }

  /** `(\w+):(\w+)` is `Bare`; `(\w+):"([^"]+)"` and `(\w+):'([^']+)'` are `Quoted`. */
  datatype Pattern = Bare | Quoted(quote: char)

  /** The passes, in the order the parser applies them. */
  const Passes: seq<Pattern> := [Bare, Quoted('"'), Quoted('\'')]

  /** One match of a pass: its span [start, end) in the text the pass ran on, and its two groups. */
  datatype Capture = Capture(start: nat, end: nat, key: string, value: string)

  // ---------------------------------------------------------------------------
  // What a match is, stated without reference to how one is found
  // ---------------------------------------------------------------------------

  /** s[i..k] is a match of `p` whose first group is s[i..j]; s[j] is the colon. */
  ghost predicate IsMatch(p: Pattern, s: string, i: nat, j: nat, k: nat) {
    && i < j < k <= |s|
    && (forall t :: i <= t < j ==> IsWordChar(s[t]))
    && s[j] == ':'
    && match p
       case Bare =>
         j + 1 < k && forall t :: j < t < k ==> IsWordChar(s[t])
       case Quoted(q) =>
         && j + 2 < k - 1 && s[j + 1] == q && s[k - 1] == q
         && forall t :: j + 1 < t < k - 1 ==> s[t] != q
  }

  /** No match of `p` starts at index i of s. */
  ghost predicate NoMatchAt(p: Pattern, s: string, i: nat) {
    forall j, k :: !IsMatch(p, s, i, j, k)
  }

  /** The capture the replacement callback receives for the match s[i..k] split at j. */
  ghost function CaptureOf(p: Pattern, s: string, i: nat, j: nat, k: nat): Capture
    requires IsMatch(p, s, i, j, k)
  {
    Capture(i, k, s[i..j], if p.Bare? then s[j + 1..k] else s[j + 2..k - 1])
  }

  // ---------------------------------------------------------------------------
  // The matcher
  // ---------------------------------------------------------------------------

  /** The end of the run of word characters that starts at i. */
  function WordEnd(s: string, i: nat): (j: nat)
    requires i <= |s|
    ensures i <= j <= |s|
    ensures forall t :: i <= t < j ==> IsWordChar(s[t])
    ensures j < |s| ==> !IsWordChar(s[j])
    decreases |s| - i
  {
    if i < |s| && IsWordChar(s[i]) then WordEnd(s, i + 1) else i
  }

  /** The index of the first `q` at or after i, or |s| when there is none. */
  function QuoteEnd(s: string, i: nat, q: char): (m: nat)
    requires i <= |s|
    ensures i <= m <= |s|
    ensures forall t :: i <= t < m ==> s[t] != q
    ensures m < |s| ==> s[m] == q
    decreases |s| - i
  {
    if i < |s| && s[i] != q then QuoteEnd(s, i + 1, q) else i
  }

  /**
   * The match the backtracking engine reports when it tries `p` at index i.
   * The key run is maximal because `:` is not a word character; a bare value
   * is greedy; a quoted value runs to the first closing quote.
   */
  function MatchAt(p: Pattern, s: string, i: nat): (r: Option<Capture>)
    requires i <= |s|
    ensures r.Some? ==> r.value.start == i < r.value.end <= |s|
  {
    var j := WordEnd(s, i);
    if j == i || j == |s| || s[j] != ':' then
      None
    else
      match p
      case Bare =>
        var k := WordEnd(s, j + 1);
        if k == j + 1 then None else Some(Capture(i, k, s[i..j], s[j + 1..k]))
      case Quoted(q) =>
        if j + 1 == |s| || s[j + 1] != q then None
        else
          var m := QuoteEnd(s, j + 2, q);
          if m == j + 2 || m == |s| then None else Some(Capture(i, m + 1, s[i..j], s[j + 2..m]))
  }

  /** What the engine reports at i is a match, with the groups the callback receives. */
  lemma {:induction false} MatchAtSound(p: Pattern, s: string, i: nat)
    requires i <= |s| && MatchAt(p, s, i).Some?
    ensures IsMatch(p, s, i, i + |MatchAt(p, s, i).value.key|, MatchAt(p, s, i).value.end)
    ensures MatchAt(p, s, i).value == CaptureOf(p, s, i, i + |MatchAt(p, s, i).value.key|, MatchAt(p, s, i).value.end)
  {
  }

  /**
   * Whenever a match starts at i the engine reports one there, with the same
   * key, and no shorter: the longest for a bare value, the only one for a
   * quoted value.
   */
  lemma {:induction false} MatchAtComplete(p: Pattern, s: string, i: nat, j: nat, k: nat)
    requires IsMatch(p, s, i, j, k)
    ensures MatchAt(p, s, i).Some?
    ensures j == i + |MatchAt(p, s, i).value.key| && k <= MatchAt(p, s, i).value.end
    ensures p.Quoted? ==> k == MatchAt(p, s, i).value.end
  {
    assert WordEnd(s, i) == j;
  }

  // ---------------------------------------------------------------------------
  // One global replacement: `text.replace(/…/g, callback returning '')`
  // ---------------------------------------------------------------------------

  /** The text left by a pass and the captures, in the order the callback saw them. */
  datatype PassResult = PassResult(text: string, captures: seq<Capture>)

  /** The pass from index i on: leftmost matches, left to right, never overlapping. */
  function Scan(p: Pattern, s: string, i: nat): (r: PassResult)
    requires i <= |s|
    ensures |r.text| <= |s| - i
    ensures forall a :: 0 <= a < |r.captures| ==> i <= r.captures[a].start < r.captures[a].end <= |s|
    decreases |s| - i
  {
    if i == |s| then
      PassResult([], [])
    else
      match MatchAt(p, s, i)
      case None =>
        var rest := Scan(p, s, i + 1);
        PassResult([s[i]] + rest.text, rest.captures)
      case Some(c) =>
        var rest := Scan(p, s, c.end);
        PassResult(rest.text, [c] + rest.captures)
  }

  /** Where no match starts, a pass keeps the character and goes on with the next one. */
  lemma {:induction false} ScanKeepsChar(p: Pattern, s: string, i: nat)
    requires i < |s| && MatchAt(p, s, i).None?
    ensures Scan(p, s, i) == PassResult([s[i]] + Scan(p, s, i + 1).text, Scan(p, s, i + 1).captures)
  {
  }

  /** The captures lie in s[i..], in order and without overlapping. */
  ghost predicate Ordered(s: string, i: nat, caps: seq<Capture>) {
    && (forall a :: 0 <= a < |caps| ==> i <= caps[a].start < caps[a].end <= |s|)
    && (forall a, b :: 0 <= a < b < |caps| ==> caps[a].end <= caps[b].start)
  }

  /** Index q lies inside one of the captured spans. */
  ghost predicate Covered(q: nat, caps: seq<Capture>) {
    exists c :: c in caps && c.start <= q < c.end
  }

  /** s[i..] with every captured span deleted. */
  ghost function Gaps(s: string, i: nat, caps: seq<Capture>): string
    requires i <= |s| && Ordered(s, i, caps)
    decreases |caps|
  {
    if caps == [] then s[i..]
    else s[i..caps[0].start] + Gaps(s, caps[0].end, caps[1..])
  }

  /** A capture in front of ordered captures that start after it keeps them ordered. */
  lemma {:induction false} OrderedCons(s: string, i: nat, c: Capture, caps: seq<Capture>)
    requires i <= c.start < c.end <= |s| && Ordered(s, c.end, caps)
    ensures Ordered(s, i, [c] + caps)
  {
    var caps' := [c] + caps;
    forall a, b | 0 <= a < b < |caps'| ensures caps'[a].end <= caps'[b].start {
      assert caps'[b] == caps[b - 1];
      if a > 0 {
        assert caps'[a] == caps[a - 1];
      }
    }
  }

  /** Captures that lie in s[i + 1..] lie in s[i..]. */
  lemma {:induction false} OrderedBefore(s: string, i: nat, caps: seq<Capture>)
    requires Ordered(s, i + 1, caps)
    ensures Ordered(s, i, caps)
  {
  }

  /** Captures that are each the match reported at their start stay so with one more in front. */
  lemma {:induction false} ReportedCons(p: Pattern, s: string, c: Capture, caps: seq<Capture>)
    requires c.start <= |s| && MatchAt(p, s, c.start) == Some(c)
    requires forall d :: d in caps ==> d.start <= |s| && MatchAt(p, s, d.start) == Some(d)
    ensures forall d :: d in [c] + caps ==> d.start <= |s| && MatchAt(p, s, d.start) == Some(d)
  {
  }

  /** Every capture is the match the engine reports at its start; captures are ordered and disjoint. */
  lemma {:induction false} ScanCapturesAreMatches(p: Pattern, s: string, i: nat)
    requires i <= |s|
    ensures Ordered(s, i, Scan(p, s, i).captures)
    ensures forall c :: c in Scan(p, s, i).captures ==> MatchAt(p, s, c.start) == Some(c)
    decreases |s| - i
  {
    if i < |s| {
      match MatchAt(p, s, i)
      case None =>
        ScanCapturesAreMatches(p, s, i + 1);
        ScanKeepsChar(p, s, i);
        OrderedBefore(s, i, Scan(p, s, i + 1).captures);
      case Some(c) =>
        ScanCapturesAreMatches(p, s, c.end);
        OrderedCons(s, i, c, Scan(p, s, c.end).captures);
        ReportedCons(p, s, c, Scan(p, s, c.end).captures);
    }
  }

  /** The text a pass leaves is its input with exactly the captured spans deleted. */
  lemma {:induction false} ScanDeletesCaptures(p: Pattern, s: string, i: nat)
    requires i <= |s|
    ensures Ordered(s, i, Scan(p, s, i).captures)
    ensures Scan(p, s, i).text == Gaps(s, i, Scan(p, s, i).captures)
    decreases |s| - i
  {
    if i < |s| {
      match MatchAt(p, s, i)
      case None =>
        ScanDeletesCaptures(p, s, i + 1);
        KeptCharJoinsGap(s, i, Scan(p, s, i + 1).captures);
      case Some(c) =>
        ScanDeletesCaptures(p, s, c.end);
        CaptureJoinsGap(s, c, Scan(p, s, c.end).captures);
    }
  }

  /** Deleting a capture that starts at the front leaves the gaps after it. */
  lemma {:induction false} CaptureJoinsGap(s: string, c: Capture, caps: seq<Capture>)
    requires c.start < c.end <= |s| && Ordered(s, c.end, caps)
    ensures Ordered(s, c.start, [c] + caps)
    ensures Gaps(s, c.start, [c] + caps) == Gaps(s, c.end, caps)
  {
    assert ([c] + caps)[1..] == caps;
    assert s[c.start..c.start] == [];
  }

  /** Keeping s[i] in front of the gaps of s[i + 1..] gives the gaps of s[i..]. */
  lemma {:induction false} KeptCharJoinsGap(s: string, i: nat, caps: seq<Capture>)
    requires i < |s| && Ordered(s, i + 1, caps)
    ensures Ordered(s, i, caps)
    ensures Gaps(s, i, caps) == [s[i]] + Gaps(s, i + 1, caps)
  {
    assert Ordered(s, i, caps);
    if caps != [] {
      var start, rest := caps[0].start, Gaps(s, caps[0].end, caps[1..]);
      assert Gaps(s, i + 1, caps) == s[i + 1..start] + rest;
      assert Gaps(s, i, caps) == s[i..start] + rest;
      ConsSlice(s, i, start, rest);
    } else {
      assert s[i..] == [s[i]] + s[i + 1..];
    }
  }

  /** Keeping s[i] in front of s[i + 1..m] and a tail is keeping s[i..m] in front of it. */
  lemma {:induction false} ConsSlice(s: string, i: nat, m: nat, tail: string)
    requires i < m <= |s|
    ensures [s[i]] + (s[i + 1..m] + tail) == s[i..m] + tail
  {
    assert [s[i]] + s[i + 1..m] == s[i..m];
  }

  /** Matches are leftmost: no match starts at an index the pass kept. */
  lemma {:induction false} ScanIsLeftmost(p: Pattern, s: string, i: nat)
    requires i <= |s|
    ensures forall q :: i <= q < |s| && !Covered(q, Scan(p, s, i).captures) ==> MatchAt(p, s, q).None?
    decreases |s| - i
  {
    if i < |s| {
      var r := Scan(p, s, i);
      match MatchAt(p, s, i)
      case None =>
        ScanIsLeftmost(p, s, i + 1);
      case Some(c) =>
        ScanIsLeftmost(p, s, c.end);
        var rest := Scan(p, s, c.end);
        assert c in r.captures;
    }
  }

  /** A text in which no match of `p` starts is left as it is and yields nothing. */
  lemma {:induction false} ScanWithoutMatch(p: Pattern, s: string, i: nat)
    requires i <= |s|
    requires forall q, j, k :: i <= q < |s| ==> !IsMatch(p, s, q, j, k)
    ensures Scan(p, s, i) == PassResult(s[i..], [])
    decreases |s| - i
  {
    if i < |s| {
      if MatchAt(p, s, i).Some? {
        MatchAtSound(p, s, i);
      }
      ScanWithoutMatch(p, s, i + 1);
      assert s[i..] == [s[i]] + s[i + 1..];
    }
  }

  // ---------------------------------------------------------------------------
  // Recording the predicates
  // ---------------------------------------------------------------------------

  /** The one key a plain JavaScript object does not store: assigning a string to `__proto__` is ignored. */
  const ProtoKey: string := "__proto__"

  /** `predicates[key] = value` on a plain object. */
  function Assign(preds: map<string, string>, key: string, value: string): (r: map<string, string>)
    ensures key != ProtoKey ==> key in r && r[key] == value
    ensures key == ProtoKey ==> r == preds
    ensures r.Keys <= preds.Keys + {key} && preds.Keys <= r.Keys
    ensures forall k :: k in preds && k != key ==> r[k] == preds[k]
  {
    if key == ProtoKey then preds else preds[key := value]
  }

  /** The callback's assignments, in the order the matches were reported. */
  function Record(preds: map<string, string>, caps: seq<Capture>): (r: map<string, string>)
    ensures preds.Keys <= r.Keys
    ensures forall k :: k in r ==> k in preds || exists c :: c in caps && c.key == k
    decreases |caps|
  {
    if caps == [] then preds else Record(Assign(preds, caps[0].key, caps[0].value), caps[1..])
  }

  /** For a key that occurs, the last capture carrying it decides its value. */
  lemma {:induction false} RecordLastWins(preds: map<string, string>, caps: seq<Capture>, key: string, a: nat)
    requires key != ProtoKey
    requires a < |caps| && caps[a].key == key
    requires forall b :: a < b < |caps| ==> caps[b].key != key
    ensures key in Record(preds, caps) && Record(preds, caps)[key] == caps[a].value
    decreases |caps|
  {
    var next := Assign(preds, caps[0].key, caps[0].value);
    if a == 0 {
      RecordKeeps(next, caps[1..], key);
    } else {
      RecordLastWins(next, caps[1..], key, a - 1);
    }
  }

  /** A key that no capture carries (or that the object cannot store) keeps what it had. */
  lemma {:induction false} RecordKeeps(preds: map<string, string>, caps: seq<Capture>, key: string)
    requires key == ProtoKey || forall b :: 0 <= b < |caps| ==> caps[b].key != key
    ensures key in Record(preds, caps) <==> key in preds
    ensures key in preds ==> Record(preds, caps)[key] == preds[key]
    decreases |caps|
  {
    if caps != [] {
      RecordKeeps(Assign(preds, caps[0].key, caps[0].value), caps[1..], key);
    }
  }

  /** Recording two runs of captures is recording their concatenation. */
  lemma {:induction false} RecordAppend(preds: map<string, string>, xs: seq<Capture>, ys: seq<Capture>)
    ensures Record(preds, xs + ys) == Record(Record(preds, xs), ys)
    decreases |xs|
  {
    if xs == [] {
      assert xs + ys == ys;
    } else {
      assert (xs + ys)[1..] == xs[1..] + ys;
      RecordAppend(Assign(preds, xs[0].key, xs[0].value), xs[1..], ys);
    }
  }

  // ---------------------------------------------------------------------------
  // Trimming
  // ---------------------------------------------------------------------------

  /** The first index at or after i that trim keeps. */
  function TrimStart(s: string, i: nat): (a: nat)
    requires i <= |s|
    ensures i <= a <= |s|
    ensures forall t :: i <= t < a ==> IsTrimmed(s[t])
    ensures a < |s| ==> !IsTrimmed(s[a])
    decreases |s| - i
  {
    if i < |s| && IsTrimmed(s[i]) then TrimStart(s, i + 1) else i
  }

  /** The end of s[a..b] once its trailing trimmed code points are gone. */
  function TrimEnd(s: string, a: nat, b: nat): (e: nat)
    requires a <= b <= |s|
    ensures a <= e <= b
    ensures forall t :: e <= t < b ==> IsTrimmed(s[t])
    ensures a < e ==> !IsTrimmed(s[e - 1])
    decreases b
  {
    if a < b && IsTrimmed(s[b - 1]) then TrimEnd(s, a, b - 1) else b
  }

  /** String.prototype.trim. */
  function Trim(s: string): (r: string)
    ensures |r| <= |s|
    ensures r != [] ==> !IsTrimmed(r[0]) && !IsTrimmed(r[|r| - 1])
    ensures exists a, b :: 0 <= a <= b <= |s| && r == s[a..b]
              && (forall t :: 0 <= t < a ==> IsTrimmed(s[t]))
              && (forall t :: b <= t < |s| ==> IsTrimmed(s[t]))
  {
    var a := TrimStart(s, 0);
    var b := TrimEnd(s, a, |s|);
    s[a..b]
  }

  // ---------------------------------------------------------------------------
  // filterSet
  // ---------------------------------------------------------------------------

  /** The `_.reduce` over the passes: each runs on the text the previous one left. */
  function RunPasses(passes: seq<Pattern>, text: string, preds: map<string, string>): (r: (string, map<string, string>))
    ensures |r.0| <= |text|
    ensures preds.Keys <= r.1.Keys
    decreases |passes|
  {
    if passes == [] then (text, preds)
    else
      var r := Scan(passes[0], text, 0);
      RunPasses(passes[1..], r.text, Record(preds, r.captures))
  }

  /** The free text and the predicates of a query. */
  datatype Parsed = Parsed(freeText: string, predicates: map<string, string>)

  function Parse(query: string): (r: Parsed)
    ensures |r.freeText| <= |query|
  {
    var (rest, preds) := RunPasses(Passes, query, map[]);
    Parsed(Trim(rest), preds)
  }

  /** The name under which the free text is stored. */
  const QueryKey: string := "query"

  /**
   * `{ query: query.trim(), ...predicates }`: the free text under `query`,
   * unless a predicate of that name, spread after it, replaces it.
   */
  function FilterSet(query: string): (fs: map<string, string>)
    ensures fs.Keys == {QueryKey} + Parse(query).predicates.Keys
    ensures fs[QueryKey] == if QueryKey in Parse(query).predicates
                            then Parse(query).predicates[QueryKey]
                            else Parse(query).freeText
    ensures forall k :: k in Parse(query).predicates ==> fs[k] == Parse(query).predicates[k]
  {
    var parsed := Parse(query);
    map[QueryKey := parsed.freeText] + parsed.predicates
  }

  /** The captures of the three passes, in the order the callback saw them. */
  ghost function Captures(query: string): seq<Capture> {
    var bare := Scan(Bare, query, 0);
    var double := Scan(Quoted('"'), bare.text, 0);
    var single := Scan(Quoted('\''), double.text, 0);
    bare.captures + double.captures + single.captures
  }

  /** The text the three passes leave, before it is trimmed. */
  ghost function Remainder(query: string): string {
    var bare := Scan(Bare, query, 0);
    var double := Scan(Quoted('"'), bare.text, 0);
    Scan(Quoted('\''), double.text, 0).text
  }

  /**
   * The reduce runs bare, then double-quoted, then single-quoted, each on the
   * text the previous one left, and every capture of every pass is recorded,
   * in that order, into one set of predicates.
   */
  lemma {:induction false} ParseInThreePasses(query: string)
    ensures Parse(query) == Parsed(Trim(Remainder(query)), Record(map[], Captures(query)))
  {
    var bare := Scan(Bare, query, 0);
    var double := Scan(Quoted('"'), bare.text, 0);
    var single := Scan(Quoted('\''), double.text, 0);
    assert Passes[1..][1..][1..] == [];
    RecordAppend(map[], bare.captures, double.captures);
    RecordAppend(map[], bare.captures + double.captures, single.captures);
  }

  /** When a key is matched more than once, the last match in application order wins. */
  lemma {:induction false} ParseLastWins(query: string, key: string, a: nat)
    requires key != ProtoKey
    requires a < |Captures(query)| && Captures(query)[a].key == key
    requires forall b :: a < b < |Captures(query)| ==> Captures(query)[b].key != key
    ensures key in Parse(query).predicates
    ensures Parse(query).predicates[key] == Captures(query)[a].value
  {
    ParseInThreePasses(query);
    RecordLastWins(map[], Captures(query), key, a);
  }

  /** A key that no pass matched is not a predicate. */
  lemma {:induction false} ParseOnlyMatchedKeys(query: string, key: string)
    requires key == ProtoKey || forall b :: 0 <= b < |Captures(query)| ==> Captures(query)[b].key != key
    ensures key !in Parse(query).predicates
  {
    ParseInThreePasses(query);
    RecordKeeps(map[], Captures(query), key);
  }

  /** Without an occurrence, the three passes capture nothing and leave the query as it is. */
  lemma {:induction false} PassesWithoutPattern(query: string)
    requires forall p, q: nat, j: nat, k: nat :: p in Passes && q < |query| ==> !IsMatch(p, query, q, j, k)
    ensures Remainder(query) == query && Captures(query) == []
  {
    assert query[0..] == query;
    ScanWithoutMatch(Bare, query, 0);
    ScanWithoutMatch(Quoted('"'), query, 0);
    ScanWithoutMatch(Quoted('\''), query, 0);
  }

  /** With no predicates, the filter set holds only the free text. */
  lemma {:induction false} FilterSetWithoutPredicates(query: string)
    requires Parse(query).predicates == map[]
    ensures FilterSet(query) == map[QueryKey := Parse(query).freeText]
  {
  }

  /** A query in which none of the three patterns occurs gives no predicates and only its trimmed self. */
  lemma {:induction false} ParseWithoutPattern(query: string)
    requires forall p, q: nat, j: nat, k: nat :: p in Passes && q < |query| ==> !IsMatch(p, query, q, j, k)
    ensures Parse(query) == Parsed(Trim(query), map[])
    ensures FilterSet(query) == map[QueryKey := Trim(query)]
  {
    PassesWithoutPattern(query);
    ParseInThreePasses(query);
    FilterSetWithoutPredicates(query);
  }

  lemma AssignOver(m: map<string, string>, key: string, value: string)
    ensures Assign(m, key, value) == m + Assign(map[], key, value)
  {
    if key != ProtoKey {
      assert m[key := value] == m + map[key := value];
    }
  }

  /** Recording over a map is the map overridden by what the captures record on their own. */
  lemma {:induction false} RecordOver(m: map<string, string>, caps: seq<Capture>)
    ensures Record(m, caps) == m + Record(map[], caps)
    decreases |caps|
  {
    if caps != [] {
      var c := caps[0];
      RecordOver(Assign(m, c.key, c.value), caps[1..]);
      RecordOver(Assign(map[], c.key, c.value), caps[1..]);
      AssignOver(m, c.key, c.value);
    }
  }
}
