/**
 * The free text the parser leaves holds no predicate: after the three passes
 * no occurrence of any of the three patterns remains. A deletion never joins
 * the pieces around it into a new occurrence, because every match starts
 * where no word character can precede it, a bare value takes the whole word
 * run, and the earlier passes have already removed what a later deletion
 * could expose.
 */
module FreeText {
  import opened QueryParser

  // ---------------------------------------------------------------------------
  // Occurrences, seen from the character before the colon
  // ---------------------------------------------------------------------------

  /** t[w..] starts with `w:w`, the core of an occurrence of `(\w+):(\w+)`. */
  ghost predicate BareAt(t: string, w: nat) {
    w + 2 < |t| && IsWordChar(t[w]) && t[w + 1] == ':' && IsWordChar(t[w + 2])
  }

  /**
   * t[w..] starts with `w:` q and a character other than q, and a closing q
   * follows: the core of an occurrence of `(\w+):q([^q]+)q`.
   */
  ghost predicate QuotedAt(q: char, t: string, w: nat) {
    && w + 3 < |t| && IsWordChar(t[w]) && t[w + 1] == ':' && t[w + 2] == q && t[w + 3] != q
    && exists u :: w + 4 <= u < |t| && t[u] == q
  }

  /** No occurrence of the bare pattern in t. */
  ghost predicate BareFree(t: string) {
    forall w: nat :: !BareAt(t, w)
  }

  /** No occurrence of the pattern quoted with q in t. */
  ghost predicate QuotedFree(q: char, t: string) {
    forall w: nat :: !QuotedAt(q, t, w)
  }

  /** In text without a bare occurrence, no word character follows a `w:`. */
  lemma {:induction false} NoWordAfterColon(s: string, n: nat)
    requires BareFree(s) && n + 2 < |s| && IsWordChar(s[n]) && s[n + 1] == ':'
    ensures !IsWordChar(s[n + 2])
  {
    assert !BareAt(s, n);
  }

  /** The parts of a quoted occurrence make one. */
  lemma {:induction false} QuotedAtOfParts(q: char, s: string, n: nat, u: nat)
    requires n + 3 < |s| && IsWordChar(s[n]) && s[n + 1] == ':' && s[n + 2] == q && s[n + 3] != q
    requires n + 4 <= u < |s| && s[u] == q
    ensures QuotedAt(q, s, n)
  {
  }

  /** A match of the bare pattern shows its core at the character before its colon. */
  lemma {:induction false} BareMatchAt(t: string, i: nat, j: nat, k: nat)
    requires IsMatch(Bare, t, i, j, k)
    ensures BareAt(t, j - 1)
  {
  }

  /** A match of a quoted pattern shows its core at the character before its colon. */
  lemma {:induction false} QuotedMatchAt(q: char, t: string, i: nat, j: nat, k: nat)
    requires IsMatch(Quoted(q), t, i, j, k)
    ensures QuotedAt(q, t, j - 1)
  {
    assert t[k - 1] == q;
  }

  /** The core of a quoted occurrence is the start of a match. */
  lemma {:induction false} QuotedAtMatch(q: char, s: string, n: nat)
    requires QuotedAt(q, s, n)
    ensures QuoteEnd(s, n + 3, q) < |s|
    ensures IsMatch(Quoted(q), s, n, n + 1, QuoteEnd(s, n + 3, q) + 1)
  {
    var u :| n + 4 <= u < |s| && s[u] == q;
    assert QuoteEnd(s, n + 3, q) <= u;
  }

  /** A match inside a slice is a match in the whole text. */
  lemma {:induction false} MatchInSlice(p: Pattern, s: string, a: nat, b: nat, i: nat, j: nat, k: nat)
    requires a <= b <= |s| && IsMatch(p, s[a..b], i, j, k)
    ensures IsMatch(p, s, a + i, a + j, a + k)
  {
    var t := s[a..b];
    assert forall x :: 0 <= x < |t| ==> t[x] == s[a + x];
  }

  // ---------------------------------------------------------------------------
  // The characters a pass keeps
  // ---------------------------------------------------------------------------

  /** The first index at or after i that the pass keeps, or |s| when it keeps none. */
  ghost function Next(p: Pattern, s: string, i: nat): (n: nat)
    requires i <= |s|
    ensures i <= n <= |s|
    decreases |s| - i
  {
    if i == |s| then |s|
    else match MatchAt(p, s, i)
      case None => i
      case Some(c) => Next(p, s, c.end)
  }

  /** No match starts at the next kept index. */
  lemma {:induction false} NextUnmatched(p: Pattern, s: string, i: nat)
    requires i <= |s| && Next(p, s, i) < |s|
    ensures MatchAt(p, s, Next(p, s, i)).None?
    decreases |s| - i
  {
    var r := MatchAt(p, s, i);
    if r.Some? {
      NextUnmatched(p, s, r.value.end);
    }
  }

  /** t holds the characters of s at the indices pos. */
  ghost predicate KeptChars(s: string, t: string, pos: seq<nat>) {
    && |pos| == |t|
    && forall x :: 0 <= x < |pos| ==> pos[x] < |s| && t[x] == s[pos[x]]
  }

  /** pos is strictly increasing. */
  ghost predicate Increasing(pos: seq<nat>) {
    forall x, y :: 0 <= x < y < |pos| ==> pos[x] < pos[y]
  }

  /** No match of p starts at any of the indices pos. */
  ghost predicate AllUnmatched(p: Pattern, s: string, pos: seq<nat>) {
    forall x :: 0 <= x < |pos| ==> NoMatchAt(p, s, pos[x])
  }

  /**
   * Neighbouring kept indices: a kept word character is followed by the next
   * character, and a stretch skipped between two kept characters starts with
   * a word character.
   */
  ghost predicate Joined(s: string, t: string, pos: seq<nat>) {
    && |t| == |pos|
    && forall x, y :: 0 <= x < y < |pos| && y == x + 1 ==>
         && (IsWordChar(t[x]) ==> pos[y] == pos[x] + 1)
         && (pos[x] + 1 < pos[y] < |s| ==> IsWordChar(s[pos[x] + 1]))
  }

  /** After a skipped stretch of the bare pass, the kept character is not a word character. */
  ghost predicate BareGaps(t: string, pos: seq<nat>) {
    && |t| == |pos|
    && forall x, y :: 0 <= x < y < |pos| && y == x + 1 && pos[x] + 1 < pos[y] ==> !IsWordChar(t[y])
  }

  /** What the pass keeps, t, with the indices it came from, pos. */
  ghost predicate Kept(p: Pattern, s: string, t: string, pos: seq<nat>) {
    && KeptChars(s, t, pos) && Increasing(pos) && AllUnmatched(p, s, pos) && Joined(s, t, pos)
    && (p == Bare ==> BareGaps(t, pos))
  }

  /** A pass skips its matches: from i on it leaves what it leaves from the next kept index on. */
  lemma {:induction false} ScanSkipsToNext(p: Pattern, s: string, i: nat)
    requires i <= |s|
    ensures Scan(p, s, i).text == Scan(p, s, Next(p, s, i)).text
    decreases |s| - i
  {
    if i < |s| {
      var r := MatchAt(p, s, i);
      if r.Some? {
        ScanSkipsToNext(p, s, r.value.end);
      }
    }
  }

  /** No match starts where MatchAt finds none. */
  lemma {:induction false} NoMatchAtOf(p: Pattern, s: string, n: nat)
    requires n <= |s| && MatchAt(p, s, n).None?
    ensures NoMatchAt(p, s, n)
  {
    forall j, k ensures !IsMatch(p, s, n, j, k) {
      if IsMatch(p, s, n, j, k) {
        MatchAtComplete(p, s, n, j, k);
        assert false;
      }
    }
  }

  // ---------------------------------------------------------------------------
  // Neighbouring kept characters
  // ---------------------------------------------------------------------------

  /** Every match starts with a word character. */
  lemma {:induction false} MatchStartsWord(p: Pattern, s: string, i: nat)
    requires i <= |s| && MatchAt(p, s, i).Some?
    ensures i < |s| && IsWordChar(s[i])
  {
  }

  /** A word character in front of a match start extends the key, so a match starts there too. */
  lemma {:induction false} WordExtends(p: Pattern, s: string, n: nat)
    requires n < |s| && IsWordChar(s[n]) && MatchAt(p, s, n + 1).Some?
    ensures MatchAt(p, s, n).Some?
  {
    assert WordEnd(s, n) == WordEnd(s, n + 1);
  }

  /** After a kept word character, the pass keeps the next character too. */
  lemma {:induction false} NextAfterWord(p: Pattern, s: string, n: nat)
    requires n < |s| && MatchAt(p, s, n).None? && IsWordChar(s[n])
    ensures Next(p, s, n + 1) == n + 1
  {
    if n + 1 < |s| && MatchAt(p, s, n + 1).Some? {
      WordExtends(p, s, n);
    }
  }

  /** A stretch the pass skips starts with a word character. */
  lemma {:induction false} NextSkipsWord(p: Pattern, s: string, i: nat)
    requires i <= |s| && i < Next(p, s, i)
    ensures i < |s| && IsWordChar(s[i])
  {
    MatchStartsWord(p, s, i);
  }

  /** The bare pass stops skipping right after a bare value, which no word character follows. */
  lemma {:induction false} NextAfterBare(s: string, i: nat)
    requires i <= |s| && i < Next(Bare, s, i) < |s|
    ensures !IsWordChar(s[Next(Bare, s, i)])
  {
    var c := MatchAt(Bare, s, i).value;
    var j := WordEnd(s, i);
    assert c.end == WordEnd(s, j + 1);
    assert Next(Bare, s, i) == Next(Bare, s, c.end);
    if c.end < |s| {
      assert WordEnd(s, c.end) == c.end;
    }
  }

  /** How the first kept index after a kept index n lies. */
  lemma {:induction false} NextFacts(p: Pattern, s: string, n: nat)
    requires n < |s| && MatchAt(p, s, n).None?
    ensures var m := Next(p, s, n + 1);
      && (IsWordChar(s[n]) ==> m == n + 1)
      && (n + 1 < m < |s| ==> IsWordChar(s[n + 1]))
      && (p == Bare && n + 1 < m < |s| ==> !IsWordChar(s[m]))
  {
    var m := Next(p, s, n + 1);
    if IsWordChar(s[n]) {
      NextAfterWord(p, s, n);
    }
    if n + 1 < m {
      NextSkipsWord(p, s, n + 1);
      if p == Bare && m < |s| {
        NextAfterBare(s, n + 1);
      }
    }
  }

  // ---------------------------------------------------------------------------
  // One more kept index in front
  // ---------------------------------------------------------------------------

  lemma {:induction false} KeptCharsCons(s: string, n: nat, t: string, pos: seq<nat>)
    requires n < |s| && KeptChars(s, t, pos)
    ensures KeptChars(s, [s[n]] + t, [n] + pos)
  {
    var t', pos' := [s[n]] + t, [n] + pos;
    forall x | 0 < x < |pos'| ensures pos'[x] < |s| && t'[x] == s[pos'[x]] {
      assert pos'[x] == pos[x - 1] && t'[x] == t[x - 1];
    }
  }

  lemma {:induction false} IncreasingCons(n: nat, pos: seq<nat>)
    requires Increasing(pos) && (|pos| > 0 ==> n < pos[0])
    ensures Increasing([n] + pos)
  {
    var pos' := [n] + pos;
    forall x, y | 0 <= x < y < |pos'| ensures pos'[x] < pos'[y] {
      if x == 0 {
        assert pos[0] <= pos[y - 1];
      } else {
        assert pos'[x] == pos[x - 1] && pos'[y] == pos[y - 1];
      }
    }
  }

  lemma {:induction false} AllUnmatchedCons(p: Pattern, s: string, n: nat, pos: seq<nat>)
    requires NoMatchAt(p, s, n) && AllUnmatched(p, s, pos)
    ensures AllUnmatched(p, s, [n] + pos)
  {
    var pos' := [n] + pos;
    forall x | 0 < x < |pos'| ensures NoMatchAt(p, s, pos'[x]) {
      assert pos'[x] == pos[x - 1];
    }
  }

  lemma {:induction false} JoinedCons(s: string, n: nat, t: string, pos: seq<nat>)
    requires n < |s| && Joined(s, t, pos)
    requires |pos| > 0 ==> (IsWordChar(s[n]) ==> pos[0] == n + 1) && (n + 1 < pos[0] < |s| ==> IsWordChar(s[n + 1]))
    ensures Joined(s, [s[n]] + t, [n] + pos)
  {
    var t', pos' := [s[n]] + t, [n] + pos;
    forall x, y | 0 <= x < y < |pos'| && y == x + 1
      ensures (IsWordChar(t'[x]) ==> pos'[y] == pos'[x] + 1) && (pos'[x] + 1 < pos'[y] < |s| ==> IsWordChar(s[pos'[x] + 1]))
    {
      if x == 0 {
        assert pos'[y] == pos[0];
      } else {
        assert t'[x] == t[x - 1] && pos'[x] == pos[x - 1] && pos'[y] == pos[y - 1];
      }
    }
  }

  lemma {:induction false} BareGapsCons(c: char, n: nat, t: string, pos: seq<nat>)
    requires BareGaps(t, pos) && (|pos| > 0 && n + 1 < pos[0] ==> !IsWordChar(t[0]))
    ensures BareGaps([c] + t, [n] + pos)
  {
    var t', pos' := [c] + t, [n] + pos;
    forall x, y | 0 <= x < y < |pos'| && y == x + 1 && pos'[x] + 1 < pos'[y] ensures !IsWordChar(t'[y]) {
      if x == 0 {
        assert pos'[y] == pos[0] && t'[y] == t[0];
      } else {
        assert t'[y] == t[y - 1] && pos'[x] == pos[x - 1] && pos'[y] == pos[y - 1];
      }
    }
  }

  /** A kept index n in front of a description whose first index lies as the next one kept after n. */
  lemma {:induction false} KeptCons(p: Pattern, s: string, n: nat, t: string, pos: seq<nat>)
    requires n < |s| && NoMatchAt(p, s, n) && Kept(p, s, t, pos)
    requires |pos| > 0 ==>
               && n < pos[0]
               && (IsWordChar(s[n]) ==> pos[0] == n + 1)
               && (n + 1 < pos[0] ==> IsWordChar(s[n + 1]))
               && (p == Bare && n + 1 < pos[0] ==> !IsWordChar(t[0]))
    ensures Kept(p, s, [s[n]] + t, [n] + pos)
  {
    KeptCharsCons(s, n, t, pos);
    IncreasingCons(n, pos);
    AllUnmatchedCons(p, s, n, pos);
    JoinedCons(s, n, t, pos);
    if p == Bare {
      BareGapsCons(s[n], n, t, pos);
    }
  }

  /** No match starts at the next kept index. */
  lemma {:induction false} NextNoMatchAt(p: Pattern, s: string, i: nat)
    requires i <= |s| && Next(p, s, i) < |s|
    ensures NoMatchAt(p, s, Next(p, s, i))
  {
    NextUnmatched(p, s, i);
    NoMatchAtOf(p, s, Next(p, s, i));
  }

  /** What holds at the next kept index n from i on, and at the next one kept after it. */
  lemma {:induction false} NextHead(p: Pattern, s: string, i: nat)
    requires i <= |s| && Next(p, s, i) < |s|
    ensures var n := Next(p, s, i);
      var m := Next(p, s, n + 1);
      && NoMatchAt(p, s, n)
      && (IsWordChar(s[n]) ==> m == n + 1)
      && (n + 1 < m < |s| ==> IsWordChar(s[n + 1]))
      && (p == Bare && n + 1 < m < |s| ==> !IsWordChar(s[m]))
  {
    NextUnmatched(p, s, i);
    NextFacts(p, s, Next(p, s, i));
    NextNoMatchAt(p, s, i);
  }

  /**
   * The next kept index n from i on, in front of a description whose first
   * index is the next one kept after n.
   */
  lemma {:induction false} KeptNext(p: Pattern, s: string, i: nat, t: string, pos: seq<nat>)
    requires i <= |s| && Next(p, s, i) < |s| && Kept(p, s, t, pos)
    requires |pos| > 0 ==> pos[0] == Next(p, s, Next(p, s, i) + 1)
    ensures Kept(p, s, [s[Next(p, s, i)]] + t, [Next(p, s, i)] + pos)
  {
    NextHead(p, s, i);
    KeptCons(p, s, Next(p, s, i), t, pos);
  }

  /** From i on, a pass keeps the next kept character and then what it keeps after it. */
  lemma {:induction false} ScanFromNext(p: Pattern, s: string, i: nat)
    requires i <= |s| && Next(p, s, i) < |s|
    ensures Scan(p, s, i).text == [s[Next(p, s, i)]] + Scan(p, s, Next(p, s, i) + 1).text
  {
    ScanSkipsToNext(p, s, i);
    NextUnmatched(p, s, i);
    ScanKeepsChar(p, s, Next(p, s, i));
  }

  /** From i on, a pass keeps nothing when no index is left to keep. */
  lemma {:induction false} ScanFromEnd(p: Pattern, s: string, i: nat)
    requires i <= |s| && Next(p, s, i) == |s|
    ensures Scan(p, s, i).text == []
  {
    ScanSkipsToNext(p, s, i);
  }

  /** The characters a pass keeps from i on, read off the kept indices. */
  ghost function KeptText(p: Pattern, s: string, i: nat): (t: string)
    requires i <= |s|
    decreases |s| - i
  {
    var n := Next(p, s, i);
    if n == |s| then [] else [s[n]] + KeptText(p, s, n + 1)
  }

  /** The characters kept from i on start with the one at the next kept index. */
  lemma {:induction false} KeptTextFrom(p: Pattern, s: string, i: nat)
    requires i <= |s|
    ensures var n := Next(p, s, i);
      KeptText(p, s, i) == if n < |s| then [s[n]] + KeptText(p, s, n + 1) else []
  {
  }

  /** ScanIsKeptText from i on, where the next kept index n is inside s. */
  lemma {:induction false} ScanIsKeptTextAt(p: Pattern, s: string, i: nat, n: nat)
    requires i <= |s| && n == Next(p, s, i) && n < |s|
    ensures Scan(p, s, i).text == KeptText(p, s, i)
    decreases |s| - i, 0
  {
    ScanIsKeptText(p, s, n + 1);
    KeptTextFrom(p, s, i);
    ScanFromNext(p, s, i);
  }

  /** The text a pass leaves is the characters it keeps. */
  lemma {:induction false} ScanIsKeptText(p: Pattern, s: string, i: nat)
    requires i <= |s|
    ensures Scan(p, s, i).text == KeptText(p, s, i)
    decreases |s| - i, 1
  {
    var n := Next(p, s, i);
    if n < |s| {
      ScanIsKeptTextAt(p, s, i, n);
    } else {
      KeptTextFrom(p, s, i);
      ScanFromEnd(p, s, i);
    }
  }

  /** t is what the pass keeps from i on, pos the indices it came from, and the first of them the next kept index. */
  ghost predicate KeptFrom(p: Pattern, s: string, i: nat, t: string, pos: seq<nat>)
    requires i <= |s|
  {
    t == KeptText(p, s, i) && Kept(p, s, t, pos) && (|pos| > 0 ==> pos[0] == Next(p, s, i))
  }

  /** The description from i on, when the pass keeps an index n from i on. */
  lemma {:induction false} KeptFromNext(p: Pattern, s: string, i: nat, n: nat, t: string, pos: seq<nat>)
    requires i <= |s| && n == Next(p, s, i) && n < |s| && KeptFrom(p, s, n + 1, t, pos)
    ensures KeptFrom(p, s, i, [s[n]] + t, [n] + pos)
  {
    KeptTextFrom(p, s, i);
    KeptNext(p, s, i, t, pos);
  }

  /** What a pass keeps from i on, with the indices it came from. */
  lemma {:induction false} ScanKept(p: Pattern, s: string, i: nat) returns (t: string, pos: seq<nat>)
    requires i <= |s|
    ensures KeptFrom(p, s, i, t, pos)
    decreases |s| - i
  {
    var n := Next(p, s, i);
    if n < |s| {
      var t', pos' := ScanKept(p, s, n + 1);
      KeptFromNext(p, s, i, n, t', pos');
      t, pos := [s[n]] + t', [n] + pos';
    } else {
      KeptTextFrom(p, s, i);
      t, pos := [], [];
    }
  }

  /** After a kept word character, the pass keeps the next character too. */
  lemma {:induction false} KeptWordNext(p: Pattern, s: string, t: string, pos: seq<nat>, x: nat)
    requires Kept(p, s, t, pos) && x + 1 < |pos| && IsWordChar(t[x])
    ensures pos[x + 1] == pos[x] + 1
  {
  }

  /** A character the pass skips after a kept one is a word character. */
  lemma {:induction false} KeptGapWord(p: Pattern, s: string, t: string, pos: seq<nat>, x: nat)
    requires Kept(p, s, t, pos) && x + 1 < |pos| && pos[x + 1] > pos[x] + 1
    ensures IsWordChar(s[pos[x] + 1])
  {
  }

  /** After a stretch the bare pass skips, the kept character is not a word character. */
  lemma {:induction false} KeptGapBare(s: string, t: string, pos: seq<nat>, x: nat)
    requires Kept(Bare, s, t, pos) && x + 1 < |pos| && pos[x + 1] > pos[x] + 1
    ensures !IsWordChar(t[x + 1])
  {
  }

  /** No match of the pass starts at a kept character. */
  lemma {:induction false} KeptNoMatch(p: Pattern, s: string, t: string, pos: seq<nat>, x: nat, j: nat, k: nat)
    requires Kept(p, s, t, pos) && x < |pos|
    ensures !IsMatch(p, s, pos[x], j, k)
  {
    assert NoMatchAt(p, s, pos[x]);
  }

  // ---------------------------------------------------------------------------
  // No occurrence starts at a kept character
  // ---------------------------------------------------------------------------

  /** The bare pass: a kept `w:` followed by a kept word character was a bare match. */
  lemma {:induction false} BareWindow(s: string, t: string, pos: seq<nat>, w: nat)
    requires Kept(Bare, s, t, pos)
    ensures !BareAt(t, w)
  {
    if w + 2 < |t| && IsWordChar(t[w]) && t[w + 1] == ':' {
      var n := pos[w];
      KeptWordNext(Bare, s, t, pos, w);
      if pos[w + 2] > n + 2 {
        KeptGapBare(s, t, pos, w + 1);
      } else {
        KeptNoMatch(Bare, s, t, pos, w, n + 1, n + 3);
      }
    }
  }

  /** A quoted pass over text without a bare occurrence: a kept `w:w` was one in its input. */
  lemma {:induction false} QuotedBareWindow(p: Pattern, s: string, t: string, pos: seq<nat>, w: nat)
    requires BareFree(s) && Kept(p, s, t, pos)
    ensures !BareAt(t, w)
  {
    if w + 2 < |t| && IsWordChar(t[w]) && t[w + 1] == ':' {
      var n := pos[w];
      KeptWordNext(p, s, t, pos, w);
      if pos[w + 2] > n + 2 {
        KeptGapWord(p, s, t, pos, w + 1);
      }
      NoWordAfterColon(s, n);
    }
  }

  /** A quoted pass over text without a bare occurrence: a kept quoted occurrence was one in its input. */
  lemma {:induction false} QuotedKeptWindow(p: Pattern, q: char, s: string, t: string, pos: seq<nat>, w: nat)
    requires !IsWordChar(q) && BareFree(s) && Kept(p, s, t, pos) && w < |pos|
    ensures QuotedAt(q, t, w) ==> QuotedAt(q, s, pos[w])
  {
    if QuotedAt(q, t, w) {
      var n := pos[w];
      KeptWordNext(p, s, t, pos, w);
      if pos[w + 2] > n + 2 {
        KeptGapWord(p, s, t, pos, w + 1);
        NoWordAfterColon(s, n);
        assert false;
      }
      if pos[w + 3] > n + 3 {
        KeptGapWord(p, s, t, pos, w + 2);
      }
      var u :| w + 4 <= u < |t| && t[u] == q;
      assert pos[w + 3] < pos[u];
      QuotedAtOfParts(q, s, n, pos[u]);
    }
  }

  /**
   * A quoted pass over text without a bare occurrence: no occurrence of its
   * own pattern, nor of another quoted pattern its input did not hold, starts
   * at a kept character.
   */
  lemma {:induction false} QuotedWindow(p: Pattern, q: char, s: string, t: string, pos: seq<nat>, w: nat)
    requires p.Quoted? && !IsWordChar(q) && BareFree(s) && Kept(p, s, t, pos)
    requires q == p.quote || QuotedFree(q, s)
    ensures !QuotedAt(q, t, w)
  {
    if w < |pos| {
      QuotedKeptWindow(p, q, s, t, pos, w);
      if q == p.quote && QuotedAt(q, s, pos[w]) {
        QuotedAtMatch(q, s, pos[w]);
      }
    }
  }

  // ---------------------------------------------------------------------------
  // What each pass leaves
  // ---------------------------------------------------------------------------

  /** The bare pass leaves no occurrence of the bare pattern. */
  lemma {:induction false} BarePassLeavesNone(s: string)
    ensures BareFree(Scan(Bare, s, 0).text)
  {
    var t, pos := ScanKept(Bare, s, 0);
    ScanIsKeptText(Bare, s, 0);
    forall w: nat ensures !BareAt(t, w) {
      BareWindow(s, t, pos, w);
    }
  }

  /** A quoted pass over text without a bare occurrence leaves none. */
  lemma {:induction false} QuotedPassKeepsBareFree(p: Pattern, s: string)
    requires BareFree(s)
    ensures BareFree(Scan(p, s, 0).text)
  {
    var t, pos := ScanKept(p, s, 0);
    ScanIsKeptText(p, s, 0);
    forall w: nat ensures !BareAt(t, w) {
      QuotedBareWindow(p, s, t, pos, w);
    }
  }

  /**
   * A quoted pass over text without a bare occurrence leaves no occurrence of
   * its own pattern, nor of another quoted pattern the text did not hold.
   */
  lemma {:induction false} QuotedPassLeavesNone(p: Pattern, q: char, s: string)
    requires p.Quoted? && !IsWordChar(q) && BareFree(s)
    requires q == p.quote || QuotedFree(q, s)
    ensures QuotedFree(q, Scan(p, s, 0).text)
  {
    var t, pos := ScanKept(p, s, 0);
    ScanIsKeptText(p, s, 0);
    forall w: nat ensures !QuotedAt(q, t, w) {
      QuotedWindow(p, q, s, t, pos, w);
    }
  }

  // ---------------------------------------------------------------------------
  // The free text
  // ---------------------------------------------------------------------------

  /** What the three passes leave holds no occurrence of any of the three patterns. */
  lemma {:induction false} RemainderLeavesNone(query: string)
    ensures var r := Remainder(query);
      BareFree(r) && QuotedFree('"', r) && QuotedFree('\'', r)
  {
    var bare := Scan(Bare, query, 0).text;
    var double := Scan(Quoted('"'), bare, 0).text;
    BarePassLeavesNone(query);
    QuotedPassKeepsBareFree(Quoted('"'), bare);
    QuotedPassLeavesNone(Quoted('"'), '"', bare);
    QuotedPassKeepsBareFree(Quoted('\''), double);
    QuotedPassLeavesNone(Quoted('\''), '\'', double);
    QuotedPassLeavesNone(Quoted('\''), '"', double);
  }

  /** No slice of text free of all three occurrences holds a match of any pass. */
  lemma {:induction false} SliceHasNoMatch(p: Pattern, r: string, a: nat, b: nat, i: nat, j: nat, k: nat)
    requires p in Passes && a <= b <= |r|
    requires BareFree(r) && QuotedFree('"', r) && QuotedFree('\'', r)
    ensures !IsMatch(p, r[a..b], i, j, k)
  {
    if IsMatch(p, r[a..b], i, j, k) {
      MatchInSlice(p, r, a, b, i, j, k);
      if p == Bare {
        BareMatchAt(r, a + i, a + j, a + k);
      } else {
        QuotedMatchAt(p.quote, r, a + i, a + j, a + k);
      }
      assert false;
    }
  }

  /**
   * The free text of every query contains no occurrence of any of the three
   * patterns: nothing that looks like a predicate is left in it.
   */
  lemma {:induction false} ParseLeavesNoPattern(query: string)
    ensures forall p, q: nat, j: nat, k: nat :: p in Passes ==> !IsMatch(p, Parse(query).freeText, q, j, k)
  {
    var r := Remainder(query);
    ParseInThreePasses(query);
    RemainderLeavesNone(query);
    var a, b :| 0 <= a <= b <= |r| && Trim(r) == r[a..b];
    forall p, q: nat, j: nat, k: nat | p in Passes ensures !IsMatch(p, Parse(query).freeText, q, j, k) {
      SliceHasNoMatch(p, r, a, b, q, j, k);
    }
  }
}
