/**
 * What `filterSet` makes of the typical shapes of a query: a lone predicate,
 * free text before a predicate, a key given twice, a quoted value, a bare
 * predicate inside a quoted value, and an unbalanced quote. Keys and values
 * are arbitrary words, so each lemma covers every query of its shape.
 */
module QueryExamples {
  import opened Options
  import opened QueryParser

  /** A non-empty run of word characters. */
  predicate IsWord(w: string) {
    |w| > 0 && forall t :: 0 <= t < |w| ==> IsWordChar(w[t])
  }

  /** Text that neither holds a colon nor the quote q. */
  predicate IsPlain(v: string, q: char) {
    forall t :: 0 <= t < |v| ==> v[t] != ':' && v[t] != q
  }

  /** A colon at index c after which no match of p can go on. */
  predicate ColonBlocked(p: Pattern, s: string, c: nat)
    requires c < |s|
  {
    || c + 1 == |s|
    || match p
       case Bare => !IsWordChar(s[c + 1])
       case Quoted(q) =>
         s[c + 1] != q || QuoteEnd(s, c + 2, q) == c + 2 || QuoteEnd(s, c + 2, q) == |s|
  }

  /** The word run from i ends at j. */
  lemma {:induction false} WordEndIs(s: string, i: nat, j: nat)
    requires i <= j <= |s|
    requires forall t :: i <= t < j ==> IsWordChar(s[t])
    requires j < |s| ==> !IsWordChar(s[j])
    ensures WordEnd(s, i) == j
  {
  }

  /** The first q at or after i is at m. */
  lemma {:induction false} QuoteEndIs(s: string, i: nat, q: char, m: nat)
    requires i <= m <= |s|
    requires forall t :: i <= t < m ==> s[t] != q
    requires m < |s| ==> s[m] == q
    ensures QuoteEnd(s, i, q) == m
  {
  }

  /** A bare predicate s[i..n] `:` s[n + 1..e] whose value run ends at e. */
  lemma {:induction false} BareMatch(s: string, i: nat, n: nat, e: nat)
    requires i < n && n + 1 < e <= |s| && s[n] == ':'
    requires forall t :: i <= t < n ==> IsWordChar(s[t])
    requires forall t :: n < t < e ==> IsWordChar(s[t])
    requires e < |s| ==> !IsWordChar(s[e])
    ensures MatchAt(Bare, s, i) == Some(Capture(i, e, s[i..n], s[n + 1..e]))
  {
    WordEndIs(s, i, n);
    WordEndIs(s, n + 1, e);
  }

  /** A quoted predicate s[i..n] `:` q s[n + 2..e - 1] q. */
  lemma {:induction false} QuotedMatch(s: string, q: char, i: nat, n: nat, e: nat)
    requires i < n && n + 2 < e - 1 && e <= |s| && s[n] == ':' && s[n + 1] == q && s[e - 1] == q
    requires forall t :: i <= t < n ==> IsWordChar(s[t])
    requires forall t :: n + 2 <= t < e - 1 ==> s[t] != q
    ensures MatchAt(Quoted(q), s, i) == Some(Capture(i, e, s[i..n], s[n + 2..e - 1]))
  {
    WordEndIs(s, i, n);
    QuoteEndIs(s, n + 2, q, e - 1);
  }

  /** No match starts in a stretch whose colons are blocked and whose runs end inside it. */
  lemma {:induction false} NoMatchInStretch(p: Pattern, s: string, i: nat, m: nat)
    requires i <= m <= |s|
    requires i < m < |s| ==> !IsWordChar(s[m - 1])
    requires forall c :: i <= c < m && s[c] == ':' ==> ColonBlocked(p, s, c)
    ensures forall q :: i <= q < m ==> MatchAt(p, s, q).None?
  {
    forall q | i <= q < m ensures MatchAt(p, s, q).None? {
      var j := WordEnd(s, q);
      if j < m && j < |s| && s[j] == ':' {
        assert ColonBlocked(p, s, j);
      }
    }
  }

  /** A pass keeps a stretch in which no match starts, in front of what it makes of the rest. */
  lemma {:induction false} ScanKeepsStretch(p: Pattern, s: string, i: nat, m: nat)
    requires i <= m <= |s|
    requires forall q :: i <= q < m ==> MatchAt(p, s, q).None?
    ensures Scan(p, s, i) == PassResult(s[i..m] + Scan(p, s, m).text, Scan(p, s, m).captures)
    decreases m - i
  {
    if i < m {
      ScanKeepsStretch(p, s, i + 1, m);
      ScanKeepsChar(p, s, i);
      ConsSlice(s, i, m, Scan(p, s, m).text);
    } else {
      assert s[i..m] == [];
    }
  }

  /** A pass over s keeps s[..m], in which no match starts, in front of the pass over the rest. */
  lemma {:induction false} ScanKeepsThen(p: Pattern, s: string, m: nat, rest: PassResult)
    requires m <= |s|
    requires forall q :: 0 <= q < m ==> MatchAt(p, s, q).None?
    requires Scan(p, s, m) == rest
    ensures Scan(p, s, 0) == PassResult(s[0..m] + rest.text, rest.captures)
  {
    ScanKeepsStretch(p, s, 0, m);
  }

  /** Text without a colon goes through every pass unchanged. */
  lemma {:induction false} ScanWithoutColon(p: Pattern, s: string)
    requires forall t :: 0 <= t < |s| ==> s[t] != ':'
    ensures Scan(p, s, 0) == PassResult(s, [])
  {
    ScanAllBlocked(p, s);
  }

  /** Text in which every colon is blocked for p goes through the pass of p unchanged. */
  lemma {:induction false} ScanAllBlocked(p: Pattern, s: string)
    requires forall c :: 0 <= c < |s| && s[c] == ':' ==> ColonBlocked(p, s, c)
    ensures Scan(p, s, 0) == PassResult(s, [])
  {
    NoMatchInStretch(p, s, 0, |s|);
    ScanKeepsStretch(p, s, 0, |s|);
    assert s[0..|s|] == s;
  }

  /** The trim of a text whose kept part is s[a..b]. */
  lemma {:induction false} TrimIs(s: string, a: nat, b: nat)
    requires a < b <= |s|
    requires forall t :: 0 <= t < a ==> IsTrimmed(s[t])
    requires forall t :: b <= t < |s| ==> IsTrimmed(s[t])
    requires !IsTrimmed(s[a]) && !IsTrimmed(s[b - 1])
    ensures Trim(s) == s[a..b]
  {
  }

  /** Trimming never removes a word character. */
  lemma WordCharKept(c: char)
    requires IsWordChar(c)
    ensures !IsTrimmed(c)
  {
  }

  /** A word with one space before or after it trims to the word. */
  lemma {:induction false} TrimSpacedWord(w: string)
    requires IsWord(w)
    ensures Trim(w + " ") == w && Trim(" " + w) == w
  {
    WordCharKept(w[0]);
    WordCharKept(w[|w| - 1]);
    TrimWordThenSpace(w);
    TrimSpaceThenWord(w);
  }

  lemma {:induction false} TrimWordThenSpace(w: string)
    requires |w| > 0 && !IsTrimmed(w[0]) && !IsTrimmed(w[|w| - 1])
    ensures Trim(w + " ") == w
  {
    var a := w + " ";
    assert a[0] == w[0] && a[|w| - 1] == w[|w| - 1];
    TrimIs(a, 0, |w|);
    assert a[0..|w|] == w;
  }

  lemma {:induction false} TrimSpaceThenWord(w: string)
    requires |w| > 0 && !IsTrimmed(w[0]) && !IsTrimmed(w[|w| - 1])
    ensures Trim(" " + w) == w
  {
    var b := " " + w;
    assert b[1] == w[0] && b[|w|] == w[|w| - 1];
    TrimIs(b, 1, |b|);
    assert b[1..|b|] == w;
  }

  /** The predicate set, assembled from the outcome of each pass. */
  lemma {:induction false} FilterSetFromPasses(query: string, bare: PassResult, double: PassResult, single: PassResult)
    requires Scan(Bare, query, 0) == bare
    requires Scan(Quoted('"'), bare.text, 0) == double
    requires Scan(Quoted('\''), double.text, 0) == single
    ensures FilterSet(query)
         == Record(map[QueryKey := Trim(single.text)], bare.captures + double.captures + single.captures)
  {
    ParseInThreePasses(query);
    RecordOver(map[QueryKey := Trim(single.text)], bare.captures + double.captures + single.captures);
  }

  /** A query whose bare pass leaves no colon: the quoted passes find nothing. */
  lemma {:induction false} FilterSetFromBarePass(query: string, bare: PassResult)
    requires Scan(Bare, query, 0) == bare
    requires forall t :: 0 <= t < |bare.text| ==> bare.text[t] != ':'
    ensures FilterSet(query) == Record(map[QueryKey := Trim(bare.text)], bare.captures)
  {
    ScanWithoutColon(Quoted('"'), bare.text);
    ScanWithoutColon(Quoted('\''), bare.text);
    FilterSetFromPasses(query, bare, PassResult(bare.text, []), PassResult(bare.text, []));
    assert bare.captures + [] + [] == bare.captures;
  }

  /** A query in which only the double-quoted pass matches, leaving no colon. */
  lemma {:induction false} FilterSetFromDoublePass(query: string, double: PassResult)
    requires Scan(Bare, query, 0) == PassResult(query, [])
    requires Scan(Quoted('"'), query, 0) == double
    requires forall t :: 0 <= t < |double.text| ==> double.text[t] != ':'
    ensures FilterSet(query) == Record(map[QueryKey := Trim(double.text)], double.captures)
  {
    ScanWithoutColon(Quoted('\''), double.text);
    FilterSetFromPasses(query, PassResult(query, []), double, PassResult(double.text, []));
    assert [] + double.captures + [] == double.captures;
  }

  /** A word with a space in front has no colon. */
  lemma {:induction false} WordHasNoColon(w: string)
    requires IsWord(w)
    ensures forall t :: 0 <= t < |" " + w| ==> (" " + w)[t] != ':'
  {
    forall t | 0 <= t < |" " + w| ensures (" " + w)[t] != ':' {
      if t > 0 {
        assert (" " + w)[t] == w[t - 1];
      }
    }
  }

  /** A query that the first two passes consume entirely has no free text. */
  lemma {:induction false} FilterSetFromEmptiedPasses(query: string, bare: PassResult, double: PassResult)
    requires Scan(Bare, query, 0) == bare
    requires Scan(Quoted('"'), bare.text, 0) == double
    requires double.text == []
    ensures FilterSet(query) == Record(map[QueryKey := ""], bare.captures + double.captures)
  {
    var single := PassResult([], []);
    assert Scan(Quoted('\''), double.text, 0) == single;
    FilterSetFromPasses(query, bare, double, single);
    TrimBlank([]);
    assert bare.captures + double.captures + [] == bare.captures + double.captures;
  }

  /** Text made only of trimmed code points trims to nothing. */
  lemma {:induction false} TrimBlank(s: string)
    requires forall t :: 0 <= t < |s| ==> IsTrimmed(s[t])
    ensures Trim(s) == []
  {
    assert TrimStart(s, 0) == |s|;
  }

  /**
   * `key:value` alone: no free text and one predicate (none for `__proto__`,
   * and a key `query` replaces the empty free text).
   */
  lemma {:induction false} LonePredicate(k: string, v: string)
    requires IsWord(k) && IsWord(v)
    ensures FilterSet(k + ":" + v) == Assign(map[QueryKey := ""], k, v)
  {
    var s := k + ":" + v;
    var c := Capture(0, |s|, k, v);
    WordEndIs(s, 0, |k|);
    WordEndIs(s, |k| + 1, |s|);
    assert s[0..|k|] == k && s[|k| + 1..|s|] == v;
    assert MatchAt(Bare, s, 0) == Some(c);
    FilterSetFromPasses(s, PassResult([], [c]), PassResult([], []), PassResult([], []));
    assert [c] + [] + [] == [c];
  }

  /** s[i..i + |w|] is the word w. */
  predicate WordAt(s: string, i: nat, w: string) {
    IsWord(w) && i + |w| <= |s| && s[i..i + |w|] == w
  }

  lemma {:induction false} WordAtChars(s: string, i: nat, w: string)
    requires WordAt(s, i, w)
    ensures forall t :: i <= t < i + |w| ==> IsWordChar(s[t])
  {
    forall t | i <= t < i + |w| ensures IsWordChar(s[t]) {
      assert s[t] == s[i..i + |w|][t - i];
    }
  }

  /** A word of s that ends by m stays in place when s[m..] is replaced. */
  lemma {:induction false} WordAtPrefix(s: string, m: nat, x: string, i: nat, w: string)
    requires WordAt(s, i, w) && i + |w| <= m <= |s|
    ensures WordAt(s[0..m] + x, i, w)
  {
    var t := s[0..m] + x;
    assert forall j :: i <= j < i + |w| ==> t[j] == s[j];
    assert t[i..i + |w|] == s[i..i + |w|];
  }

  /** The bare predicate k:v at i of s, ended by the end of s or a character that is no word character. */
  lemma {:induction false} BarePredicateAt(s: string, i: nat, k: string, v: string)
    requires WordAt(s, i, k) && WordAt(s, i + |k| + 1, v) && s[i + |k|] == ':'
    requires i + |k| + 1 + |v| < |s| ==> !IsWordChar(s[i + |k| + 1 + |v|])
    ensures MatchAt(Bare, s, i) == Some(Capture(i, i + |k| + 1 + |v|, k, v))
  {
    WordAtChars(s, i, k);
    WordAtChars(s, i + |k| + 1, v);
    BareMatch(s, i, i + |k|, i + |k| + 1 + |v|);
  }

  /** s is `w k:v`. */
  predicate FreeTextAt(s: string, w: string, k: string, v: string) {
    var n := |w| + 1;
    && |s| == n + |k| + 1 + |v|
    && WordAt(s, 0, w) && s[|w|] == ' ' && WordAt(s, n, k) && s[n + |k|] == ':' && WordAt(s, n + |k| + 1, v)
  }

  lemma {:induction false} FreeTextLayout(w: string, k: string, v: string)
    requires IsWord(w) && IsWord(k) && IsWord(v)
    ensures FreeTextAt(w + " " + k + ":" + v, w, k, v)
  {
    var s := w + " " + k + ":" + v;
    var n := |w| + 1;
    assert s[0..|w|] == w;
    assert s[n..n + |k|] == k;
    assert s[n + |k| + 1..|s|] == v;
  }

  /** The bare pass over `w k:v`, laid out in s, takes out `k:v` and keeps `w `. */
  lemma {:induction false} FreeTextBarePass(s: string, w: string, k: string, v: string)
    requires FreeTextAt(s, w, k, v)
    ensures Scan(Bare, s, 0) == PassResult(s[0..|w| + 1], [Capture(|w| + 1, |s|, k, v)])
  {
    var n := |w| + 1;
    var c := Capture(n, |s|, k, v);
    WordAtChars(s, 0, w);
    NoMatchInStretch(Bare, s, 0, n);
    BarePredicateAt(s, n, k, v);
    assert Scan(Bare, s, n) == PassResult([], [c]);
    ScanKeepsThen(Bare, s, n, PassResult([], [c]));
  }

  /** The predicate set of `w k:v`, laid out in s. */
  lemma {:induction false} FilterSetOfFreeText(s: string, w: string, k: string, v: string)
    requires FreeTextAt(s, w, k, v)
    ensures FilterSet(s) == Assign(map[QueryKey := w], k, v)
  {
    var rest := s[0..|w| + 1];
    var c := Capture(|w| + 1, |s|, k, v);
    FreeTextBarePass(s, w, k, v);
    assert rest == s[0..|w|] + [s[|w|]];
    assert rest == w + " ";
    FilterSetFromBarePass(s, PassResult(rest, [c]));
    TrimSpacedWord(w);
    assert [c][1..] == [];
  }

  /** `beatles year:1969`: the word before the predicate is the free text. */
  lemma {:induction false} FreeTextThenPredicate(w: string, k: string, v: string)
    requires IsWord(w) && IsWord(k) && IsWord(v)
    ensures FilterSet(w + " " + k + ":" + v) == Assign(map[QueryKey := w], k, v)
  {
    FreeTextLayout(w, k, v);
    FilterSetOfFreeText(w + " " + k + ":" + v, w, k, v);
  }

  /** The bare pass over `k1:v1 k2:v2`, laid out in s. */
  lemma {:induction false} TwoBarePredicates(s: string, k1: string, v1: string, k2: string, v2: string)
    requires TwoBareAt(s, k1, v1, k2, v2)
    ensures var e := |k1| + 1 + |v1|;
      Scan(Bare, s, 0) == PassResult(" ", [Capture(0, e, k1, v1), Capture(e + 1, |s|, k2, v2)])
  {
    var e := |k1| + 1 + |v1|;
    var c1, c2 := Capture(0, e, k1, v1), Capture(e + 1, |s|, k2, v2);
    BarePredicateAt(s, 0, k1, v1);
    WordEndIs(s, e, e);
    BarePredicateAt(s, e + 1, k2, v2);
    assert Scan(Bare, s, e + 1) == PassResult([], [c2]);
    assert Scan(Bare, s, e) == PassResult(" ", [c2]);
  }

  /** Recording two captures is assigning one after the other. */
  lemma {:induction false} RecordTwo(m: map<string, string>, c1: Capture, c2: Capture)
    ensures Record(m, [c1, c2]) == Assign(Assign(m, c1.key, c1.value), c2.key, c2.value)
    ensures Record(m, [c1] + [c2]) == Record(m, [c1, c2])
  {
    assert [c1] + [c2] == [c1, c2];
    var m1 := Assign(m, c1.key, c1.value);
    assert [c1, c2][1..] == [c2] && [c2][1..] == [];
    assert Record(m, [c1, c2]) == Record(m1, [c2]);
  }

  /** Assigning one key twice keeps the later value. */
  lemma AssignTwice(m: map<string, string>, k: string, v1: string, v2: string)
    ensures Assign(Assign(m, k, v1), k, v2) == Assign(m, k, v2)
  {
    if k != ProtoKey {
      assert m[k := v1][k := v2] == m[k := v2];
    }
  }

  /** s is `k1:v1 k2:v2`. */
  predicate TwoBareAt(s: string, k1: string, v1: string, k2: string, v2: string) {
    var e := |k1| + 1 + |v1|;
    && |s| == e + 2 + |k2| + |v2|
    && WordAt(s, 0, k1) && s[|k1|] == ':' && WordAt(s, |k1| + 1, v1)
    && s[e] == ' ' && WordAt(s, e + 1, k2) && s[e + 1 + |k2|] == ':' && WordAt(s, e + 2 + |k2|, v2)
  }

  /** The predicate set of `k1:v1 k2:v2`, laid out in s: both predicates, in order, and no free text. */
  lemma {:induction false} FilterSetOfTwoBare(s: string, k1: string, v1: string, k2: string, v2: string)
    requires TwoBareAt(s, k1, v1, k2, v2)
    ensures FilterSet(s) == Assign(Assign(map[QueryKey := ""], k1, v1), k2, v2)
  {
    var e := |k1| + 1 + |v1|;
    var c1, c2 := Capture(0, e, k1, v1), Capture(e + 1, |s|, k2, v2);
    TwoBarePredicates(s, k1, v1, k2, v2);
    FilterSetFromBarePass(s, PassResult(" ", [c1, c2]));
    TrimBlank(" ");
    RecordTwo(map[QueryKey := ""], c1, c2);
  }

  lemma {:induction false} TwoBareLayout(k1: string, v1: string, k2: string, v2: string)
    requires IsWord(k1) && IsWord(v1) && IsWord(k2) && IsWord(v2)
    ensures TwoBareAt(k1 + ":" + v1 + " " + k2 + ":" + v2, k1, v1, k2, v2)
  {
    var s := k1 + ":" + v1 + " " + k2 + ":" + v2;
    var e := |k1| + 1 + |v1|;
    assert s[0..|k1|] == k1;
    assert s[|k1| + 1..e] == v1;
    assert s[e + 1..e + 1 + |k2|] == k2;
    assert s[e + 2 + |k2|..|s|] == v2;
  }

  /** `a:1 a:2`: both predicates leave the text, and the later value wins. */
  lemma {:induction false} RepeatedKey(k: string, v1: string, v2: string)
    requires IsWord(k) && IsWord(v1) && IsWord(v2)
    ensures FilterSet(k + ":" + v1 + " " + k + ":" + v2) == Assign(map[QueryKey := ""], k, v2)
  {
    TwoBareLayout(k, v1, k, v2);
    FilterSetOfTwoBare(k + ":" + v1 + " " + k + ":" + v2, k, v1, k, v2);
    AssignTwice(map[QueryKey := ""], k, v1, v2);
  }

  /** s is `k:"v" w`. */
  predicate QuotedThenWordAt(s: string, k: string, v: string, w: string) {
    var n, e := |k|, |k| + 3 + |v|;
    && |s| == e + 1 + |w| && |v| > 0 && IsPlain(v, '"')
    && WordAt(s, 0, k) && s[n] == ':' && s[n + 1] == '"' && s[n + 2..e - 1] == v && s[e - 1] == '"'
    && s[e] == ' ' && WordAt(s, e + 1, w)
  }

  lemma {:induction false} QuotedThenWordChars(s: string, k: string, v: string, w: string)
    requires QuotedThenWordAt(s, k, v, w)
    ensures var n, e := |k|, |k| + 3 + |v|;
      && (forall t :: 0 <= t < n ==> IsWordChar(s[t]))
      && (forall t :: n + 2 <= t < e - 1 ==> s[t] != ':' && s[t] != '"')
      && (forall t :: e < t < |s| ==> IsWordChar(s[t]))
  {
    var n, e := |k|, |k| + 3 + |v|;
    WordAtChars(s, 0, k);
    WordAtChars(s, e + 1, w);
    forall t | n + 2 <= t < e - 1 ensures s[t] != ':' && s[t] != '"' {
      assert s[t] == s[n + 2..e - 1][t - n - 2];
    }
  }

  /** The bare pass leaves `k:"v" w` alone: its one colon is followed by a quote. */
  lemma {:induction false} QuotedThenWordBarePass(s: string, k: string, v: string, w: string)
    requires QuotedThenWordAt(s, k, v, w)
    ensures Scan(Bare, s, 0) == PassResult(s, [])
  {
    QuotedThenWordChars(s, k, v, w);
    forall t | 0 <= t < |s| && s[t] == ':' ensures ColonBlocked(Bare, s, t) {
      assert t == |k|;
    }
    ScanAllBlocked(Bare, s);
  }

  /** The double-quoted pass takes `k:"v"` out of `k:"v" w`. */
  lemma {:induction false} QuotedThenWordDoublePass(s: string, k: string, v: string, w: string)
    requires QuotedThenWordAt(s, k, v, w)
    ensures Scan(Quoted('"'), s, 0) == PassResult(" " + w, [Capture(0, |k| + 3 + |v|, k, v)])
  {
    var n, e := |k|, |k| + 3 + |v|;
    QuotedThenWordChars(s, k, v, w);
    QuotedMatch(s, '"', 0, n, e);
    NoMatchInStretch(Quoted('"'), s, e, |s|);
    ScanKeepsStretch(Quoted('"'), s, e, |s|);
    assert s[e..|s|] == " " + w;
  }

  /** The predicate set of `k:"v" w`, laid out in s. */
  lemma {:induction false} FilterSetOfQuotedThenWord(s: string, k: string, v: string, w: string)
    requires QuotedThenWordAt(s, k, v, w)
    ensures FilterSet(s) == Record(map[QueryKey := w], [Capture(0, |k| + 3 + |v|, k, v)])
  {
    var c := Capture(0, |k| + 3 + |v|, k, v);
    QuotedThenWordBarePass(s, k, v, w);
    QuotedThenWordDoublePass(s, k, v, w);
    WordHasNoColon(w);
    FilterSetFromDoublePass(s, PassResult(" " + w, [c]));
    TrimSpacedWord(w);
  }

  /** `artist:"Miles Davis" love`: the quoted value keeps its spaces, the rest is free text. */
  lemma {:induction false} QuotedThenFreeText(k: string, v: string, w: string)
    requires IsWord(k) && IsWord(w) && |v| > 0 && IsPlain(v, '"')
    ensures FilterSet(k + ":\"" + v + "\" " + w) == Assign(map[QueryKey := w], k, v)
  {
    var s := k + ":\"" + v + "\" " + w;
    var e := |k| + 3 + |v|;
    assert s[0..|k|] == k;
    assert s[|k| + 2..e - 1] == v;
    assert s[e + 1..e + 1 + |w|] == w;
    FilterSetOfQuotedThenWord(s, k, v, w);
  }

  /** s is `k:"a "`. */
  predicate QuotedWordSpaceAt(s: string, k: string, a: string) {
    var n := |k|;
    && |s| == n + 4 + |a|
    && WordAt(s, 0, k) && s[n] == ':' && s[n + 1] == '"' && WordAt(s, n + 2, a)
    && s[n + 2 + |a|] == ' ' && s[n + 3 + |a|] == '"'
  }

  /** The double-quoted pass takes all of `k:"a "`. */
  lemma {:induction false} QuotedWordSpaceDoublePass(s: string, k: string, a: string)
    requires QuotedWordSpaceAt(s, k, a)
    ensures Scan(Quoted('"'), s, 0) == PassResult([], [Capture(0, |s|, k, a + " ")])
  {
    var n := |k|;
    WordAtChars(s, 0, k);
    WordAtChars(s, n + 2, a);
    QuotedMatch(s, '"', 0, n, |s|);
    assert s[n + 2..|s| - 1] == a + " ";
  }

  /** s is `k1:"a k2:v2"`. */
  predicate BareInsideQuotesAt(s: string, k1: string, a: string, k2: string, v2: string) {
    var n, p := |k1|, |k1| + 2 + |a|;
    var e := p + 2 + |k2| + |v2|;
    && |s| == e + 1
    && WordAt(s, 0, k1) && s[n] == ':' && s[n + 1] == '"' && WordAt(s, n + 2, a) && s[p] == ' '
    && WordAt(s, p + 1, k2) && s[p + 1 + |k2|] == ':' && WordAt(s, p + 2 + |k2|, v2) && s[e] == '"'
  }

  /** Before `k2:v2` the bare pass over `k1:"a k2:v2"` finds nothing. */
  lemma {:induction false} BareInsideQuotesHead(s: string, k1: string, a: string, k2: string, v2: string)
    requires BareInsideQuotesAt(s, k1, a, k2, v2)
    ensures var p := |k1| + 2 + |a|;
      forall q :: 0 <= q < p + 1 ==> MatchAt(Bare, s, q).None?
  {
    var n, p := |k1|, |k1| + 2 + |a|;
    WordAtChars(s, 0, k1);
    WordAtChars(s, n + 2, a);
    forall t | 0 <= t < p + 1 && s[t] == ':' ensures ColonBlocked(Bare, s, t) {
      assert t == n;
    }
    NoMatchInStretch(Bare, s, 0, p + 1);
  }

  /** From `k2:v2` on, the bare pass takes the predicate and keeps the closing quote. */
  lemma {:induction false} BareInsideQuotesTail(s: string, k1: string, a: string, k2: string, v2: string)
    requires BareInsideQuotesAt(s, k1, a, k2, v2)
    ensures var p := |k1| + 2 + |a|;
      Scan(Bare, s, p + 1) == PassResult([s[|s| - 1]], [Capture(p + 1, |s| - 1, k2, v2)])
  {
    var p, e := |k1| + 2 + |a|, |s| - 1;
    BarePredicateAt(s, p + 1, k2, v2);
    WordEndIs(s, e, e);
    assert Scan(Bare, s, e + 1) == PassResult([], []);
    assert [s[e]] + [] == [s[e]];
    assert Scan(Bare, s, e) == PassResult([s[e]], []);
  }

  /** The bare pass takes `k2:v2` out of `k1:"a k2:v2"` and leaves `k1:"a "`. */
  lemma {:induction false} BareInsideQuotesBarePass(s: string, k1: string, a: string, k2: string, v2: string)
    requires BareInsideQuotesAt(s, k1, a, k2, v2)
    ensures var p := |k1| + 2 + |a|;
      Scan(Bare, s, 0) == PassResult(s[0..p + 1] + [s[|s| - 1]], [Capture(p + 1, |s| - 1, k2, v2)])
  {
    var p := |k1| + 2 + |a|;
    BareInsideQuotesHead(s, k1, a, k2, v2);
    BareInsideQuotesTail(s, k1, a, k2, v2);
    ScanKeepsThen(Bare, s, p + 1, PassResult([s[|s| - 1]], [Capture(p + 1, |s| - 1, k2, v2)]));
  }

  /** What the bare pass leaves of `k1:"a k2:v2"` is `k1:"a "`. */
  lemma {:induction false} BareInsideQuotesResidue(s: string, k1: string, a: string, k2: string, v2: string)
    requires BareInsideQuotesAt(s, k1, a, k2, v2)
    ensures QuotedWordSpaceAt(s[0..|k1| + 3 + |a|] + [s[|s| - 1]], k1, a)
  {
    var m, x := |k1| + 3 + |a|, [s[|s| - 1]];
    WordAtPrefix(s, m, x, 0, k1);
    WordAtPrefix(s, m, x, |k1| + 2, a);
  }

  /**
   * The predicate set of `k1:"a k2:v2"`, laid out in s: the bare predicate
   * first, then the quoted one with what is left of its value.
   */
  lemma {:induction false} FilterSetOfBareInsideQuotes(s: string, k1: string, a: string, k2: string, v2: string)
    requires BareInsideQuotesAt(s, k1, a, k2, v2)
    ensures FilterSet(s) == Assign(Assign(map[QueryKey := ""], k2, v2), k1, a + " ")
  {
    var p := |k1| + 2 + |a|;
    var t := s[0..p + 1] + [s[|s| - 1]];
    var c1, c2 := Capture(0, |t|, k1, a + " "), Capture(p + 1, |s| - 1, k2, v2);
    BareInsideQuotesBarePass(s, k1, a, k2, v2);
    BareInsideQuotesResidue(s, k1, a, k2, v2);
    QuotedWordSpaceDoublePass(t, k1, a);
    FilterSetFromEmptiedPasses(s, PassResult(t, [c2]), PassResult([], [c1]));
    RecordTwo(map[QueryKey := ""], c2, c1);
  }

  lemma {:induction false} BareInsideQuotesLayout(k1: string, a: string, k2: string, v2: string)
    requires IsWord(k1) && IsWord(a) && IsWord(k2) && IsWord(v2)
    ensures BareInsideQuotesAt(k1 + ":\"" + a + " " + k2 + ":" + v2 + "\"", k1, a, k2, v2)
  {
    var s := k1 + ":\"" + a + " " + k2 + ":" + v2 + "\"";
    var n, p := |k1|, |k1| + 2 + |a|;
    assert s[0..n] == k1;
    assert s[n + 2..p] == a;
    assert s[p + 1..p + 1 + |k2|] == k2;
    assert s[p + 2 + |k2|..|s| - 1] == v2;
  }

  /**
   * `t:"a b:c"`: the bare pass runs first and takes `b:c` out of the quoted
   * value, so the double-quoted pass then sees `t:"a "`.
   */
  lemma {:induction false} BarePredicateInsideQuotes(k1: string, a: string, k2: string, v2: string)
    requires IsWord(k1) && IsWord(a) && IsWord(k2) && IsWord(v2)
    ensures FilterSet(k1 + ":\"" + a + " " + k2 + ":" + v2 + "\"")
         == Assign(Assign(map[QueryKey := ""], k2, v2), k1, a + " ")
  {
    BareInsideQuotesLayout(k1, a, k2, v2);
    FilterSetOfBareInsideQuotes(k1 + ":\"" + a + " " + k2 + ":" + v2 + "\"", k1, a, k2, v2);
  }

  /** No pass finds anything in `artist:"Miles`. */
  lemma {:induction false} UnbalancedQuotePass(p: Pattern, k: string, v: string)
    requires p in Passes && IsWord(k) && IsPlain(v, '"')
    ensures Scan(p, k + ":\"" + v, 0) == PassResult(k + ":\"" + v, [])
  {
    var s := k + ":\"" + v;
    forall t | 0 <= t < |s| && s[t] == ':' ensures ColonBlocked(p, s, t) {
      assert t == |k|;
      if p == Quoted('"') {
        QuoteEndIs(s, |k| + 2, '"', |s|);
      }
    }
    ScanAllBlocked(p, s);
  }

  /** `artist:"Miles`: an unbalanced quote matches nothing and stays in the free text. */
  lemma {:induction false} UnbalancedQuote(k: string, v: string)
    requires IsWord(k) && IsPlain(v, '"')
    ensures FilterSet(k + ":\"" + v) == map[QueryKey := Trim(k + ":\"" + v)]
  {
    var s := k + ":\"" + v;
    UnbalancedQuotePass(Bare, k, v);
    UnbalancedQuotePass(Quoted('"'), k, v);
    UnbalancedQuotePass(Quoted('\''), k, v);
    FilterSetFromPasses(s, PassResult(s, []), PassResult(s, []), PassResult(s, []));
  }
}
