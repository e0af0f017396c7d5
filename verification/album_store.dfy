/**
 * The album store: the query, the chosen order, the albums, the current
 * matches and the busy flag; the setters that the search box, the order
 * shortcuts and the fetch call use; and the pass that re-filters and re-sorts
 * the albums whenever one of them changes.
 *
 * The album type, `match` and the comparators of `OrderFn` come from modules
 * that are not part of this model, so they are parameters here.
 */
module Store {
  import opened Options
  import QueryParser
  import Ordering

  // ---------------------------------------------------------------------------
  // Filtering
  // ---------------------------------------------------------------------------

  /** The elements of s for which keep holds, in their order in s. */
  function Filter<A>(s: seq<A>, keep: A -> bool): (r: seq<A>)
    ensures |r| <= |s|
    decreases |s|
  {
    if s == [] then [] else (if keep(s[0]) then [s[0]] else []) + Filter(s[1..], keep)
  }

  lemma {:induction false} FilterAppend<A>(a: seq<A>, b: seq<A>, keep: A -> bool)
    ensures Filter(a + b, keep) == Filter(a, keep) + Filter(b, keep)
    decreases |a|
  {
    if a == [] {
      assert a + b == b;
    } else {
      var head := if keep(a[0]) then [a[0]] else [];
      FilterAppend(a[1..], b, keep);
      assert (a + b)[0] == a[0] && (a + b)[1..] == a[1..] + b;
      FilterHead(a + b, keep);
      FilterHead(a, keep);
      assert head + (Filter(a[1..], keep) + Filter(b, keep)) == (head + Filter(a[1..], keep)) + Filter(b, keep);
    }
  }

  lemma {:induction false} FilterHead<A>(s: seq<A>, keep: A -> bool)
    requires s != []
    ensures Filter(s, keep) == (if keep(s[0]) then [s[0]] else []) + Filter(s[1..], keep)
  {
  }

  /**
   * The filtered sequence holds every element that passes, as often as the
   * input does, and nothing else: a permutation of the passing subset.
   */
  lemma {:induction false} FilterCounts<A>(s: seq<A>, keep: A -> bool)
    ensures forall x :: multiset(Filter(s, keep))[x] == if keep(x) then multiset(s)[x] else 0
    decreases |s|
  {
    if s != [] {
      FilterCounts(s[1..], keep);
      assert s == [s[0]] + s[1..];
    }
  }

  /** When every element passes, filtering changes nothing. */
  lemma {:induction false} FilterKeepsAll<A>(s: seq<A>, keep: A -> bool)
    requires forall x :: x in s ==> keep(x)
    ensures Filter(s, keep) == s
    decreases |s|
  {
    if s != [] {
      assert s[0] in s;
      assert forall x :: x in s[1..] ==> x in s;
      FilterKeepsAll(s[1..], keep);
    }
  }

  /** `async.filter(albums, iteratee, callback)`: the albums the iteratee accepts, in order. */
  method FilterAlbums<A>(albums: seq<A>, keep: A -> bool) returns (kept: seq<A>)
    ensures kept == Filter(albums, keep)
    ensures forall x :: x in kept <==> x in albums && keep(x)
  {
    kept := [];
    var i := 0;
    while i < |albums|
      invariant 0 <= i <= |albums|
      invariant kept == Filter(albums[..i], keep)
    {
      FilterAppend(albums[..i], [albums[i]], keep);
      assert albums[..i + 1] == albums[..i] + [albums[i]];
      if keep(albums[i]) {
        kept := kept + [albums[i]];
      }
      i := i + 1;
    }
    assert albums[..|albums|] == albums;
    FilterCounts(albums, keep);
    forall x ensures x in kept <==> x in albums && keep(x) {
      assert x in kept <==> x in multiset(kept);
      assert x in albums <==> x in multiset(albums);
    }
  }

  /** The albums `match` accepts under the predicate set of a query. */
  function Matching<A>(albums: seq<A>, matchFn: (A, map<string, string>) -> bool, query: string): (r: seq<A>)
    ensures |r| <= |albums|
  {
    var filterSet := QueryParser.FilterSet(query);
    Filter(albums, a => matchFn(a, filterSet))
  }

  /**
   * After `clearFilter()` the predicate set is `{ query: '' }`; when `match`
   * accepts every album under it, the pass yields all the albums, sorted.
   */
  lemma ClearedQueryKeepsAll<A>(albums: seq<A>, matchFn: (A, map<string, string>) -> bool, cmp: (A, A) -> int)
    requires forall a :: a in albums ==> matchFn(a, map[QueryParser.QueryKey := ""])
    ensures QueryParser.FilterSet("") == map[QueryParser.QueryKey := ""]
    ensures Ordering.Sort(cmp, Matching(albums, matchFn, "")) == Ordering.Sort(cmp, albums)
  {
    QueryParser.ParseWithoutPattern("");
    assert QueryParser.TrimStart("", 0) == 0;
    var filterSet := QueryParser.FilterSet("");
    FilterKeepsAll(albums, a => matchFn(a, filterSet));
  }

  // ---------------------------------------------------------------------------
  // The store
  // ---------------------------------------------------------------------------

  class AlbumStore<A(!new)> {
    var isLoading: bool
    var isFiltering: bool
    var albums: seq<A>
    var matches: seq<A>
    var query: string
    var order: string

    /** `OrderFn`, its keys in `Object.keys` order (integer-like keys first, ascending). */
    const orderFn: Ordering.Registry<A>
    /** `match(album, filterSet)`. */
    const matchFn: (A, map<string, string>) -> bool
    /** `String(album)`, which sorting without a comparator compares. */
    const display: A -> string

    /**
     * A new store. `storedQuery` and `storedOrder` are what the preference
     * storage holds under `query` and `order`, if anything: an empty query
     * and the first ordering are the defaults. The first pass runs over no
     * albums and leaves no matches.
     */
    constructor (orderFn: Ordering.Registry<A>, matchFn: (A, map<string, string>) -> bool,
                 display: A -> string, storedQuery: Option<string>, storedOrder: Option<string>)
      requires Ordering.ValidRegistry(orderFn) && |orderFn.keys| > 0
      ensures this.orderFn == orderFn && this.matchFn == matchFn && this.display == display
      ensures query == storedQuery.GetOr("")
      ensures order == storedOrder.GetOr(orderFn.keys[0])
      ensures storedOrder.None? ==> Comparator() == orderFn.fns[orderFn.keys[0]]
      ensures albums == [] && matches == []
      ensures !isFiltering && !isLoading
    {
      this.orderFn := orderFn;
      this.matchFn := matchFn;
      this.display := display;
      isLoading := false;
      isFiltering := false;
      albums := [];
      matches := [];
      query := storedQuery.GetOr("");
      order := storedOrder.GetOr(orderFn.keys[0]);
    }

    /** `filterSet`, derived from the current query. */
    function FilterSet(): map<string, string>
      reads this
    {
      QueryParser.FilterSet(query)
    }

    /** The comparator `OrderFn[this.order]` gives the sort. */
    function Comparator(): (A, A) -> int
      reads this
    {
      Ordering.ComparatorFor(orderFn, display, order)
    }

    /** The matches a pass over the current state produces. */
    function Expected(): seq<A>
      reads this
    {
      Ordering.Sort(Comparator(), Matching(albums, matchFn, query))
    }

    method SetIsFiltering(value: bool)
      modifies this
      ensures isFiltering == value
      ensures query == old(query) && order == old(order) && albums == old(albums)
      ensures matches == old(matches) && isLoading == old(isLoading)
    {
      isFiltering := value;
    }

    method SetIsLoading(value: bool)
      modifies this
      ensures isLoading == value
      ensures query == old(query) && order == old(order) && albums == old(albums)
      ensures matches == old(matches) && isFiltering == old(isFiltering)
    {
      isLoading := value;
    }

    /** `this.matches.replace(albums)`: the contents are replaced as a whole. */
    method SetMatches(albums: seq<A>)
      modifies this
      ensures matches == albums
      ensures query == old(query) && order == old(order) && this.albums == old(this.albums)
      ensures isFiltering == old(isFiltering) && isLoading == old(isLoading)
    {
      matches := albums;
    }

    /** `this.albums.replace(albums)`: the contents are replaced as a whole. */
    method SetAlbums(albums: seq<A>)
      modifies this
      ensures this.albums == albums
      ensures query == old(query) && order == old(order) && matches == old(matches)
      ensures isFiltering == old(isFiltering) && isLoading == old(isLoading)
    {
      this.albums := albums;
    }

    method SetQuery(text: string)
      modifies this
      ensures query == text
      ensures order == old(order) && albums == old(albums) && matches == old(matches)
      ensures isFiltering == old(isFiltering) && isLoading == old(isLoading)
    {
      query := text;
    }

    method SetOrder(value: string)
      modifies this
      ensures order == value
      ensures query == old(query) && albums == old(albums) && matches == old(matches)
      ensures isFiltering == old(isFiltering) && isLoading == old(isLoading)
    {
      order := value;
    }

    /** `setQuery('')`. */
    method ClearFilter()
      modifies this
      ensures query == ""
      ensures FilterSet() == map[QueryParser.QueryKey := ""]
      ensures order == old(order) && albums == old(albums) && matches == old(matches)
      ensures isFiltering == old(isFiltering) && isLoading == old(isLoading)
    {
      SetQuery("");
      QueryParser.ParseWithoutPattern("");
      assert QueryParser.TrimStart("", 0) == 0;
    }

    /** The start of a pass: the busy flag goes up, nothing else changes. */
    method BeginPass()
      modifies this
      ensures isFiltering
      ensures query == old(query) && order == old(order) && albums == old(albums)
      ensures matches == old(matches) && isLoading == old(isLoading)
    {
      SetIsFiltering(true);
    }

    /**
     * The end of a pass: the filtered albums, sorted with the comparator of
     * the current order, replace the matches, and the busy flag goes down.
     */
    method CompletePass(filtered: seq<A>)
      modifies this
      ensures matches == Ordering.Sort(Comparator(), filtered)
      ensures !isFiltering
      ensures query == old(query) && order == old(order) && albums == old(albums)
      ensures isLoading == old(isLoading)
    {
      var sorted := Ordering.Sort(Comparator(), filtered);
      SetMatches(sorted);
      SetIsFiltering(false);
    }

    /**
     * One pass of the recompute step, run to completion: the matches become
     * the albums `match` accepts under the current predicate set, each as
     * often as in the albums, sorted (stably, when the comparators are
     * consistent) by the current order; the busy flag ends down.
     */
    method Recompute()
      modifies this
      ensures matches == Expected()
      ensures forall a :: multiset(matches)[a] == if matchFn(a, FilterSet()) then multiset(albums)[a] else 0
      ensures (forall k :: k in orderFn.fns ==> Ordering.Consistent(orderFn.fns[k])) ==>
                && Ordering.SortedBy(Comparator(), matches)
                && Ordering.StableFrom(Comparator(), Matching(albums, matchFn, query), matches)
      ensures !isFiltering
      ensures query == old(query) && order == old(order) && albums == old(albums)
      ensures isLoading == old(isLoading)
    {
      BeginPass();
      var filterSet := FilterSet();
      var m := matchFn;
      var filtered := FilterAlbums(albums, a => m(a, filterSet));
      CompletePass(filtered);
      Ordering.SortPermutes(Comparator(), filtered);
      FilterCounts(albums, a => m(a, filterSet));
      if forall k :: k in orderFn.fns ==> Ordering.Consistent(orderFn.fns[k]) {
        Ordering.ComparatorForConsistent(orderFn, display, order);
        Ordering.SortSorted(Comparator(), filtered);
        Ordering.SortStable(Comparator(), filtered);
      }
    }
  }
}
