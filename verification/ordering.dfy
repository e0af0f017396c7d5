/**
 * Sorting the matches: the registry of named comparators (`OrderFn`), the
 * comparator `Array.prototype.sort` falls back to when it is given none, and
 * the stable sort itself.
 */
module Ordering {
  import opened Options

  // ---------------------------------------------------------------------------
  // Comparators
  // ---------------------------------------------------------------------------

  /**
   * What `Array.prototype.sort` asks of a comparator for its result to be
   * defined: the sign of cmp(a, b) is the opposite of the sign of cmp(b, a),
   * and "a goes no later than b" is transitive.
   */
  ghost predicate Consistent<A(!new)>(cmp: (A, A) -> int) {
    Antisymmetric(cmp) && Transitive(cmp)
  }

  /** cmp(a, b) and cmp(b, a) have opposite signs. */
  ghost predicate Antisymmetric<A(!new)>(cmp: (A, A) -> int) {
    forall a, b :: cmp(a, b) < 0 <==> cmp(b, a) > 0
  }

  /** "a goes no later than b" is transitive. */
  ghost predicate Transitive<A(!new)>(cmp: (A, A) -> int) {
    forall a, b, c :: cmp(a, b) <= 0 && cmp(b, c) <= 0 ==> cmp(a, c) <= 0
  }

  /** Every element goes no later than every element after it. */
  ghost predicate SortedBy<A>(cmp: (A, A) -> int, s: seq<A>) {
    forall i, j :: 0 <= i < j < |s| ==> cmp(s[i], s[j]) <= 0
  }

  /** The elements of s that the comparator ranks equal to z, in their order in s. */
  function EqualTo<A>(cmp: (A, A) -> int, s: seq<A>, z: A): seq<A> {
    if s == [] then []
    else (if cmp(s[0], z) == 0 then [s[0]] else []) + EqualTo(cmp, s[1..], z)
  }

  /** Elements ranked equal keep their relative order. */
  ghost predicate StableFrom<A(!new)>(cmp: (A, A) -> int, input: seq<A>, output: seq<A>) {
    forall z :: EqualTo(cmp, output, z) == EqualTo(cmp, input, z)
  }

  // ---------------------------------------------------------------------------
  // The sort
  // ---------------------------------------------------------------------------

  /** Puts x in front of the first element it goes no later than. */
  function Insert<A>(cmp: (A, A) -> int, x: A, s: seq<A>): (r: seq<A>)
    ensures |r| == |s| + 1
  {
    if s == [] then [x]
    else if cmp(x, s[0]) <= 0 then [x] + s
    else [s[0]] + Insert(cmp, x, s[1..])
  }

  /** `array.sort(cmp)`, as a stable insertion sort. */
  function Sort<A>(cmp: (A, A) -> int, s: seq<A>): (r: seq<A>)
    ensures |r| == |s|
  {
    if s == [] then [] else Insert(cmp, s[0], Sort(cmp, s[1..]))
  }

  lemma {:induction false} InsertPermutes<A>(cmp: (A, A) -> int, x: A, s: seq<A>)
    ensures multiset(Insert(cmp, x, s)) == multiset(s) + multiset{x}
  {
    if s != [] && cmp(x, s[0]) > 0 {
      InsertPermutes(cmp, x, s[1..]);
      MultisetTail(s);
      assert multiset([s[0]] + Insert(cmp, x, s[1..])) == multiset{s[0]} + multiset(Insert(cmp, x, s[1..]));
    }
  }

  /** Sorting only reorders: the result is a permutation of the input. */
  lemma {:induction false} SortPermutes<A>(cmp: (A, A) -> int, s: seq<A>)
    ensures multiset(Sort(cmp, s)) == multiset(s)
  {
    if s != [] {
      SortPermutes(cmp, s[1..]);
      InsertPermutes(cmp, s[0], Sort(cmp, s[1..]));
      assert s == [s[0]] + s[1..];
    }
  }

  lemma {:induction false} InsertSorted<A(!new)>(cmp: (A, A) -> int, x: A, s: seq<A>)
    requires Consistent(cmp) && SortedBy(cmp, s)
    ensures SortedBy(cmp, Insert(cmp, x, s))
  {
    if s != [] && cmp(x, s[0]) <= 0 {
      SortedCons(cmp, x, s);
    } else if s != [] {
      InsertSorted(cmp, x, s[1..]);
      InsertMembers(cmp, x, s[1..]);
      assert cmp(s[0], x) <= 0;
      SortedConsMembers(cmp, s[0], Insert(cmp, x, s[1..]), s[1..] + [x]);
    }
  }

  /** Putting in front an element that goes no later than the head keeps a sequence sorted. */
  lemma {:induction false} SortedCons<A(!new)>(cmp: (A, A) -> int, x: A, s: seq<A>)
    requires Transitive(cmp) && SortedBy(cmp, s) && s != [] && cmp(x, s[0]) <= 0
    ensures SortedBy(cmp, [x] + s)
  {
    var out := [x] + s;
    forall i, j | 0 <= i < j < |out| ensures cmp(out[i], out[j]) <= 0 {
      assert out[j] == s[j - 1];
      if i > 0 {
        assert out[i] == s[i - 1];
      } else if j > 1 {
        assert cmp(s[0], s[j - 1]) <= 0;
      }
    }
  }

  /** Putting in front an element that goes no later than any of the elements keeps a sequence sorted. */
  lemma {:induction false} SortedConsMembers<A>(cmp: (A, A) -> int, x: A, s: seq<A>, members: seq<A>)
    requires SortedBy(cmp, s)
    requires forall e :: e in s ==> e in members
    requires forall e :: e in members ==> cmp(x, e) <= 0
    ensures SortedBy(cmp, [x] + s)
  {
    var out := [x] + s;
    forall i, j | 0 <= i < j < |out| ensures cmp(out[i], out[j]) <= 0 {
      assert out[j] == s[j - 1] && out[j] in s;
      if i > 0 {
        assert out[i] == s[i - 1];
      }
    }
  }

  lemma {:induction false} InsertMembers<A>(cmp: (A, A) -> int, x: A, s: seq<A>)
    ensures forall e :: e in Insert(cmp, x, s) <==> e == x || e in s
  {
    InsertPermutes(cmp, x, s);
    forall e ensures e in Insert(cmp, x, s) <==> e == x || e in s {
      assert e in Insert(cmp, x, s) <==> e in multiset(Insert(cmp, x, s));
      assert e in s <==> e in multiset(s);
    }
  }

  /** With a consistent comparator the result is in order. */
  lemma {:induction false} SortSorted<A(!new)>(cmp: (A, A) -> int, s: seq<A>)
    requires Consistent(cmp)
    ensures SortedBy(cmp, Sort(cmp, s))
  {
    if s != [] {
      SortSorted(cmp, s[1..]);
      InsertSorted(cmp, s[0], Sort(cmp, s[1..]));
    }
  }

  lemma {:induction false} EqualToCons<A>(cmp: (A, A) -> int, y: A, t: seq<A>, z: A)
    ensures EqualTo(cmp, [y] + t, z) == (if cmp(y, z) == 0 then [y] else []) + EqualTo(cmp, t, z)
  {
    assert ([y] + t)[1..] == t;
  }

  lemma {:induction false} SwapWhenOneEmpty<A>(xs: seq<A>, ys: seq<A>, rest: seq<A>)
    requires xs == [] || ys == []
    ensures ys + (xs + rest) == xs + (ys + rest)
  {
  }

  /** Inserting x keeps the elements ranked equal to any z in the order of x followed by s. */
  lemma {:induction false} InsertStable<A(!new)>(cmp: (A, A) -> int, x: A, s: seq<A>, z: A)
    requires Consistent(cmp)
    ensures EqualTo(cmp, Insert(cmp, x, s), z) == EqualTo(cmp, [x] + s, z)
  {
    if s != [] && cmp(x, s[0]) > 0 {
      var y, t := s[0], s[1..];
      assert s == [y] + t;
      InsertStable(cmp, x, t, z);
      EqualToCons(cmp, y, Insert(cmp, x, t), z);
      EqualToCons(cmp, x, t, z);
      EqualToCons(cmp, x, s, z);
      EqualToCons(cmp, y, t, z);
      if cmp(x, z) == 0 && cmp(y, z) == 0 {
        assert false;
      }
      SwapWhenOneEmpty(if cmp(x, z) == 0 then [x] else [], if cmp(y, z) == 0 then [y] else [], EqualTo(cmp, t, z));
    }
  }

  /** The sort is stable: elements ranked equal keep their order in the input. */
  lemma {:induction false} SortStable<A(!new)>(cmp: (A, A) -> int, s: seq<A>)
    requires Consistent(cmp)
    ensures StableFrom(cmp, s, Sort(cmp, s))
  {
    if s != [] {
      SortStable(cmp, s[1..]);
      forall z ensures EqualTo(cmp, Sort(cmp, s), z) == EqualTo(cmp, s, z) {
        InsertStable(cmp, s[0], Sort(cmp, s[1..]), z);
        assert ([s[0]] + Sort(cmp, s[1..]))[1..] == Sort(cmp, s[1..]);
      }
    }
  }

  /** A consistent comparator ranks every element equal to itself. */
  lemma SelfEqual<A(!new)>(cmp: (A, A) -> int, x: A)
    requires Antisymmetric(cmp)
    ensures cmp(x, x) == 0
  {
    assert cmp(x, x) < 0 <==> cmp(x, x) > 0;
  }

  /**
   * Two sorted sequences with the same elements in which every class of
   * equally ranked elements appears in the same order are the same sequence.
   */
  lemma {:induction false} SortedStableUnique<A(!new)>(cmp: (A, A) -> int, u: seq<A>, t: seq<A>)
    requires Consistent(cmp)
    requires multiset(u) == multiset(t)
    requires SortedBy(cmp, u) && SortedBy(cmp, t)
    requires forall z :: EqualTo(cmp, u, z) == EqualTo(cmp, t, z)
    ensures u == t
    decreases |u|
  {
    if u != [] {
      assert |t| == |multiset(t)| == |multiset(u)| == |u|;
      SameHead(cmp, u, t);
      TailsStable(cmp, u, t);
      MultisetTail(u);
      MultisetTail(t);
      SortedTail(cmp, u);
      SortedTail(cmp, t);
      SortedStableUnique(cmp, u[1..], t[1..]);
      HeadTail(u, t);
    }
  }

  lemma {:induction false} HeadTail<A>(u: seq<A>, t: seq<A>)
    requires u != [] && t != [] && u[0] == t[0] && u[1..] == t[1..]
    ensures u == t
  {
    assert u == [u[0]] + u[1..] && t == [t[0]] + t[1..];
  }

  /** Dropping the same first element keeps every class of equally ranked elements equal. */
  lemma {:induction false} TailsStable<A>(cmp: (A, A) -> int, u: seq<A>, t: seq<A>)
    requires u != [] && t != [] && u[0] == t[0]
    requires forall z :: EqualTo(cmp, u, z) == EqualTo(cmp, t, z)
    ensures forall z :: EqualTo(cmp, u[1..], z) == EqualTo(cmp, t[1..], z)
  {
    forall z ensures EqualTo(cmp, u[1..], z) == EqualTo(cmp, t[1..], z) {
      EqualToTail(cmp, u, z);
      EqualToTail(cmp, t, z);
      var front := if cmp(u[0], z) == 0 then [u[0]] else [];
      PrefixCancel(front, EqualTo(cmp, u[1..], z), EqualTo(cmp, t[1..], z));
    }
  }

  /** The first elements of two such sequences tie, and then stability makes them the same element. */
  lemma {:induction false} SameHead<A(!new)>(cmp: (A, A) -> int, u: seq<A>, t: seq<A>)
    requires Consistent(cmp) && u != [] && t != []
    requires multiset(u) == multiset(t)
    requires SortedBy(cmp, u) && SortedBy(cmp, t)
    requires EqualTo(cmp, u, t[0]) == EqualTo(cmp, t, t[0])
    ensures u[0] == t[0]
  {
    var x, y := u[0], t[0];
    GoesFirst(cmp, u, y);
    GoesFirst(cmp, t, x);
    assert cmp(x, y) == 0;
    SelfEqual(cmp, y);
    EqualToTail(cmp, u, y);
    EqualToTail(cmp, t, y);
    assert EqualTo(cmp, u, y)[0] == x && EqualTo(cmp, t, y)[0] == y;
  }

  /** The head of a sorted sequence goes no later than any element of it. */
  lemma {:induction false} GoesFirst<A(!new)>(cmp: (A, A) -> int, s: seq<A>, e: A)
    requires Antisymmetric(cmp) && SortedBy(cmp, s) && e in multiset(s)
    ensures cmp(s[0], e) <= 0
  {
    var i :| 0 <= i < |s| && s[i] == e;
    if i == 0 {
      SelfEqual(cmp, e);
    } else {
      assert cmp(s[0], s[i]) <= 0;
    }
  }

  lemma {:induction false} EqualToTail<A>(cmp: (A, A) -> int, s: seq<A>, z: A)
    requires s != []
    ensures EqualTo(cmp, s, z) == (if cmp(s[0], z) == 0 then [s[0]] else []) + EqualTo(cmp, s[1..], z)
  {
  }

  lemma {:induction false} PrefixCancel<A>(front: seq<A>, a: seq<A>, b: seq<A>)
    requires front + a == front + b
    ensures a == b
  {
    assert a == (front + a)[|front|..];
    assert b == (front + b)[|front|..];
  }

  lemma {:induction false} MultisetTail<A>(s: seq<A>)
    requires s != []
    ensures multiset(s) == multiset{s[0]} + multiset(s[1..])
    ensures multiset(s[1..]) == multiset(s) - multiset{s[0]}
  {
    assert s == [s[0]] + s[1..];
  }

  lemma {:induction false} SortedTail<A>(cmp: (A, A) -> int, s: seq<A>)
    requires SortedBy(cmp, s) && s != []
    ensures SortedBy(cmp, s[1..])
  {
    forall i, j | 0 <= i < j < |s| - 1 ensures cmp(s[1..][i], s[1..][j]) <= 0 {
      assert s[1..][i] == s[i + 1] && s[1..][j] == s[j + 1];
    }
  }

  /**
   * What the sort returns is the only sorted, stable permutation of its input,
   * so any engine whose sort is stable returns the same sequence.
   */
  lemma {:induction false} SortUnique<A(!new)>(cmp: (A, A) -> int, s: seq<A>, t: seq<A>)
    requires Consistent(cmp)
    requires multiset(t) == multiset(s) && SortedBy(cmp, t) && StableFrom(cmp, s, t)
    ensures t == Sort(cmp, s)
  {
    SortPermutes(cmp, s);
    SortSorted(cmp, s);
    SortStable(cmp, s);
    SortedStableUnique(cmp, t, Sort(cmp, s));
  }

  /** n copies of z. */
  function Copies<A>(z: A, n: nat): (r: seq<A>)
    ensures |r| == n
  {
    if n == 0 then [] else [z] + Copies(z, n - 1)
  }

  /** When only identical elements tie, the elements ranked equal to z are the copies of z. */
  lemma {:induction false} EqualToCopies<A(!new)>(cmp: (A, A) -> int, s: seq<A>, z: A)
    requires Antisymmetric(cmp)
    requires forall a, b :: cmp(a, b) == 0 ==> a == b
    ensures EqualTo(cmp, s, z) == Copies(z, multiset(s)[z])
    decreases |s|
  {
    if s != [] {
      var n := multiset(s[1..])[z];
      EqualToCopies(cmp, s[1..], z);
      EqualToTail(cmp, s, z);
      MultisetTail(s);
      if s[0] == z {
        SelfEqual(cmp, z);
        assert multiset(s)[z] == n + 1;
        assert Copies(z, n + 1) == [z] + Copies(z, n);
      } else {
        assert cmp(s[0], z) != 0;
        assert multiset(s)[z] == n;
      }
    }
  }

  /**
   * When the comparator ties only identical elements, the sorted result
   * depends on the elements alone, not on the order they arrive in.
   */
  lemma {:induction false} SortDeterministic<A(!new)>(cmp: (A, A) -> int, s: seq<A>, t: seq<A>)
    requires Consistent(cmp)
    requires forall a, b :: cmp(a, b) == 0 ==> a == b
    requires multiset(s) == multiset(t)
    ensures Sort(cmp, s) == Sort(cmp, t)
  {
    var u := Sort(cmp, t);
    SortPermutes(cmp, t);
    SortSorted(cmp, t);
    forall z ensures EqualTo(cmp, u, z) == EqualTo(cmp, s, z) {
      EqualToCopies(cmp, u, z);
      EqualToCopies(cmp, s, z);
    }
    SortUnique(cmp, s, u);
  }

  // ---------------------------------------------------------------------------
  // The comparator used when none is given: String(a) < String(b)
  // ---------------------------------------------------------------------------

  /** The `<` of two strings: code by code, a proper prefix first. */
  predicate StringLess(a: string, b: string)
    decreases |a|
  {
    if a == [] then b != []
    else if b == [] then false
    else if a[0] != b[0] then a[0] < b[0]
    else StringLess(a[1..], b[1..])
  }

  lemma {:induction false} StringLessTrichotomy(a: string, b: string)
    ensures a == b || StringLess(a, b) || StringLess(b, a)
    ensures !(StringLess(a, b) && StringLess(b, a))
    ensures !StringLess(a, a)
    decreases |a|
  {
    if a != [] && b != [] && a[0] == b[0] {
      StringLessTrichotomy(a[1..], b[1..]);
      assert a == [a[0]] + a[1..] && b == [b[0]] + b[1..];
    }
    if a != [] {
      StringLessTrichotomy(a[1..], a[1..]);
    }
  }

  lemma {:induction false} StringLessTransitive(a: string, b: string, c: string)
    requires StringLess(a, b) && StringLess(b, c)
    ensures StringLess(a, c)
    decreases |a|
  {
    if a != [] && a[0] == b[0] && b[0] == c[0] {
      StringLessTransitive(a[1..], b[1..], c[1..]);
    }
  }

  /** Any two distinct strings are ordered one way, and no string comes before itself. */
  lemma StringLessTotal()
    ensures forall a: string, b: string :: a == b <==> !StringLess(a, b) && !StringLess(b, a)
  {
    forall a: string, b: string ensures a == b <==> !StringLess(a, b) && !StringLess(b, a) {
      StringLessTrichotomy(a, b);
    }
  }

  /** SortCompare without a comparator: the elements' string forms, compared. */
  function DefaultCompare<A(!new)>(display: A -> string): (r: (A, A) -> int)
    ensures forall a, b :: r(a, b) == 0 <==> display(a) == display(b)
    ensures forall a, b :: r(a, b) < 0 <==> StringLess(display(a), display(b))
  {
    StringLessTotal();
    (a: A, b: A) =>
      if StringLess(display(a), display(b)) then -1
      else if StringLess(display(b), display(a)) then 1
      else 0
  }

  /** The default comparison is consistent, so sorting without a comparator is defined. */
  lemma DefaultCompareConsistent<A(!new)>(display: A -> string)
    ensures Consistent(DefaultCompare(display))
  {
    var cmp := DefaultCompare(display);
    forall a, b ensures cmp(a, b) < 0 <==> cmp(b, a) > 0 {
      StringLessTrichotomy(display(a), display(b));
    }
    forall a, b, c | cmp(a, b) <= 0 && cmp(b, c) <= 0 ensures cmp(a, c) <= 0 {
      StringLessTrichotomy(display(a), display(b));
      StringLessTrichotomy(display(b), display(c));
      StringLessTrichotomy(display(a), display(c));
      if StringLess(display(c), display(a)) {
        if StringLess(display(c), display(b)) {
          assert false;
        } else if display(b) == display(c) {
          assert false;
        } else {
          StringLessTransitive(display(b), display(c), display(a));
        }
      }
    }
  }

  // ---------------------------------------------------------------------------
  // The registry `OrderFn`
  // ---------------------------------------------------------------------------

  /**
   * An object of named comparators: its keys in `Object.keys` order
   * (integer-like keys first, ascending, then the rest in insertion order)
   * and the comparator under each.
   */
  datatype Registry<!A> = Registry(keys: seq<string>, fns: map<string, (A, A) -> int>)

  /** An object's keys are distinct, and `Object.keys` lists exactly them. */
  ghost predicate ValidRegistry<A>(registry: Registry<A>) {
    && (forall i, j :: 0 <= i < j < |registry.keys| ==> registry.keys[i] != registry.keys[j])
    && (forall k :: k in registry.fns <==> k in registry.keys)
  }

  /** `OrderFn[order]`: a comparator, or `undefined` when there is none of that name. */
  function Lookup<A>(registry: Registry<A>, order: string): (r: Option<(A, A) -> int>)
    ensures r.Some? <==> order in registry.fns
    ensures r.Some? ==> r.value == registry.fns[order]
  {
    if order in registry.fns then Some(registry.fns[order]) else None
  }

  /** The comparator `matches.sort(OrderFn[order])` ends up using. */
  function ComparatorFor<A(!new)>(registry: Registry<A>, display: A -> string, order: string): (r: (A, A) -> int)
    ensures order in registry.fns ==> r == registry.fns[order]
    ensures order !in registry.fns ==> r == DefaultCompare(display)
  {
    match Lookup(registry, order)
    case Some(cmp) => cmp
    case None => DefaultCompare(display)
  }

  /**
   * The sort is consistent whenever the registry's comparators are: a named
   * comparator is used when the order names one, the default one otherwise.
   */
  lemma ComparatorForConsistent<A(!new)>(registry: Registry<A>, display: A -> string, order: string)
    requires forall k :: k in registry.fns ==> Consistent(registry.fns[k])
    ensures Consistent(ComparatorFor(registry, display, order))
    ensures order in registry.keys && ValidRegistry(registry) ==>
              ComparatorFor(registry, display, order) == registry.fns[order]
    ensures order !in registry.fns ==> ComparatorFor(registry, display, order) == DefaultCompare(display)
  {
    if order !in registry.fns {
      DefaultCompareConsistent(display);
    }
  }
}
