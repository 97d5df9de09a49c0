/** The leaves of a schema validation error, in the order findings report them. */
module SchemaErrors {
  import opened Common
  import opened Text

  /** A validation error: where it was found, in the instance and in the schema, and what caused it. */
  datatype ValidationError =
    ValidationError(instanceLocation: string, keywordLocation: string, message: string, causes: seq<ValidationError>)

  /** The comparator of the sort. */
  predicate Before(a: ValidationError, b: ValidationError) {
    if a.instanceLocation == b.instanceLocation then Less(a.keywordLocation, b.keywordLocation)
    else Less(a.instanceLocation, b.instanceLocation)
  }

  predicate SamePlace(a: ValidationError, b: ValidationError) {
    a.instanceLocation == b.instanceLocation && a.keywordLocation == b.keywordLocation
  }

  lemma BeforeIsStrict(a: ValidationError, b: ValidationError)
    requires Before(a, b)
    ensures !Before(b, a) && !SamePlace(a, b)
  {
    if a.instanceLocation == b.instanceLocation {
      LessIsStrict(a.keywordLocation, b.keywordLocation);
    } else {
      LessIsStrict(a.instanceLocation, b.instanceLocation);
    }
  }

  lemma BeforeIsTotal(a: ValidationError, b: ValidationError)
    ensures Before(a, b) || Before(b, a) || SamePlace(a, b)
  {
    LessIsTotal(a.instanceLocation, b.instanceLocation);
    LessIsTotal(a.keywordLocation, b.keywordLocation);
  }

  lemma BeforeIsTransitive(a: ValidationError, b: ValidationError, c: ValidationError)
    requires Before(a, b) && Before(b, c)
    ensures Before(a, c)
  {
    if a.instanceLocation == b.instanceLocation == c.instanceLocation {
      LessIsTransitive(a.keywordLocation, b.keywordLocation, c.keywordLocation);
    } else if a.instanceLocation != b.instanceLocation && b.instanceLocation != c.instanceLocation {
      LessIsTransitive(a.instanceLocation, b.instanceLocation, c.instanceLocation);
      if a.instanceLocation == c.instanceLocation { LessIsStrict(a.instanceLocation, b.instanceLocation); }
    }
  }

  /** "Not after" is transitive too. */
  lemma NotAfterIsTransitive(a: ValidationError, b: ValidationError, c: ValidationError)
    requires !Before(b, a) && !Before(c, b)
    ensures !Before(c, a)
  {
    hide Before;
    BeforeIsTotal(a, b);
    BeforeIsTotal(b, c);
    if SamePlace(a, b) { SamePlaceBefore(a, b, c); }
    if SamePlace(b, c) { SamePlaceBefore(b, c, a); }
    if Before(a, b) && Before(b, c) {
      BeforeIsTransitive(a, b, c);
      BeforeIsStrict(a, c);
    } else if Before(a, b) {
      BeforeIsStrict(a, b);
    }
  }

  lemma SamePlaceBefore(a: ValidationError, b: ValidationError, c: ValidationError)
    requires SamePlace(a, b)
    ensures (Before(a, c) <==> Before(b, c)) && (Before(c, a) <==> Before(c, b))
  {
  }

  ghost predicate Sorted(s: seq<ValidationError>) {
    forall i, j :: 0 <= i < j < |s| ==> !Before(s[j], s[i])
  }

  /** The errors at one place, in the order they come. */
  ghost function AtPlace(s: seq<ValidationError>, place: ValidationError): seq<ValidationError> {
    if s == [] then []
    else (if SamePlace(s[0], place) then [s[0]] else []) + AtPlace(s[1..], place)
  }

  /** Two lists hold the same errors, those at one place in the same order: what a stable sort may do. */
  ghost predicate StablyEqual(a: seq<ValidationError>, b: seq<ValidationError>) {
    forall place :: AtPlace(a, place) == AtPlace(b, place)
  }

  lemma {:induction false} AtPlaceConcat(a: seq<ValidationError>, b: seq<ValidationError>, place: ValidationError)
    ensures AtPlace(a + b, place) == AtPlace(a, place) + AtPlace(b, place)
  {
    if a == [] {
      assert a + b == b;
    } else {
      assert (a + b)[0] == a[0] && (a + b)[1..] == a[1..] + b;
      AtPlaceConcat(a[1..], b, place);
    }
  }

  lemma StablyEqualConcat(a: seq<ValidationError>, b: seq<ValidationError>,
                          c: seq<ValidationError>, d: seq<ValidationError>)
    requires StablyEqual(a, b) && StablyEqual(c, d)
    ensures StablyEqual(a + c, b + d)
  {
    forall place ensures AtPlace(a + c, place) == AtPlace(b + d, place) {
      AtPlaceConcat(a, c, place);
      AtPlaceConcat(b, d, place);
    }
  }

  lemma {:induction false} AtPlaceFinds(s: seq<ValidationError>, place: ValidationError)
    ensures AtPlace(s, place) != [] ==> exists i :: 0 <= i < |s| && SamePlace(s[i], place)
  {
    if s != [] && !SamePlace(s[0], place) {
      AtPlaceFinds(s[1..], place);
      if AtPlace(s, place) != [] {
        var i :| 0 <= i < |s[1..]| && SamePlace(s[1..][i], place);
        assert SamePlace(s[i + 1], place);
      }
    }
  }

  lemma FirstIsAtPlace(s: seq<ValidationError>)
    requires s != []
    ensures AtPlace(s, s[0]) != [] && AtPlace(s, s[0])[0] == s[0]
  {
  }

  /** The first of a sorted list is no later than anything in a stably equal one. */
  lemma FirstNotAfter(a: seq<ValidationError>, b: seq<ValidationError>)
    requires a != [] && b != [] && Sorted(a) && StablyEqual(a, b)
    ensures !Before(b[0], a[0])
  {
    hide Before;
    FirstIsAtPlace(b);
    AtPlaceFinds(a, b[0]);
    var i :| 0 <= i < |a| && SamePlace(a[i], b[0]);
    SamePlaceBefore(a[i], b[0], a[0]);
    if i == 0 { NeverBeforeItself(a[0]); }
  }

  lemma NeverBeforeItself(a: ValidationError)
    ensures !Before(a, a)
  {
    if Before(a, a) { BeforeIsStrict(a, a); }
  }

  /** A sorted list is determined by what a stable sort keeps. */
  lemma {:induction false} StableSortUnique(a: seq<ValidationError>, b: seq<ValidationError>)
    requires Sorted(a) && Sorted(b) && StablyEqual(a, b)
    ensures a == b
  {
    hide Before;
    SameEmptiness(a, b);
    if a != [] {
      FirstNotAfter(a, b);
      FirstNotAfter(b, a);
      BeforeIsTotal(a[0], b[0]);
      FirstIsAtPlace(a);
      FirstIsAtPlace(b);
      AtSamePlace(a, a[0], b[0]);
      forall place ensures AtPlace(a[1..], place) == AtPlace(b[1..], place) {
        var first := if SamePlace(a[0], place) then [a[0]] else [];
        assert AtPlace(a, place) == first + AtPlace(a[1..], place);
        assert AtPlace(b, place) == first + AtPlace(b[1..], place);
        assert AtPlace(a[1..], place) == AtPlace(a, place)[|first|..];
      }
      StableSortUnique(a[1..], b[1..]);
      assert a == [a[0]] + a[1..] && b == [b[0]] + b[1..];
    }
  }

  lemma {:induction false} AtSamePlace(s: seq<ValidationError>, p: ValidationError, q: ValidationError)
    requires SamePlace(p, q)
    ensures AtPlace(s, p) == AtPlace(s, q)
  {
    if s != [] { AtSamePlace(s[1..], p, q); }
  }

  lemma SameEmptiness(a: seq<ValidationError>, b: seq<ValidationError>)
    requires StablyEqual(a, b)
    ensures a == [] <==> b == []
  {
    if a != [] { FirstIsAtPlace(a); }
    if b != [] { FirstIsAtPlace(b); }
  }

  // ----- The stable sort -----

  ghost function Insert(x: ValidationError, s: seq<ValidationError>): seq<ValidationError> {
    if s == [] || !Before(s[0], x) then [x] + s else [s[0]] + Insert(x, s[1..])
  }

  /** The stable sort of a list. */
  ghost function StableSorted(s: seq<ValidationError>): seq<ValidationError> {
    if s == [] then [] else Insert(s[0], StableSorted(s[1..]))
  }

  /** Inserting behind an item at another place is stable when inserting into the rest is. */
  lemma PassingIsStable(first: ValidationError, x: ValidationError, rest: seq<ValidationError>, t: seq<ValidationError>)
    requires !SamePlace(first, x) && StablyEqual(t, [x] + rest)
    ensures StablyEqual([first] + t, [x, first] + rest)
  {
    assert StablyEqual([first], [first]);
    StablyEqualConcat([first], [first], t, [x] + rest);
    assert [first] + ([x] + rest) == [first, x] + rest;
    forall place ensures AtPlace([first] + t, place) == AtPlace([x, first] + rest, place) {
      SwapApart(first, x, rest, place);
    }
  }

  lemma {:induction false} InsertIsStable(x: ValidationError, s: seq<ValidationError>)
    ensures StablyEqual(Insert(x, s), [x] + s)
  {
    hide Before, StablyEqual, SamePlace;
    if s == [] || !Before(s[0], x) {
      StablyReflexive([x] + s);
    } else {
      InsertIsStable(x, s[1..]);
      BeforeIsStrict(s[0], x);
      PassingIsStable(s[0], x, s[1..], Insert(x, s[1..]));
      assert [x, s[0]] + s[1..] == [x] + s;
    }
  }

  lemma StablyReflexive(s: seq<ValidationError>)
    ensures StablyEqual(s, s)
  {
  }

  lemma {:induction false} InsertHolds(x: ValidationError, s: seq<ValidationError>)
    ensures multiset(Insert(x, s)) == multiset(s) + multiset{x}
  {
    hide Before;
    if s != [] && Before(s[0], x) {
      InsertHolds(x, s[1..]);
      assert s == [s[0]] + s[1..];
    }
  }

  lemma {:induction false} InsertSorts(x: ValidationError, s: seq<ValidationError>)
    requires Sorted(s)
    ensures Sorted(Insert(x, s))
  {
    hide Before;
    if s == [] {
    } else if !Before(s[0], x) {
      forall i | 0 <= i < |s| ensures !Before(s[i], x) {
        if i > 0 { NotAfterIsTransitive(x, s[0], s[i]); }
      }
    } else {
      var t := Insert(x, s[1..]);
      InsertSorts(x, s[1..]);
      InsertHolds(x, s[1..]);
      BeforeIsStrict(s[0], x);
      forall y | y in t ensures !Before(y, s[0]) {
        assert y in multiset(t);
        assert y == x || y in s[1..];
      }
    }
  }

  /** Two neighbours at different places may change places. */
  lemma SwapApart(a: ValidationError, b: ValidationError, rest: seq<ValidationError>, place: ValidationError)
    requires !SamePlace(a, b)
    ensures AtPlace([a, b] + rest, place) == AtPlace([b, a] + rest, place)
  {
    AtPlaceConcat([a, b], rest, place);
    AtPlaceConcat([b, a], rest, place);
    assert [a, b][1..] == [b] && [b, a][1..] == [a] && [b][1..] == [] && [a][1..] == [];
  }

  lemma {:induction false} StableSortedIsStable(s: seq<ValidationError>)
    ensures Sorted(StableSorted(s)) && StablyEqual(StableSorted(s), s) && multiset(StableSorted(s)) == multiset(s)
  {
    hide Before;
    if s != [] {
      var t := StableSorted(s[1..]);
      StableSortedIsStable(s[1..]);
      InsertIsStable(s[0], t);
      InsertSorts(s[0], t);
      InsertHolds(s[0], t);
      assert s == [s[0]] + s[1..];
      assert StablyEqual([s[0]], [s[0]]);
      StablyEqualConcat([s[0]], [s[0]], t, s[1..]);
    }
  }

  /** Moves item `i` down past the ones it belongs before. */
  method SiftDown(a: array<ValidationError>, i: nat)
    requires i < a.Length && Sorted(a[..i])
    modifies a
    ensures Sorted(a[..i + 1]) && StablyEqual(a[..], old(a[..]))
  {
    hide Before;
    var j := i;
    while j > 0 && Before(a[j], a[j - 1])
      invariant 0 <= j <= i
      invariant forall x, y :: 0 <= x < y <= i && y != j ==> !Before(a[y], a[x])
      invariant StablyEqual(a[..], old(a[..]))
    {
      BeforeIsStrict(a[j], a[j - 1]);
      ghost var s := a[..];
      SwapNeighbours(s, j);
      a[j], a[j - 1] := a[j - 1], a[j];
      assert a[..] == s[j - 1 := s[j]][j := s[j - 1]];
      j := j - 1;
    }
    forall x | 0 <= x < j ensures !Before(a[j], a[x]) {
      if x < j - 1 { NotAfterIsTransitive(a[x], a[j - 1], a[j]); }
    }
  }

  lemma SwapNeighbours(s: seq<ValidationError>, j: nat)
    requires 0 < j < |s| && !SamePlace(s[j - 1], s[j])
    ensures StablyEqual(s[j - 1 := s[j]][j := s[j - 1]], s)
  {
    var a, b, front, rest := s[j - 1], s[j], s[..j - 1], s[j + 1..];
    var t := s[j - 1 := s[j]][j := s[j - 1]];
    assert s == front + ([a, b] + rest);
    assert t == front + ([b, a] + rest);
    forall place ensures AtPlace(t, place) == AtPlace(s, place) {
      AtPlaceConcat(front, [a, b] + rest, place);
      AtPlaceConcat(front, [b, a] + rest, place);
      SwapApart(a, b, rest, place);
    }
  }

  /** The library's stable sort, in place. */
  method SortSliceStable(a: array<ValidationError>)
    modifies a
    ensures a[..] == StableSorted(old(a[..]))
  {
    hide Sorted;
    assert a[..0] == [];
    NothingIsSorted();
    for i := 0 to a.Length
      invariant Sorted(a[..i])
      invariant StablyEqual(a[..], old(a[..]))
    {
      SiftDown(a, i);
    }
    assert a[..] == a[..a.Length];
    StableSortedIsStable(old(a[..]));
    StableSortUnique(a[..], StableSorted(old(a[..])));
  }

  lemma NothingIsSorted()
    ensures Sorted([])
  {
  }

  // ----- The leaves -----

  /** The leaves of an error, depth first. */
  ghost function Leaves(err: ValidationError): seq<ValidationError>
    decreases err, 1
  {
    if err.causes == [] then [err] else LeavesFrom(err, |err.causes|)
  }

  ghost function LeavesFrom(err: ValidationError, n: nat): seq<ValidationError>
    requires n <= |err.causes|
    decreases err, 0, n
  {
    if n == 0 then [] else LeavesFrom(err, n - 1) + Leaves(err.causes[n - 1])
  }

  /**
   Collects the leaves, sorting at every level on the way up. The result is one stable sort of the
   depth-first leaves: the sorts below the top change nothing, and no leaf is lost or repeated.
   */
  method ValidationLeaves(err: ValidationError) returns (leaves: seq<ValidationError>)
    ensures leaves == StableSorted(Leaves(err))
    ensures multiset(leaves) == multiset(Leaves(err))
    decreases err
  {
    hide StableSorted;
    StableSortedIsStable(Leaves(err));
    if |err.causes| == 0 {
      OneIsSorted(err);
      return [err];
    }
    leaves := [];
    for i := 0 to |err.causes|
      invariant StablyEqual(leaves, LeavesFrom(err, i))
    {
      var below := ValidationLeaves(err.causes[i]);
      StableSortedIsStable(Leaves(err.causes[i]));
      StablyEqualConcat(leaves, LeavesFrom(err, i), below, Leaves(err.causes[i]));
      leaves := leaves + below;
    }
    var a := new ValidationError[|leaves|](i requires 0 <= i < |leaves| => leaves[i]);
    assert a[..] == leaves;
    SortSliceStable(a);
    StableSortedIsStable(leaves);
    StableSortUnique(StableSorted(leaves), StableSorted(Leaves(err)));
    leaves := a[..];
  }

  lemma OneIsSorted(err: ValidationError)
    ensures StableSorted([err]) == [err]
  {
    assert [err][1..] == [];
  }

  /** Only errors without causes are reported. */
  lemma {:induction false} LeavesAreLeaves(err: ValidationError)
    ensures forall leaf :: leaf in Leaves(err) ==> leaf.causes == []
    decreases err, 1
  {
    if err.causes != [] { LeavesFromAreLeaves(err, |err.causes|); }
  }

  lemma {:induction false} LeavesFromAreLeaves(err: ValidationError, n: nat)
    requires n <= |err.causes|
    ensures forall leaf :: leaf in LeavesFrom(err, n) ==> leaf.causes == []
    decreases err, 0, n
  {
    if n > 0 {
      LeavesFromAreLeaves(err, n - 1);
      LeavesAreLeaves(err.causes[n - 1]);
    }
  }

  // ----- Every leaf, once -----

  /** The error that a chain of causes leads to. */
  function ErrorAt(err: ValidationError, chain: seq<nat>): Option<ValidationError>
    decreases |chain|
  {
    if chain == [] then Some(err)
    else if chain[0] < |err.causes| then ErrorAt(err.causes[chain[0]], chain[1..])
    else None
  }

  /** The chain leads to an error without causes. */
  predicate LeadsToLeaf(err: ValidationError, chain: seq<nat>) {
    ErrorAt(err, chain).Some? && ErrorAt(err, chain).value.causes == []
  }

  /** Depth first: where two chains part, the one with the earlier cause comes first. */
  predicate ChainBefore(a: seq<nat>, b: seq<nat>) {
    a != [] && b != [] && (a[0] < b[0] || (a[0] == b[0] && ChainBefore(a[1..], b[1..])))
  }

  ghost predicate ChainsAscend(chains: seq<seq<nat>>) {
    forall i, j :: 0 <= i < j < |chains| ==> ChainBefore(chains[i], chains[j])
  }

  /** The errors are those that the chains lead to, one by one. */
  ghost predicate Reaches(err: ValidationError, chains: seq<seq<nat>>, leaves: seq<ValidationError>) {
    |chains| == |leaves| && forall k :: 0 <= k < |chains| ==> ErrorAt(err, chains[k]) == Some(leaves[k])
  }

  ghost function Below(n: nat, chains: seq<seq<nat>>): (c: seq<seq<nat>>)
    ensures |c| == |chains| && forall k :: 0 <= k < |c| ==> c[k] == [n] + chains[k]
  {
    seq(|chains|, k requires 0 <= k < |chains| => [n] + chains[k])
  }

  lemma BelowReaches(err: ValidationError, n: nat, chains: seq<seq<nat>>, leaves: seq<ValidationError>)
    requires n < |err.causes| && Reaches(err.causes[n], chains, leaves) && ChainsAscend(chains)
    ensures Reaches(err, Below(n, chains), leaves) && ChainsAscend(Below(n, chains))
  {
    var c := Below(n, chains);
    forall k | 0 <= k < |c| ensures ErrorAt(err, c[k]) == Some(leaves[k]) {
      assert c[k][1..] == chains[k];
    }
    forall i, j | 0 <= i < j < |c| ensures ChainBefore(c[i], c[j]) {
      assert c[i][1..] == chains[i] && c[j][1..] == chains[j];
    }
  }

  lemma ReachesConcat(err: ValidationError, a: seq<seq<nat>>, x: seq<ValidationError>,
                      b: seq<seq<nat>>, y: seq<ValidationError>, n: nat)
    requires Reaches(err, a, x) && Reaches(err, b, y) && ChainsAscend(a) && ChainsAscend(b)
    requires forall c :: c in a ==> c != [] && c[0] < n
    requires forall c :: c in b ==> c != [] && c[0] == n
    ensures Reaches(err, a + b, x + y) && ChainsAscend(a + b)
  {
    var all := a + b;
    forall i, j | 0 <= i < j < |all| ensures ChainBefore(all[i], all[j]) {
      if i < |a| <= j { assert all[i] in a && all[j] in b; }
    }
  }

  /**
   The leaves that are collected are reached by exactly the chains of causes that end in an error without
   causes: one leaf for every such chain, in depth-first order.
   */
  lemma {:induction false} LeavesReached(err: ValidationError) returns (chains: seq<seq<nat>>)
    ensures Reaches(err, chains, Leaves(err)) && ChainsAscend(chains)
    ensures forall chain :: chain in chains <==> LeadsToLeaf(err, chain)
    decreases err, 1
  {
    if err.causes == [] {
      chains := [[]];
      forall chain ensures chain in chains <==> LeadsToLeaf(err, chain) {}
    } else {
      hide ChainsAscend, Reaches;
      chains := LeavesFromReached(err, |err.causes|);
      forall chain ensures chain in chains <==> LeadsToLeaf(err, chain) {}
    }
  }

  lemma {:induction false} LeavesFromReached(err: ValidationError, n: nat) returns (chains: seq<seq<nat>>)
    requires n <= |err.causes|
    ensures Reaches(err, chains, LeavesFrom(err, n)) && ChainsAscend(chains)
    ensures forall chain :: chain in chains <==> chain != [] && chain[0] < n && LeadsToLeaf(err, chain)
    decreases err, 0, n
  {
    if n == 0 {
      chains := [];
    } else {
      hide ChainsAscend, Reaches, Leaves;
      var before := LeavesFromReached(err, n - 1);
      var own := LeavesReached(err.causes[n - 1]);
      var below := Below(n - 1, own);
      BelowReaches(err, n - 1, own, Leaves(err.causes[n - 1]));
      forall chain ensures chain in below <==> chain != [] && chain[0] == n - 1 && LeadsToLeaf(err, chain) {
        BelowLeads(err, n - 1, own, chain);
      }
      ReachesConcat(err, before, LeavesFrom(err, n - 1), below, Leaves(err.causes[n - 1]), n - 1);
      chains := before + below;
    }
  }

  lemma BelowLeads(err: ValidationError, n: nat, own: seq<seq<nat>>, chain: seq<nat>)
    requires n < |err.causes| && forall c :: c in own <==> LeadsToLeaf(err.causes[n], c)
    ensures chain in Below(n, own) <==> chain != [] && chain[0] == n && LeadsToLeaf(err, chain)
  {
    var below := Below(n, own);
    if chain in below {
      var k :| 0 <= k < |below| && below[k] == chain;
      assert chain[1..] == own[k] && own[k] in own;
    }
    if chain != [] && chain[0] == n && LeadsToLeaf(err, chain) {
      assert chain[1..] in own;
      var k :| 0 <= k < |own| && own[k] == chain[1..];
      assert chain == [n] + chain[1..] == below[k];
    }
  }

  /** Errors come by instance location and, at the same one, by keyword location, as bytes compare. */
  predicate InPlaceOrder(a: ValidationError, b: ValidationError) {
    || Less(a.instanceLocation, b.instanceLocation)
    || (a.instanceLocation == b.instanceLocation && !Less(b.keywordLocation, a.keywordLocation))
  }

  /** What is reported is in that order, and nothing is lost or repeated. */
  lemma ReportedInOrder(s: seq<ValidationError>)
    ensures multiset(StableSorted(s)) == multiset(s)
    ensures forall i, j :: 0 <= i < j < |StableSorted(s)| ==> InPlaceOrder(StableSorted(s)[i], StableSorted(s)[j])
  {
    hide StableSorted;
    StableSortedIsStable(s);
    forall i, j | 0 <= i < j < |StableSorted(s)| ensures InPlaceOrder(StableSorted(s)[i], StableSorted(s)[j]) {
      var a, b := StableSorted(s)[i], StableSorted(s)[j];
      assert !Before(b, a);
      LessIsTotal(a.instanceLocation, b.instanceLocation);
    }
  }
}
