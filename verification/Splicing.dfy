/**
 One string, many requested replacements: the order they are sorted into, the greedy choice
 of those that apply, and the splicing of the chosen ones into the string.
 */
module Splicing {
  import opened Common
  import opened Text

  datatype Replacement = Replacement(path: string, value: string, start: int, end: int)

  /** A span that does not run backwards. Every producer of replacements guarantees this. */
  predicate Forward(r: Replacement) {
    r.start <= r.end
  }

  ghost predicate AllForward(items: seq<Replacement>) {
    forall r :: r in items ==> Forward(r)
  }

  predicate InRange(r: Replacement, n: nat) {
    0 <= r.start && r.end <= n
  }

  // ----- Sorting -----

  /** The comparator: earlier start first, then later end, then smaller value. */
  predicate Before(a: Replacement, b: Replacement) {
    if a.start == b.start then
      if a.end == b.end then Less(a.value, b.value) else a.end > b.end
    else a.start < b.start
  }

  lemma BeforeIsTransitive(a: Replacement, b: Replacement, c: Replacement)
    requires !Before(b, a) && !Before(c, b)
    ensures !Before(c, a)
  {
    if a.start == b.start == c.start && a.end == b.end == c.end && Less(c.value, a.value) {
      LessIsTotal(a.value, b.value);
      LessIsTotal(b.value, c.value);
      if a.value != b.value && b.value != c.value {
        LessIsTransitive(a.value, b.value, c.value);
        LessIsStrict(a.value, c.value);
      }
    }
  }

  /** The comparator ties only items that agree on all three of its keys. */
  lemma TiedIsEqual(a: Replacement, b: Replacement)
    requires a.path == b.path && !Before(a, b) && !Before(b, a)
    ensures a == b
  {
    LessIsTotal(a.value, b.value);
  }

  ghost predicate Sorted(s: seq<Replacement>) {
    forall i, j :: 0 <= i < j < |s| ==> !Before(s[j], s[i])
  }

  ghost predicate OnePath(s: seq<Replacement>) {
    forall a, b :: a in s && b in s ==> a.path == b.path
  }

  lemma FirstIsLeast(s: seq<Replacement>, r: Replacement)
    requires Sorted(s) && r in s
    ensures r == s[0] || !Before(r, s[0])
  {
    var i :| 0 <= i < |s| && s[i] == r;
  }

  lemma SameRest<T>(a: seq<T>, b: seq<T>)
    requires a != [] && b != [] && a[0] == b[0] && multiset(a) == multiset(b)
    ensures multiset(a[1..]) == multiset(b[1..])
  {
    assert a == [a[0]] + a[1..] && b == [b[0]] + b[1..];
    assert multiset(a[1..]) == multiset(a) - multiset{a[0]};
  }

  lemma SameElements<T>(a: seq<T>, b: seq<T>)
    requires multiset(a) == multiset(b)
    ensures |a| == |b| && forall x :: x in a <==> x in b
  {
    assert |a| == |multiset(a)| == |multiset(b)| == |b|;
    assert forall x :: x in a <==> x in multiset(a);
  }

  /** Within one path there is only one sorted order, so an unstable sort is deterministic. */
  lemma {:induction false} SortedIsUnique(a: seq<Replacement>, b: seq<Replacement>)
    requires OnePath(a) && Sorted(a) && Sorted(b) && multiset(a) == multiset(b)
    ensures a == b
  {
    SameElements(a, b);
    if a != [] {
      FirstIsLeast(a, b[0]);
      FirstIsLeast(b, a[0]);
      if a[0] != b[0] { TiedIsEqual(a[0], b[0]); }
      SameRest(a, b);
      SortedIsUnique(a[1..], b[1..]);
      assert a == [a[0]] + a[1..] && b == [b[0]] + b[1..];
    }
  }

  ghost function Insert(r: Replacement, s: seq<Replacement>): seq<Replacement> {
    if s == [] || !Before(s[0], r) then [r] + s else [s[0]] + Insert(r, s[1..])
  }

  lemma {:induction false} InsertSorts(r: Replacement, s: seq<Replacement>)
    requires Sorted(s)
    ensures Sorted(Insert(r, s)) && multiset(Insert(r, s)) == multiset(s) + multiset{r}
  {
    hide Before;
    if s == [] {
    } else if !Before(s[0], r) {
      forall i | 0 <= i < |s| ensures !Before(s[i], r) {
        if 0 < i { BeforeIsTransitive(r, s[0], s[i]); }
      }
    } else {
      var t := Insert(r, s[1..]);
      InsertSorts(r, s[1..]);
      assert s == [s[0]] + s[1..];
      BeforeIsAsymmetric(s[0], r);
      InsertedAfter(s[0], t, r, s[1..]);
    }
  }

  lemma InsertedAfter(first: Replacement, t: seq<Replacement>, r: Replacement, rest: seq<Replacement>)
    requires Sorted(t) && multiset(t) == multiset(rest) + multiset{r}
    requires !Before(r, first) && forall x :: x in rest ==> !Before(x, first)
    ensures Sorted([first] + t)
  {
    hide Before;
    var all := [first] + t;
    forall i, j | 0 <= i < j < |all| ensures !Before(all[j], all[i]) {
      assert all[j] == t[j - 1] && t[j - 1] in multiset(t);
    }
  }

  lemma BeforeIsAsymmetric(a: Replacement, b: Replacement)
    requires Before(a, b)
    ensures !Before(b, a)
  {
    if a.start == b.start && a.end == b.end { LessIsStrict(a.value, b.value); }
  }

  /** The items in sorted order. */
  ghost function InOrder(items: seq<Replacement>): (s: seq<Replacement>)
    ensures Sorted(s) && multiset(s) == multiset(items)
  {
    if items == [] then []
    else
      assert items == [items[0]] + items[1..];
      InsertSorts(items[0], InOrder(items[1..]));
      Insert(items[0], InOrder(items[1..]))
  }

  /** The first items are in order but for the one at `j`, which may still have to move down. */
  ghost predicate Sinking(s: seq<Replacement>, i: nat, j: nat) {
    j <= i < |s| && forall x, y :: 0 <= x < y <= i && y != j ==> !Before(s[y], s[x])
  }

  lemma SinkStarts(s: seq<Replacement>, i: nat)
    requires i < |s| && Sorted(s[..i])
    ensures Sinking(s, i, i)
  {
    hide Before;
    forall x, y | 0 <= x < y < i ensures !Before(s[y], s[x]) {
      assert s[..i][x] == s[x] && s[..i][y] == s[y];
    }
  }

  lemma SinkStep(s: seq<Replacement>, i: nat, j: nat)
    requires Sinking(s, i, j) && j > 0 && Before(s[j], s[j - 1])
    ensures var t := s[j - 1 := s[j]][j := s[j - 1]];
            Sinking(t, i, j - 1) && multiset(t) == multiset(s)
  {
    hide Before;
    BeforeIsAsymmetric(s[j], s[j - 1]);
  }

  lemma Sunk(s: seq<Replacement>, i: nat, j: nat)
    requires Sinking(s, i, j) && (j == 0 || !Before(s[j], s[j - 1]))
    ensures Sorted(s[..i + 1])
  {
    hide Before;
    forall x | 0 <= x < j ensures !Before(s[j], s[x]) {
      if x < j - 1 { BeforeIsTransitive(s[x], s[j - 1], s[j]); }
    }
  }

  /** Exchanges item `j` with the one before it. */
  method SwapBack(a: array<Replacement>, j: nat)
    requires 0 < j < a.Length
    modifies a
    ensures a[..] == old(a[..])[j - 1 := old(a[j])][j := old(a[j - 1])]
  {
    a[j], a[j - 1] := a[j - 1], a[j];
  }

  /** Moves item `i` down to its place among the sorted items before it. */
  method SiftDown(a: array<Replacement>, i: nat)
    requires i < a.Length && Sorted(a[..i])
    modifies a
    ensures Sorted(a[..i + 1]) && multiset(a[..]) == old(multiset(a[..]))
  {
    hide Before, Sinking, Sorted;
    var j := i;
    ghost var s := a[..];
    ghost var all := multiset(s);
    assert s[..i] == a[..i];
    SinkStarts(s, i);
    while j > 0 && Before(a[j], a[j - 1])
      invariant 0 <= j <= i && s == a[..] && Sinking(s, i, j) && multiset(s) == all
    {
      SinkStep(s, i, j);
      SwapBack(a, j);
      s, j := a[..], j - 1;
    }
    Sunk(s, i, j);
    assert s[..i + 1] == a[..i + 1];
  }

  /** The library's in-place sort: some sorted rearrangement, with no promise about ties. */
  method SortSlice(a: array<Replacement>)
    modifies a
    ensures Sorted(a[..]) && multiset(a[..]) == old(multiset(a[..]))
  {
    hide Sorted;
    assert Sorted(a[..0]) by { NothingIsSorted(); assert a[..0] == []; }
    for i := 0 to a.Length
      invariant Sorted(a[..i])
      invariant multiset(a[..]) == old(multiset(a[..]))
    {
      SiftDown(a, i);
    }
    assert a[..] == a[..a.Length];
  }

  lemma NothingIsSorted()
    ensures Sorted([])
  {
  }

  // ----- Choosing -----

  /** Scans the sorted items, dropping any that is out of range or starts inside the last one kept. */
  function Select(s: seq<Replacement>, n: nat, lastEnd: int): seq<Replacement> {
    if s == [] then []
    else if s[0].start < 0 || s[0].end > n || s[0].start < lastEnd then Select(s[1..], n, lastEnd)
    else [s[0]] + Select(s[1..], n, s[0].end)
  }

  /** The replacements that apply to a string of length `n`, in order. */
  ghost function Selected(items: seq<Replacement>, n: nat): seq<Replacement> {
    Select(InOrder(items), n, -1)
  }

  /** Spans that follow one another from `from` to at most `n` without overlapping. */
  ghost predicate Chained(sel: seq<Replacement>, from: int, n: nat) {
    if sel == [] then from <= n
    else from <= sel[0].start <= sel[0].end <= n && Chained(sel[1..], sel[0].end, n)
  }

  lemma {:induction false} SelectChained(s: seq<Replacement>, n: nat, lastEnd: int)
    requires AllForward(s) && lastEnd <= n
    ensures var sel := Select(s, n, lastEnd);
            && Chained(sel, lastEnd, n) && (sel != [] ==> 0 <= sel[0].start)
            && forall r :: r in sel ==> r in s && InRange(r, n)
  {
    if s != [] {
      assert Forward(s[0]);
      assert forall r :: r in s[1..] ==> r in s;
      SelectChained(s[1..], n, if s[0].start < 0 || s[0].end > n || s[0].start < lastEnd then lastEnd else s[0].end);
    }
  }

  lemma SelectedChained(items: seq<Replacement>, n: nat)
    requires AllForward(items)
    ensures Chained(Selected(items, n), 0, n)
    ensures forall r :: r in Selected(items, n) ==> r in items && InRange(r, n)
  {
    var s := InOrder(items);
    assert forall r :: r in s ==> r in multiset(s);
    SelectChained(s, n, -1);
  }

  /** Chained spans are in ascending order and pairwise disjoint. */
  lemma {:induction false} ChainedApart(sel: seq<Replacement>, from: int, n: nat, i: nat, j: nat)
    requires Chained(sel, from, n) && i < j < |sel|
    ensures from <= sel[i].start <= sel[i].end <= sel[j].start <= sel[j].end <= n
  {
    if i > 0 {
      ChainedApart(sel[1..], sel[0].end, n, i - 1, j - 1);
    } else if j > 1 {
      ChainedApart(sel[1..], sel[0].end, n, 0, j - 1);
    } else {
      assert sel[1..][0] == sel[1];
    }
  }

  /** `b` keeps `r` out: it starts no later and reaches past the start of `r`; on a tie it is the longer one. */
  ghost predicate Blocks(b: Replacement, r: Replacement) {
    b.start <= r.start < b.end && (b.start == r.start ==> r.end <= b.end)
  }

  lemma {:induction false} SelectBlocks(s: seq<Replacement>, n: nat, lastEnd: int, last: Replacement, r: Replacement)
    requires Sorted(s) && AllForward(s) && r in s && InRange(r, n)
    requires lastEnd >= 0 ==> lastEnd == last.end && forall x :: x in s ==> !Before(x, last)
    ensures var sel := Select(s, n, lastEnd);
            r in sel || (lastEnd >= 0 && Blocks(last, r)) || exists b :: b in sel && Blocks(b, r)
  {
    var rest := s[1..];
    assert forall x :: x in rest ==> x in s;
    if s[0].start < 0 || s[0].end > n || s[0].start < lastEnd {
      if r in rest {
        SelectBlocks(rest, n, lastEnd, last, r);
      } else {
        assert r == s[0];
        assert Blocks(last, r);
      }
    } else {
      var sel := Select(rest, n, s[0].end);
      assert Select(s, n, lastEnd) == [s[0]] + sel;
      if r in rest {
        assert Forward(s[0]);
        SelectBlocks(rest, n, s[0].end, s[0], r);
        assert s[0] in Select(s, n, lastEnd);
        assert forall x :: x in sel ==> x in Select(s, n, lastEnd);
      }
    }
  }

  ghost predicate CoveredBy(sel: seq<Replacement>, k: int) {
    exists b :: b in sel && b.start <= k < b.end
  }

  /**
   What the greedy choice guarantees, whatever order the items arrive in: every chosen item was
   asked for; every in-range item is chosen or kept out by a chosen one that starts no later;
   and so the first byte of every in-range, non-empty span lies inside a chosen span.
   */
  lemma GreedyCoverage(items: seq<Replacement>, n: nat, r: Replacement)
    requires AllForward(items) && r in items && InRange(r, n)
    ensures var sel := Selected(items, n);
            && (r in sel || exists b :: b in sel && b in items && Blocks(b, r))
            && (r.start < r.end ==> CoveredBy(sel, r.start))
  {
    var s := InOrder(items);
    assert r in multiset(s);
    assert AllForward(s) by { assert forall x :: x in s ==> x in multiset(s); }
    SelectBlocks(s, n, -1, r, r);
    SelectedChained(items, n);
  }

  /** Among items with the same span the one that wins has the smallest value. */
  lemma {:induction false} SmallestValueWins(s: seq<Replacement>, n: nat, lastEnd: int, b: Replacement, r: Replacement)
    requires Sorted(s) && AllForward(s) && b in Select(s, n, lastEnd) && r in s
    requires b.start == r.start < r.end == b.end && b != r && b.path == r.path
    ensures Less(b.value, r.value)
  {
    var rest := s[1..];
    if s[0].start < 0 || s[0].end > n || s[0].start < lastEnd {
      if r in rest {
        SmallestValueWins(rest, n, lastEnd, b, r);
      } else {
        SelectStartsLate(rest, n, lastEnd, b);
        assert false;
      }
    } else if b == s[0] {
      assert !Before(r, b) by { var i :| 0 <= i < |s| && s[i] == r; }
      LessIsTotal(b.value, r.value);
    } else {
      SelectStartsLate(rest, n, s[0].end, b);
      assert r in rest;
      SmallestValueWins(rest, n, s[0].end, b, r);
    }
  }

  lemma {:induction false} SelectStartsLate(s: seq<Replacement>, n: nat, lastEnd: int, b: Replacement)
    requires AllForward(s) && b in Select(s, n, lastEnd)
    ensures lastEnd <= b.start && b in s && InRange(b, n)
  {
    if s[0].start < 0 || s[0].end > n || s[0].start < lastEnd {
      SelectStartsLate(s[1..], n, lastEnd, b);
    } else if b != s[0] {
      assert Forward(s[0]);
      SelectStartsLate(s[1..], n, s[0].end, b);
    }
  }

  // ----- Splicing -----

  /** Gap, value, gap, value, ..., tail: what splicing the chosen spans must give. */
  function Weave(text: string, sel: seq<Replacement>, from: nat): string
    requires Chained(sel, from, |text|)
  {
    if sel == [] then text[from..]
    else text[from..sel[0].start] + sel[0].value + Weave(text, sel[1..], sel[0].end)
  }

  /** Where the chosen spans before the `i`-th one end. */
  function EndBefore(sel: seq<Replacement>, i: nat): int
    requires i <= |sel|
  {
    if i == 0 then 0 else sel[i - 1].end
  }

  lemma {:induction false} ChainedFrom(sel: seq<Replacement>, from: int, n: nat, i: nat)
    requires Chained(sel, from, n) && 0 < i <= |sel|
    ensures from <= sel[i - 1].end <= n && Chained(sel[i..], sel[i - 1].end, n)
  {
    if i > 1 {
      ChainedFrom(sel[1..], sel[0].end, n, i - 1);
      assert sel[1..][i - 1..] == sel[i..];
    }
  }

  lemma WeaveStep(text: string, item: Replacement, rest: seq<Replacement>, from: nat)
    requires Chained([item] + rest, from, |text|)
    ensures from <= item.start <= item.end <= |text| && Chained(rest, item.end, |text|)
    ensures text[..from] + Weave(text, [item] + rest, from)
         == text[..item.start] + item.value + Weave(text, rest, item.end)
  {
    assert ([item] + rest)[1..] == rest;
    var gap, woven := text[from..item.start], Weave(text, rest, item.end);
    assert Weave(text, [item] + rest, from) == gap + item.value + woven;
    assert text[..from] + gap == text[..item.start];
    assert text[..from] + (gap + item.value + woven) == text[..from] + gap + item.value + woven;
  }

  /** Splicing in the last unspliced span turns "woven from its end on" into "woven from the one before it on". */
  lemma SpliceOne(text: string, sel: seq<Replacement>, i: nat)
    requires i < |sel| && Chained(sel, 0, |text|)
    ensures 0 <= EndBefore(sel, i) <= sel[i].start <= sel[i].end <= |text|
    ensures Chained(sel[i..], EndBefore(sel, i), |text|) && Chained(sel[i + 1..], sel[i].end, |text|)
    ensures text[..EndBefore(sel, i)] + Weave(text, sel[i..], EndBefore(sel, i))
         == text[..sel[i].start] + sel[i].value + Weave(text, sel[i + 1..], sel[i].end)
  {
    if i > 0 { ChainedFrom(sel, 0, |text|, i); }
    assert sel[0..] == sel;
    assert sel[i..] == [sel[i]] + sel[i + 1..];
    WeaveStep(text, sel[i], sel[i + 1..], EndBefore(sel, i));
  }

  /** The offsets of a span are in range of a string; slicing at others stops the program. */
  predicate CanSplice(value: string, item: Replacement) {
    0 <= item.start <= |value| && 0 <= item.end <= |value|
  }

  /** The spans spliced in from the last to the first, or nothing when the program stops on the way. */
  function Spliced(value: string, sel: seq<Replacement>): Option<string>
    decreases |sel|
  {
    if sel == [] then Some(value)
    else
      var item := sel[|sel| - 1];
      if CanSplice(value, item)
      then Spliced(value[..item.start] + item.value + value[item.end..], sel[..|sel| - 1]) else None
  }

  /** Splices the chosen spans into the string from right to left, so earlier offsets stay good. */
  method SpliceRightToLeft(text: string, selected: seq<Replacement>) returns (result: Option<string>)
    ensures result == Spliced(text, selected)
  {
    var value := text;
    var i := |selected|;
    assert selected[..|selected|] == selected;
    while i > 0
      invariant 0 <= i <= |selected|
      invariant Spliced(value, selected[..i]) == Spliced(text, selected)
    {
      i := i - 1;
      var item := selected[i];
      assert selected[..i + 1][..i] == selected[..i];
      if !CanSplice(value, item) {
        return None;
      }
      value := value[..item.start] + item.value + value[item.end..];
    }
    result := Some(value);
  }

  /**
   On chosen spans that run forward the backward splicing never stops, and it gives what reading from the left
   would: gap, value, gap, value, ..., tail.
   */
  lemma SplicedIsWoven(text: string, sel: seq<Replacement>)
    requires Chained(sel, 0, |text|)
    ensures Spliced(text, sel) == Some(Weave(text, sel, 0))
  {
    if sel != [] { ChainedFrom(sel, 0, |text|, |sel|); }
    assert sel[..|sel|] == sel && sel[|sel|..] == [];
    var last := EndBefore(sel, |sel|);
    assert text == text[..last] + Weave(text, [], last);
    SplicedFrom(text, sel, |sel|, text);
  }

  lemma {:induction false} SplicedFrom(text: string, sel: seq<Replacement>, i: nat, value: string)
    requires i <= |sel| && Chained(sel, 0, |text|)
    requires 0 <= EndBefore(sel, i) <= |text| && Chained(sel[i..], EndBefore(sel, i), |text|)
    requires value == text[..EndBefore(sel, i)] + Weave(text, sel[i..], EndBefore(sel, i))
    ensures Spliced(value, sel[..i]) == Some(Weave(text, sel, 0))
  {
    if i == 0 {
      assert sel[0..] == sel && sel[..0] == [] && text[..0] == "";
      assert value == Weave(text, sel, 0);
    } else {
      var item := sel[i - 1];
      SpliceOne(text, sel, i - 1);
      assert value[item.end..] == Weave(text, sel[i..], item.end);
      assert value[..item.start] == text[..item.start];
      assert sel[..i][..i - 1] == sel[..i - 1];
      SplicedFrom(text, sel, i - 1, value[..item.start] + item.value + value[item.end..]);
    }
  }

  /** The bytes of the string outside the chosen spans, in order. */
  ghost function Survivors(text: string, sel: seq<Replacement>, k: nat): string
    requires k <= |text|
    decreases |text| - k
  {
    if k == |text| then ""
    else if CoveredBy(sel, k) then Survivors(text, sel, k + 1)
    else [text[k]] + Survivors(text, sel, k + 1)
  }

  ghost function Emptied(sel: seq<Replacement>): (e: seq<Replacement>)
    ensures |e| == |sel|
    ensures forall i :: 0 <= i < |sel| ==> e[i] == sel[i].(value := "")
  {
    seq(|sel|, i requires 0 <= i < |sel| => sel[i].(value := ""))
  }

  lemma SurvivorsEnd(text: string, sel: seq<Replacement>)
    ensures Survivors(text, sel, |text|) == ""
  {
  }

  lemma NothingCovers()
    ensures forall k :: !CoveredBy([], k)
  {
  }

  lemma ByteSurvives(text: string, sel: seq<Replacement>, k: nat)
    requires k < |text| && !CoveredBy(sel, k)
    ensures Survivors(text, sel, k) == [text[k]] + Survivors(text, sel, k + 1)
  {
  }

  /** Bytes before the first chosen span are kept as they are. */
  lemma {:induction false} SurvivorsBefore(text: string, sel: seq<Replacement>, k: nat, stop: nat)
    requires k <= stop <= |text| && forall j :: k <= j < stop ==> !CoveredBy(sel, j)
    ensures Survivors(text, sel, k) == text[k..stop] + Survivors(text, sel, stop)
    decreases stop - k
  {
    hide CoveredBy, Survivors;
    if k == stop {
      assert text[k..stop] == "";
    } else {
      ByteSurvives(text, sel, k);
      SurvivorsBefore(text, sel, k + 1, stop);
      var gap, tail := text[k + 1..stop], Survivors(text, sel, stop);
      assert Survivors(text, sel, k) == [text[k]] + (gap + tail);
      assert text[k..stop] == [text[k]] + gap;
      assert [text[k]] + (gap + tail) == [text[k]] + gap + tail;
    }
  }

  lemma {:induction false} SurvivorsInside(text: string, sel: seq<Replacement>, k: nat, stop: nat)
    requires k <= stop <= |text| && forall j :: k <= j < stop ==> CoveredBy(sel, j)
    ensures Survivors(text, sel, k) == Survivors(text, sel, stop)
    decreases stop - k
  {
    hide CoveredBy;
    if k < stop { SurvivorsInside(text, sel, k + 1, stop); }
  }

  lemma {:induction false} ChainedCovers(sel: seq<Replacement>, from: int, n: nat, k: int)
    requires Chained(sel, from, n) && CoveredBy(sel, k)
    ensures from <= k < n && sel[0].start <= k && (k < sel[0].end || CoveredBy(sel[1..], k))
  {
    var b :| b in sel && b.start <= k < b.end;
    if b != sel[0] {
      assert b in sel[1..];
      ChainedCovers(sel[1..], sel[0].end, n, k);
    } else {
      ChainedBounds(sel, from, n);
    }
  }

  lemma {:induction false} ChainedBounds(sel: seq<Replacement>, from: int, n: nat)
    requires Chained(sel, from, n)
    ensures from <= n
  {
    if sel != [] { ChainedBounds(sel[1..], sel[0].end, n); }
  }

  lemma {:induction false} SurvivorsLater(text: string, sel: seq<Replacement>, rest: seq<Replacement>, k: nat)
    requires k <= |text| && forall j :: k <= j < |text| ==> (CoveredBy(sel, j) <==> CoveredBy(rest, j))
    ensures Survivors(text, sel, k) == Survivors(text, rest, k)
    decreases |text| - k
  {
    hide CoveredBy;
    if k < |text| { SurvivorsLater(text, sel, rest, k + 1); }
  }

  /** What survives a chain of spans: the gap before the first, then what survives the rest. */
  lemma SurvivorsStep(text: string, sel: seq<Replacement>, from: nat)
    requires sel != [] && Chained(sel, from, |text|) && sel[0].end <= |text|
    ensures Survivors(text, sel, from) == text[from..sel[0].start] + Survivors(text, sel[1..], sel[0].end)
  {
    hide Survivors, Chained;
    assert from <= sel[0].start <= sel[0].end by { ChainedFirst(sel, from, |text|); }
    var rest, s := sel[1..], sel[0];
    forall j ensures from <= j < s.start ==> !CoveredBy(sel, j) {
      if CoveredBy(sel, j) { ChainedCovers(sel, from, |text|, j); }
    }
    SurvivorsBefore(text, sel, from, s.start);
    forall j ensures s.start <= j < s.end ==> CoveredBy(sel, j) {
      assert s in sel;
    }
    SurvivorsInside(text, sel, s.start, s.end);
    forall j ensures s.end <= j ==> (CoveredBy(sel, j) <==> CoveredBy(rest, j)) {
      if CoveredBy(sel, j) { ChainedCovers(sel, from, |text|, j); }
      assert forall b :: b in rest ==> b in sel;
    }
    SurvivorsLater(text, sel, rest, s.end);
  }

  lemma ChainedFirst(sel: seq<Replacement>, from: int, n: nat)
    requires sel != [] && Chained(sel, from, n)
    ensures from <= sel[0].start <= sel[0].end <= n
  {
  }

  /**
   With the inserted values taken away, the result is exactly the bytes outside the chosen spans,
   in their old order: nothing else is lost and nothing else survives.
   */
  lemma {:induction false} OutsideBytesSurvive(text: string, sel: seq<Replacement>, from: nat)
    requires Chained(sel, from, |text|)
    ensures Chained(Emptied(sel), from, |text|)
    ensures Weave(text, Emptied(sel), from) == Survivors(text, sel, from)
  {
    hide Survivors, CoveredBy;
    if sel == [] {
      NothingCovers();
      SurvivorsBefore(text, sel, from, |text|);
      SurvivorsEnd(text, sel);
      assert Emptied(sel) == [];
    } else {
      var e, rest := Emptied(sel), Emptied(sel[1..]);
      OutsideBytesSurvive(text, sel[1..], sel[0].end);
      assert e[1..] == rest;
      assert Weave(text, e, from) == text[from..sel[0].start] + "" + Weave(text, rest, sel[0].end);
      SurvivorsStep(text, sel, from);
    }
  }

  function Removed(sel: seq<Replacement>): int {
    if sel == [] then 0 else sel[0].end - sel[0].start + Removed(sel[1..])
  }

  function Inserted(sel: seq<Replacement>): nat {
    if sel == [] then 0 else |sel[0].value| + Inserted(sel[1..])
  }

  /** The result is as long as the string, less what was cut out, plus what was put in. */
  lemma {:induction false} WeaveLength(text: string, sel: seq<Replacement>, from: nat)
    requires Chained(sel, from, |text|)
    ensures |Weave(text, sel, from)| == |text| - from - Removed(sel) + Inserted(sel)
  {
    if sel != [] { WeaveLength(text, sel[1..], sel[0].end); }
  }

  // ----- The whole rewrite of one string -----

  /** A string with the applicable ones of the requested replacements made. */
  ghost function Redacted(text: string, items: seq<Replacement>): string
    requires AllForward(items)
  {
    SelectedChained(items, |text|);
    Weave(text, Selected(items, |text|), 0)
  }

  method SelectSpans(items: seq<Replacement>, n: nat) returns (selected: seq<Replacement>)
    ensures selected == Select(items, n, -1)
  {
    selected := [];
    var lastEnd := -1;
    for i := 0 to |items|
      invariant selected + Select(items[i..], n, lastEnd) == Select(items, n, -1)
    {
      var item := items[i];
      assert items[i..][0] == item && items[i..][1..] == items[i + 1..];
      if item.start < 0 || item.end > n || item.start < lastEnd {
        continue;
      }
      selected := selected + [item];
      lastEnd := item.end;
    }
  }

  /**
   Sorts, chooses and splices: the program's `apply` for one string. For spans that run forward the result is
   the order-independent rewrite; others may repeat text or stop the program.
   */
  method Apply(text: string, items: seq<Replacement>) returns (result: Option<string>)
    requires OnePath(items)
    ensures result == Spliced(text, Selected(items, |text|))
    ensures AllForward(items) ==> result == Some(Redacted(text, items))
  {
    var a := new Replacement[|items|](i requires 0 <= i < |items| => items[i]);
    assert a[..] == items;
    SortSlice(a);
    SameElements(InOrder(items), items);
    SortedIsUnique(InOrder(items), a[..]);
    var selected := SelectSpans(a[..], |text|);
    result := SpliceRightToLeft(text, selected);
    if AllForward(items) {
      SelectedChained(items, |text|);
      SplicedIsWoven(text, selected);
    }
  }

  /** A span that runs backwards is not rejected: on "abc" it repeats text, or it stops the program. */
  lemma BackwardSpans()
    ensures Spliced("abc", Selected([Replacement("content.text", "X", 2, 0)], 3)) == Some("abXabc")
    ensures Spliced("abc", Selected([Replacement("content.text", "X", 4, 0)], 3)) == None
  {
    var a, b := Replacement("content.text", "X", 2, 0), Replacement("content.text", "X", 4, 0);
    forall r | r == a || r == b ensures Selected([r], 3) == [r] {
      assert [r][1..] == [] && InOrder([r]) == [r];
      assert Select([r], 3, -1) == [r] + Select([], 3, 0) == [r];
    }
    assert [a][..0] == [];
    assert "abc"[..2] + "X" + "abc"[0..] == "abXabc";
  }

  /** Although the sort is unstable, the result does not depend on the order the items come in. */
  lemma OrderIrrelevant(text: string, items: seq<Replacement>, permuted: seq<Replacement>)
    requires AllForward(items) && OnePath(items) && multiset(items) == multiset(permuted)
    ensures AllForward(permuted) && Redacted(text, items) == Redacted(text, permuted)
  {
    SameElements(items, permuted);
    SameElements(InOrder(items), items);
    SortedIsUnique(InOrder(items), InOrder(permuted));
  }

  /** A string stays non-empty when no replacement value is empty. */
  lemma {:induction false} WeaveNonEmpty(text: string, sel: seq<Replacement>, from: nat)
    requires Chained(sel, from, |text|) && forall r :: r in sel ==> r.value != ""
    ensures Weave(text, sel, from) == "" <==> sel == [] && from == |text|
  {
    if sel != [] { assert sel[0] in sel; }
  }

  lemma RedactedEmptiness(text: string, items: seq<Replacement>)
    requires AllForward(items) && forall r :: r in items ==> r.value != ""
    ensures text != "" ==> Redacted(text, items) != ""
  {
    SelectedChained(items, |text|);
    WeaveNonEmpty(text, Selected(items, |text|), 0);
  }

  // ----- When every matched byte goes -----

  /** Every byte of every in-range span lies inside a chosen one, so no matched byte survives. */
  ghost predicate EveryMatchedByteGoes(items: seq<Replacement>, n: nat) {
    forall k :: Matched(items, n, k) ==> CoveredBy(Selected(items, n), k)
  }

  ghost predicate Matched(items: seq<Replacement>, n: nat, k: int) {
    exists r :: r in items && InRange(r, n) && r.start <= k < r.end
  }

  /**
   One pass over the sorted spans. `lastEnd` is where the chosen ones end and `reach` how far the
   in-range ones seen so far reach: a dropped span's tail survives unless the next chosen span
   starts exactly where the last one ended.
   */
  predicate NoTailLeft(s: seq<Replacement>, n: nat, lastEnd: int, reach: int) {
    if s == [] then reach <= lastEnd
    else if s[0].start < 0 || s[0].end > n then NoTailLeft(s[1..], n, lastEnd, reach)
    else if s[0].start < lastEnd then NoTailLeft(s[1..], n, lastEnd, Max(reach, s[0].end))
    else (reach <= lastEnd || s[0].start == lastEnd) && NoTailLeft(s[1..], n, s[0].end, Max(reach, s[0].end))
  }

  ghost predicate MatchedFrom(s: seq<Replacement>, n: nat, lastEnd: int, reach: int, k: int) {
    lastEnd <= k && (k < reach || Matched(s, n, k))
  }

  lemma CoveredByFirst(first: Replacement, rest: seq<Replacement>, k: int)
    ensures CoveredBy([first] + rest, k) <==> first.start <= k < first.end || CoveredBy(rest, k)
  {
    var all := [first] + rest;
    assert all[0] == first && forall b :: b in rest ==> b in all;
  }

  ghost predicate NoneLeft(s: seq<Replacement>, n: nat, lastEnd: int, reach: int) {
    forall k :: MatchedFrom(s, n, lastEnd, reach, k) ==> CoveredBy(Select(s, n, lastEnd), k)
  }

  lemma {:induction false} NoTailLeftExact(s: seq<Replacement>, n: nat, lastEnd: int, reach: int)
    requires Sorted(s) && AllForward(s)
    ensures NoTailLeft(s, n, lastEnd, reach) <==> NoneLeft(s, n, lastEnd, reach)
  {
    hide NoneLeft, Before;
    if s == [] {
      NoneLeftNothing(n, lastEnd, reach);
    } else {
      var first, rest := s[0], s[1..];
      assert s == [first] + rest;
      assert AllForward(rest) by { assert forall r :: r in rest ==> r in s; }
      if !InRange(first, n) || first.start < lastEnd {
        NoTailLeftExact(rest, n, lastEnd, if InRange(first, n) then Max(reach, first.end) else reach);
        NoneLeftSkipped(first, rest, n, lastEnd, reach);
      } else {
        NoTailLeftExact(rest, n, first.end, Max(reach, first.end));
        NoneLeftChosen(first, rest, n, lastEnd, reach);
      }
    }
  }

  lemma NoneLeftNothing(n: nat, lastEnd: int, reach: int)
    ensures NoneLeft([], n, lastEnd, reach) <==> reach <= lastEnd
  {
    if lastEnd < reach { assert MatchedFrom([], n, lastEnd, reach, lastEnd); }
  }

  /** The step of the pass at a span that is out of range or dropped. */
  lemma NoneLeftSkipped(first: Replacement, rest: seq<Replacement>, n: nat, lastEnd: int, reach: int)
    requires InRange(first, n) ==> first.start < lastEnd
    ensures var further := if InRange(first, n) then Max(reach, first.end) else reach;
            NoneLeft([first] + rest, n, lastEnd, reach) <==> NoneLeft(rest, n, lastEnd, further)
  {
    hide CoveredBy;
    var s := [first] + rest;
    var further := if InRange(first, n) then Max(reach, first.end) else reach;
    assert s[0] == first && s[1..] == rest;
    assert Select(s, n, lastEnd) == Select(rest, n, lastEnd);
    forall k ensures MatchedFrom(s, n, lastEnd, reach, k) <==> MatchedFrom(rest, n, lastEnd, further, k) {
      MatchedByFirst(first, rest, n, k);
    }
  }

  lemma MatchedByFirst(first: Replacement, rest: seq<Replacement>, n: nat, k: int)
    ensures Matched([first] + rest, n, k)
       <==> (InRange(first, n) && first.start <= k < first.end) || Matched(rest, n, k)
  {
    var all := [first] + rest;
    assert all[0] == first && forall b :: b in rest ==> b in all;
  }

  /** The step of the pass at a span that is chosen. */
  lemma NoneLeftChosen(first: Replacement, rest: seq<Replacement>, n: nat, lastEnd: int, reach: int)
    requires Sorted([first] + rest) && AllForward([first] + rest) && InRange(first, n) && lastEnd <= first.start
    ensures NoneLeft([first] + rest, n, lastEnd, reach) <==>
            ((reach <= lastEnd || first.start == lastEnd) && NoneLeft(rest, n, first.end, Max(reach, first.end)))
  {
    var s, further := [first] + rest, Max(reach, first.end);
    var sel := Select(rest, n, first.end);
    assert s[0] == first && s[1..] == rest;
    assert Select(s, n, lastEnd) == [first] + sel;
    ChosenFirstStarts(first, rest, n);
    hide Select, CoveredBy, Matched, Before;
    forall k ensures CoveredBy([first] + sel, k) <==> first.start <= k < first.end || CoveredBy(sel, k) {
      CoveredByFirst(first, sel, k);
    }
    forall k ensures Matched(s, n, k) <==> first.start <= k < first.end || Matched(rest, n, k) {
      MatchedByFirst(first, rest, n, k);
    }
    if lastEnd < reach { assert MatchedFrom(s, n, lastEnd, reach, lastEnd); }
  }

  /** Nothing is matched before the first sorted span, and nothing later is chosen before it ends. */
  lemma ChosenFirstStarts(first: Replacement, rest: seq<Replacement>, n: nat)
    requires Sorted([first] + rest) && AllForward([first] + rest)
    ensures first.start <= first.end
    ensures forall k :: CoveredBy(Select(rest, n, first.end), k) ==> first.end <= k
    ensures forall k :: Matched(rest, n, k) ==> first.start <= k
  {
    hide Select;
    var s, sel := [first] + rest, Select(rest, n, first.end);
    assert s[0] == first && s[1..] == rest;
    assert forall r :: r in rest ==> r in s;
    assert Forward(first);
    forall k | CoveredBy(sel, k) ensures first.end <= k {
      var b :| b in sel && b.start <= k < b.end;
      SelectStartsLate(rest, n, first.end, b);
    }
    forall r | r in rest ensures first.start <= r.start { FirstIsLeast(s, r); }
  }

  /**
   Every matched byte is removed exactly when the one-pass test on the requested spans succeeds.
   */
  lemma MatchedBytesGoExactly(items: seq<Replacement>, n: nat)
    requires AllForward(items)
    ensures EveryMatchedByteGoes(items, n) <==> NoTailLeft(InOrder(items), n, -1, -1)
  {
    var s := InOrder(items);
    SameElements(s, items);
    NoTailLeftExact(s, n, -1, -1);
    forall k ensures Matched(items, n, k) <==> MatchedFrom(s, n, -1, -1, k) {
    }
  }

  ghost predicate NestedOrDisjoint(a: Replacement, b: Replacement) {
    || (a.start <= b.start && b.end <= a.end)
    || (b.start <= a.start && a.end <= b.end)
    || a.end <= b.start
    || b.end <= a.start
  }

  /** In particular no matched byte survives when the spans never overlap partially. */
  lemma NestedSpansLeaveNothing(items: seq<Replacement>, n: nat)
    requires AllForward(items)
    requires forall a, b :: a in items && b in items && InRange(a, n) && InRange(b, n) ==> NestedOrDisjoint(a, b)
    ensures EveryMatchedByteGoes(items, n)
  {
    forall k | Matched(items, n, k) ensures CoveredBy(Selected(items, n), k) {
      var r :| r in items && InRange(r, n) && r.start <= k < r.end;
      GreedyCoverage(items, n, r);
      SelectedChained(items, n);
      if r !in Selected(items, n) {
        var b :| b in Selected(items, n) && b in items && Blocks(b, r);
        assert NestedOrDisjoint(b, r);
      }
    }
  }

  lemma InOrderOfTwo(a: Replacement, b: Replacement)
    requires a.start < b.start
    ensures InOrder([b, a]) == [a, b]
  {
    assert [a][1..] == [] && [b, a][1..] == [a] && [a, b][1..] == [b];
    assert InOrder([a]) == Insert(a, []) == [a];
    assert Insert(b, [a]) == [a] + Insert(b, []) == [a, b];
  }

  lemma SelectsFirstOnly(a: Replacement, b: Replacement, n: nat)
    requires 0 <= a.start < b.start < a.end <= n
    ensures Select([a, b], n, -1) == [a]
  {
    assert [a, b][1..] == [b] && [b][1..] == [];
    assert Select([b], n, a.end) == Select([], n, a.end) == [];
    assert Select([a, b], n, -1) == [a] + Select([b], n, a.end);
  }

  lemma WeaveOfOne(text: string, a: Replacement)
    requires 0 <= a.start <= a.end <= |text|
    ensures Chained([a], 0, |text|) && Weave(text, [a], 0) == text[..a.start] + a.value + text[a.end..]
  {
    assert [a][1..] == [];
    assert text[0..a.start] == text[..a.start];
    assert Weave(text, [], a.end) == text[a.end..];
  }

  /** But a span that starts inside a chosen one is dropped whole: whatever follows the chosen one stays. */
  lemma OverlapDropsLater(text: string, a: Replacement, b: Replacement)
    requires 0 <= a.start < b.start < a.end <= |text| && b.start <= b.end
    ensures var items := [b, a];
            && AllForward(items) && Redacted(text, items) == text[..a.start] + a.value + text[a.end..]
            && (a.end < b.end <= |text| ==> !EveryMatchedByteGoes(items, |text|))
  {
    hide InOrder, Select, Weave, Chained;
    var items := [b, a];
    InOrderOfTwo(a, b);
    SelectsFirstOnly(a, b, |text|);
    WeaveOfOne(text, a);
    assert Selected(items, |text|) == [a];
    if a.end < b.end <= |text| {
      assert b in items && Matched(items, |text|, a.end);
    }
  }

  /** For instance: */
  lemma PartialOverlapLeavesTail()
    ensures var items := [Replacement("content.text", "Y", 1, 3), Replacement("content.text", "X", 0, 2)];
            AllForward(items) && Redacted("abc", items) == "Xc" && !EveryMatchedByteGoes(items, 3)
  {
    OverlapDropsLater("abc", Replacement("content.text", "X", 0, 2), Replacement("content.text", "Y", 1, 3));
    assert "abc"[..0] + "X" + "abc"[2..] == "Xc";
  }
}
