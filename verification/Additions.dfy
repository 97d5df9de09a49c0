/** What becomes of the spans that were cut out of a string when more spans are asked for. */
module Additions {
  import opened Splicing

  /** Two chosen spans that share a byte are one. */
  lemma ChosenSharingByte(items: seq<Replacement>, n: nat, a: Replacement, b: Replacement, k: int)
    requires AllForward(items) && a in Selected(items, n) && b in Selected(items, n)
    requires a.start <= k < a.end && b.start <= k < b.end
    ensures a == b
  {
    hide Selected, Chained;
    var sel := Selected(items, n);
    SelectedChained(items, n);
    var i :| 0 <= i < |sel| && sel[i] == a;
    var j :| 0 <= j < |sel| && sel[j] == b;
    if i < j { ChainedApart(sel, 0, n, i, j); }
    if j < i { ChainedApart(sel, 0, n, j, i); }
  }

  /** Every byte that was cut out is cut out with the added spans too. */
  ghost predicate CutsKept(own: seq<Replacement>, added: seq<Replacement>, n: nat) {
    forall k :: CoveredBy(Selected(own, n), k) ==> CoveredBy(Selected(own + added, n), k)
  }

  /** None of the added spans overlaps one of the old ones partially. */
  ghost predicate AddedNestedOrApart(own: seq<Replacement>, added: seq<Replacement>, n: nat) {
    forall a, b :: a in own && b in added && InRange(a, n) && InRange(b, n) ==> NestedOrDisjoint(a, b)
  }

  /** A span chosen before stays covered as a whole, even where adding spans changes which ones are chosen. */
  lemma {:induction false} ChosenStaysCovered(own: seq<Replacement>, added: seq<Replacement>, n: nat, m: Replacement)
    returns (x: Replacement)
    requires AllForward(own) && AllForward(added) && AddedNestedOrApart(own, added, n)
    requires m in Selected(own, n) && 0 <= m.start < m.end
    ensures x in Selected(own + added, n) && x.start <= m.start && m.end <= x.end
    decreases m.start
  {
    hide Selected;
    var all := own + added;
    SelectedChained(own, n);
    SelectedChained(all, n);
    GreedyCoverage(all, n, m);
    x := m;
    if m !in Selected(all, n) {
      x :| x in Selected(all, n) && x in all && Blocks(x, m);
      if x in added {
        assert NestedOrDisjoint(m, x);
      } else if x.end < m.end {
        if x in Selected(own, n) { ChosenSharingByte(own, n, x, m, m.start); }
        GreedyCoverage(own, n, x);
        var b :| b in Selected(own, n) && b in own && Blocks(b, x);
        var y := ChosenStaysCovered(own, added, n, b);
        ChosenSharingByte(all, n, x, y, x.start);
        ChosenSharingByte(own, n, b, m, m.start);
        assert false;
      }
    }
  }

  /**
   Whatever is cut out stays cut out when more spans are asked for, if the added ones never overlap the old
   ones partially, or if no matched byte of all of them together survives.
   */
  lemma AddedSpansKeepCuts(own: seq<Replacement>, added: seq<Replacement>, n: nat)
    requires AllForward(own) && AllForward(added)
    requires AddedNestedOrApart(own, added, n) || NoTailLeft(InOrder(own + added), n, -1, -1)
    ensures CutsKept(own, added, n)
  {
    hide Selected, NoTailLeft;
    var all := own + added;
    SelectedChained(own, n);
    MatchedBytesGoExactly(all, n);
    forall k | CoveredBy(Selected(own, n), k) ensures CoveredBy(Selected(all, n), k) {
      var m :| m in Selected(own, n) && m.start <= k < m.end;
      if AddedNestedOrApart(own, added, n) {
        var x := ChosenStaysCovered(own, added, n, m);
      } else {
        assert m in all && Matched(all, n, k);
      }
    }
  }

  // ----- Exactly when -----

  /** A span together with whether it was asked for before the others were added. */
  datatype Tagged = Tagged(item: Replacement, own: bool)

  ghost function Merged(own: seq<Replacement>, added: seq<Replacement>): seq<Tagged> {
    if own == [] && added == [] then []
    else if added == [] || (own != [] && !Before(added[0], own[0]))
    then [Tagged(own[0], true)] + Merged(own[1..], added)
    else [Tagged(added[0], false)] + Merged(own, added[1..])
  }

  ghost function AllOf(t: seq<Tagged>): seq<Replacement> {
    if t == [] then [] else [t[0].item] + AllOf(t[1..])
  }

  ghost function OwnOf(t: seq<Tagged>): seq<Replacement> {
    if t == [] then [] else (if t[0].own then [t[0].item] else []) + OwnOf(t[1..])
  }

  ghost predicate NoneBefore(s: seq<Replacement>, first: Replacement) {
    forall x :: x in s ==> !Before(x, first)
  }

  lemma SortedRest(s: seq<Replacement>)
    requires Sorted(s) && s != []
    ensures Sorted(s[1..]) && NoneBefore(s, s[0])
  {
    hide Before;
    if Before(s[0], s[0]) { BeforeIsAsymmetric(s[0], s[0]); }
  }

  lemma NoneBeforeEither(rest: seq<Replacement>, a: seq<Replacement>, b: seq<Replacement>, first: Replacement)
    requires multiset(rest) == multiset(a) + multiset(b) && NoneBefore(a, first) && NoneBefore(b, first)
    ensures NoneBefore(rest, first)
  {
    hide Before;
    forall x | x in rest ensures !Before(x, first) {
      assert x in multiset(rest);
    }
  }

  lemma NoneBeforeEarlier(s: seq<Replacement>, second: Replacement, first: Replacement)
    requires NoneBefore(s, second) && !Before(second, first)
    ensures NoneBefore(s, first)
  {
    hide Before;
    forall x | x in s ensures !Before(x, first) { BeforeIsTransitive(first, second, x); }
  }

  lemma PutFirst(x: Tagged, t: seq<Tagged>)
    requires Sorted(AllOf(t)) && NoneBefore(AllOf(t), x.item)
    ensures Sorted(AllOf([x] + t)) && AllOf([x] + t) == [x.item] + AllOf(t)
    ensures OwnOf([x] + t) == (if x.own then [x.item] else []) + OwnOf(t)
  {
    hide Before;
    assert ([x] + t)[1..] == t;
    var all := [x.item] + AllOf(t);
    forall i, j | 0 <= i < j < |all| ensures !Before(all[j], all[i]) {
      assert all[j] == AllOf(t)[j - 1];
    }
  }

  /** Merging keeps the order, loses nothing, and the old spans can be told apart again. */
  lemma {:induction false} MergedKeeps(own: seq<Replacement>, added: seq<Replacement>)
    requires Sorted(own) && Sorted(added)
    ensures var t := Merged(own, added);
            && Sorted(AllOf(t)) && multiset(AllOf(t)) == multiset(own) + multiset(added) && OwnOf(t) == own
  {
    hide Before, Sorted, AllOf, OwnOf, NoneBefore;
    if own == [] && added == [] {
      MergedNothing();
    } else if added == [] || (own != [] && !Before(added[0], own[0])) {
      SortedRest(own);
      MergedKeeps(own[1..], added);
      NoneBeforeSorted(added, own[0]);
      TakeOver(own, added, Merged(own[1..], added), true);
    } else {
      SortedRest(added);
      MergedKeeps(own, added[1..]);
      if own != [] { BeforeIsAsymmetric(added[0], own[0]); }
      NoneBeforeSorted(own, added[0]);
      TakeOver(added, own, Merged(own, added[1..]), false);
    }
  }

  lemma NoneBeforeSorted(s: seq<Replacement>, first: Replacement)
    requires Sorted(s) && (s != [] ==> !Before(s[0], first))
    ensures NoneBefore(s, first)
  {
    hide Before, Sorted, NoneBefore;
    if s == [] {
      NoneInNothing(first);
    } else {
      SortedRest(s);
      NoneBeforeEarlier(s, s[0], first);
    }
  }

  /** Putting the first item of one list before what the rest of it and the other list merge into. */
  lemma TakeOver(s: seq<Replacement>, others: seq<Replacement>, t: seq<Tagged>, own: bool)
    requires s != [] && Sorted(s) && NoneBefore(others, s[0]) && Sorted(AllOf(t))
    requires multiset(AllOf(t)) == multiset(s[1..]) + multiset(others)
    ensures var all := [Tagged(s[0], own)] + t;
            && Sorted(AllOf(all)) && multiset(AllOf(all)) == multiset(s) + multiset(others)
            && OwnOf(all) == (if own then [s[0]] else []) + OwnOf(t)
  {
    hide Before, Sorted, AllOf, OwnOf, NoneBefore;
    SortedRest(s);
    NoneBeforeRest(s);
    NoneBeforeEither(AllOf(t), s[1..], others, s[0]);
    PutFirst(Tagged(s[0], own), t);
    assert s == [s[0]] + s[1..];
  }

  lemma MergedNothing()
    ensures Sorted(AllOf([])) && AllOf([]) == [] && OwnOf([]) == []
  {
  }

  lemma NoneInNothing(first: Replacement)
    ensures NoneBefore([], first)
  {
  }

  lemma NoneBeforeRest(s: seq<Replacement>)
    requires s != [] && NoneBefore(s, s[0])
    ensures NoneBefore(s[1..], s[0])
  {
    assert forall x :: x in s[1..] ==> x in s;
  }

  /**
   One pass over all spans in order that runs both choices side by side: `lastOwn` is where the spans chosen
   from the old ones end, `lastAll` where those chosen from all of them do. What was cut out up to `lastOwn` is
   still to be covered from `lastAll` on, so the next chosen span must not leave a gap before that is done.
   */
  predicate KeepsCuts(t: seq<Tagged>, n: nat, lastOwn: int, lastAll: int) {
    if t == [] then lastOwn <= lastAll
    else
      var r := t[0].item;
      if r.start < 0 || r.end > n then KeepsCuts(t[1..], n, lastOwn, lastAll)
      else
        var nextOwn := if t[0].own && lastOwn <= r.start then r.end else lastOwn;
        if r.start < lastAll then KeepsCuts(t[1..], n, nextOwn, lastAll)
        else (lastOwn <= lastAll || r.start == lastAll) && KeepsCuts(t[1..], n, nextOwn, r.end)
  }

  /** Byte `k` is owed: it was cut out before and lies where all spans together have not been decided yet. */
  ghost predicate Owed(t: seq<Tagged>, n: nat, lastOwn: int, lastAll: int, k: int) {
    lastAll <= k && (k < lastOwn || CoveredBy(Select(OwnOf(t), n, lastOwn), k))
  }

  ghost predicate AllPaid(t: seq<Tagged>, n: nat, lastOwn: int, lastAll: int) {
    forall k :: Owed(t, n, lastOwn, lastAll, k) ==> CoveredBy(Select(AllOf(t), n, lastAll), k)
  }

  lemma {:induction false} OwnAmongAll(t: seq<Tagged>)
    ensures forall r :: r in OwnOf(t) ==> r in AllOf(t)
  {
    if t != [] { OwnAmongAll(t[1..]); }
  }

  lemma {:induction false} KeepsCutsExact(t: seq<Tagged>, n: nat, lastOwn: int, lastAll: int)
    requires Sorted(AllOf(t)) && AllForward(AllOf(t))
    ensures KeepsCuts(t, n, lastOwn, lastAll) <==> AllPaid(t, n, lastOwn, lastAll)
  {
    if t == [] {
      if lastAll < lastOwn { assert Owed(t, n, lastOwn, lastAll, lastAll); }
    } else {
      var all, r := AllOf(t), t[0].item;
      assert all[0] == r && all[1..] == AllOf(t[1..]);
      assert forall x :: x in all[1..] ==> x in all;
      var nextOwn := if t[0].own && lastOwn <= r.start then r.end else lastOwn;
      if !InRange(r, n) {
        KeepsCutsExact(t[1..], n, lastOwn, lastAll);
        SkippedStep(t, n, lastOwn, lastAll);
      } else if r.start < lastAll {
        KeepsCutsExact(t[1..], n, nextOwn, lastAll);
        DroppedStep(t, n, lastOwn, lastAll);
      } else {
        KeepsCutsExact(t[1..], n, nextOwn, r.end);
        ChosenStep(t, n, lastOwn, lastAll);
      }
    }
  }

  lemma SkippedStep(t: seq<Tagged>, n: nat, lastOwn: int, lastAll: int)
    requires t != [] && !InRange(t[0].item, n)
    ensures AllPaid(t, n, lastOwn, lastAll) <==> AllPaid(t[1..], n, lastOwn, lastAll)
  {
    assert Select(AllOf(t), n, lastAll) == Select(AllOf(t[1..]), n, lastAll) by {
      assert AllOf(t)[1..] == AllOf(t[1..]);
    }
    OwnStep(t, n, lastOwn);
    forall k ensures Owed(t, n, lastOwn, lastAll, k) <==> Owed(t[1..], n, lastOwn, lastAll, k) {}
  }

  /** How the choice among the old spans goes on at the first of all spans. */
  lemma OwnStep(t: seq<Tagged>, n: nat, lastOwn: int)
    requires t != []
    ensures var r, rest := t[0].item, OwnOf(t[1..]);
            Select(OwnOf(t), n, lastOwn) ==
              if t[0].own && InRange(r, n) && lastOwn <= r.start then [r] + Select(rest, n, r.end)
              else Select(rest, n, lastOwn)
  {
    if t[0].own { assert OwnOf(t)[1..] == OwnOf(t[1..]); } else { assert OwnOf(t) == OwnOf(t[1..]); }
  }

  lemma DroppedStep(t: seq<Tagged>, n: nat, lastOwn: int, lastAll: int)
    requires t != [] && InRange(t[0].item, n) && t[0].item.start < lastAll
    ensures var nextOwn := if t[0].own && lastOwn <= t[0].item.start then t[0].item.end else lastOwn;
            AllPaid(t, n, lastOwn, lastAll) <==> AllPaid(t[1..], n, nextOwn, lastAll)
  {
    hide Select, OwnOf;
    var r, rest := t[0].item, t[1..];
    var nextOwn := if t[0].own && lastOwn <= r.start then r.end else lastOwn;
    DroppedAll(t, n, lastAll);
    OwnStep(t, n, lastOwn);
    forall k ensures Owed(t, n, lastOwn, lastAll, k) <==> Owed(rest, n, nextOwn, lastAll, k) {
      CoveredByFirst(r, Select(OwnOf(rest), n, r.end), k);
    }
  }

  lemma DroppedAll(t: seq<Tagged>, n: nat, lastAll: int)
    requires t != [] && InRange(t[0].item, n) && t[0].item.start < lastAll
    ensures Select(AllOf(t), n, lastAll) == Select(AllOf(t[1..]), n, lastAll)
  {
    assert AllOf(t)[1..] == AllOf(t[1..]);
  }

  lemma ChosenAll(t: seq<Tagged>, n: nat, lastAll: int)
    requires t != [] && InRange(t[0].item, n) && lastAll <= t[0].item.start
    ensures Select(AllOf(t), n, lastAll) == [t[0].item] + Select(AllOf(t[1..]), n, t[0].item.end)
  {
    assert AllOf(t)[1..] == AllOf(t[1..]);
  }

  lemma NothingBefore(t: seq<Tagged>, n: nat, lastOwn: int, k: int)
    requires t != [] && Sorted(AllOf(t)) && AllForward(AllOf(t)) && CoveredBy(Select(OwnOf(t), n, lastOwn), k)
    ensures t[0].item.start <= k
  {
    var b :| b in Select(OwnOf(t), n, lastOwn) && b.start <= k < b.end;
    OwnAmongAll(t);
    SelectStartsLate(OwnOf(t), n, lastOwn, b);
    FirstIsLeast(AllOf(t), b);
  }

  lemma ChosenStep(t: seq<Tagged>, n: nat, lastOwn: int, lastAll: int)
    requires t != [] && InRange(t[0].item, n) && lastAll <= t[0].item.start
    requires Sorted(AllOf(t)) && AllForward(AllOf(t))
    ensures var r := t[0].item;
            var nextOwn := if t[0].own && lastOwn <= r.start then r.end else lastOwn;
            AllPaid(t, n, lastOwn, lastAll) <==>
            ((lastOwn <= lastAll || r.start == lastAll) && AllPaid(t[1..], n, nextOwn, r.end))
  {
    hide Select, OwnOf, AllOf;
    var r, rest := t[0].item, t[1..];
    var nextOwn := if t[0].own && lastOwn <= r.start then r.end else lastOwn;
    var chosen := Select(AllOf(rest), n, r.end);
    FirstForward(t);
    ChosenAll(t, n, lastAll);
    OwnStep(t, n, lastOwn);
    forall k ensures CoveredBy([r] + chosen, k) <==> r.start <= k < r.end || CoveredBy(chosen, k) {
      CoveredByFirst(r, chosen, k);
    }
    forall k | CoveredBy(chosen, k) ensures r.end <= k { LaterStarts(t, n, r.end, k); }
    forall k | Owed(t, n, lastOwn, lastAll, k) && k < r.start ensures k < lastOwn {
      if CoveredBy(Select(OwnOf(t), n, lastOwn), k) { NothingBefore(t, n, lastOwn, k); }
    }
    forall k | r.end <= k ensures Owed(t, n, lastOwn, lastAll, k) <==> Owed(rest, n, nextOwn, r.end, k) {
      CoveredByFirst(r, Select(OwnOf(rest), n, r.end), k);
    }
    if lastAll < lastOwn && lastAll < r.start { assert Owed(t, n, lastOwn, lastAll, lastAll); }
  }

  lemma FirstForward(t: seq<Tagged>)
    requires t != [] && AllForward(AllOf(t))
    ensures t[0].item.start <= t[0].item.end
  {
    assert AllOf(t)[0] == t[0].item;
    assert Forward(AllOf(t)[0]);
  }

  lemma LaterStarts(t: seq<Tagged>, n: nat, from: int, k: int)
    requires t != [] && AllForward(AllOf(t)) && CoveredBy(Select(AllOf(t[1..]), n, from), k)
    ensures from <= k
  {
    var later := AllOf(t[1..]);
    assert AllOf(t)[1..] == later;
    assert forall x :: x in later ==> x in AllOf(t);
    var b :| b in Select(later, n, from) && b.start <= k < b.end;
    SelectStartsLate(later, n, from, b);
  }

  /**
   Exactly when more spans uncover nothing in a string: every byte cut out before is cut out with the added
   spans too if and only if the one-pass test succeeds on all spans in order.
   */
  lemma CutsKeptExactly(own: seq<Replacement>, added: seq<Replacement>, n: nat)
    requires AllForward(own) && AllForward(added) && OnePath(own + added)
    ensures CutsKept(own, added, n) <==> KeepsCuts(Merged(InOrder(own), InOrder(added)), n, -1, -1)
  {
    hide Merged, AllOf, OwnOf, KeepsCuts, Sorted, AllPaid, CutsKept;
    var t := Merged(InOrder(own), InOrder(added));
    MergedKeeps(InOrder(own), InOrder(added));
    assert multiset(own + added) == multiset(own) + multiset(added);
    SameElements(AllOf(t), own + added);
    SameElements(InOrder(own + added), own + added);
    SortedIsUnique(AllOf(t), InOrder(own + added));
    KeepsCutsExact(t, n, -1, -1);
    PaidFromStart(own, added, t, n);
  }

  lemma PaidFromStart(own: seq<Replacement>, added: seq<Replacement>, t: seq<Tagged>, n: nat)
    requires AllForward(own) && OwnOf(t) == InOrder(own) && AllOf(t) == InOrder(own + added)
    ensures AllPaid(t, n, -1, -1) <==> CutsKept(own, added, n)
  {
    hide InOrder, Select, AllOf, OwnOf;
    forall k ensures Owed(t, n, -1, -1, k) <==> CoveredBy(Selected(own, n), k) {
      if CoveredBy(Selected(own, n), k) { CoveredInRange(own, n, k); }
    }
  }

  lemma CoveredInRange(items: seq<Replacement>, n: nat, k: int)
    requires AllForward(items) && CoveredBy(Selected(items, n), k)
    ensures 0 <= k < n
  {
    hide Selected;
    SelectedChained(items, n);
  }
}
