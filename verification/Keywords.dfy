/** Keyword matching, and what redacting with one keyword achieves. */
module Keywords {
  import opened Splicing

  datatype Span = Span(start: nat, end: nat)

  /** Lower-casing of ASCII text, byte by byte, so that offsets in the folded text are offsets in the text. */
  function Lower(s: string): (t: string)
    ensures |t| == |s|
  {
    seq(|s|, i requires 0 <= i < |s| => if 'A' <= s[i] <= 'Z' then s[i] + 32 as char else s[i])
  }

  function Folded(s: string, caseSensitive: bool): (t: string)
    ensures |t| == |s|
  {
    if caseSensitive then s else Lower(s)
  }

  predicate OccursAt(haystack: string, needle: string, i: int) {
    0 <= i <= i + |needle| <= |haystack| && haystack[i..i + |needle|] == needle
  }

  ghost predicate Contains(haystack: string, needle: string) {
    exists i :: OccursAt(haystack, needle, i)
  }

  /** The first occurrence at or after `from`, or -1: `strings.Index` on the rest of the text. */
  function IndexFrom(haystack: string, needle: string, from: nat): (i: int)
    ensures i == -1 || from <= i <= i + |needle| <= |haystack|
    decreases |haystack| - from
  {
    if from + |needle| > |haystack| then -1
    else if OccursAt(haystack, needle, from) then from
    else IndexFrom(haystack, needle, from + 1)
  }

  lemma {:induction false} IndexIsFirst(haystack: string, needle: string, from: nat)
    ensures var i := IndexFrom(haystack, needle, from);
            && (i == -1 || OccursAt(haystack, needle, i))
            && (forall j :: from <= j && (i == -1 || j < i) ==> !OccursAt(haystack, needle, j))
    decreases |haystack| - from
  {
    if from + |needle| <= |haystack| && !OccursAt(haystack, needle, from) {
      IndexIsFirst(haystack, needle, from + 1);
    }
  }

  /** The occurrences found by searching on from the end of the last one. */
  function SpansFrom(haystack: string, needle: string, offset: nat): seq<Span>
    requires needle != ""
    decreases |haystack| - offset
  {
    var i := IndexFrom(haystack, needle, offset);
    if i == -1 then []
    else [Span(i, i + |needle|)] + SpansFrom(haystack, needle, i + |needle|)
  }

  function KeywordSpans(value: string, keyword: string, caseSensitive: bool): seq<Span> {
    if keyword == "" then [] else SpansFrom(Folded(value, caseSensitive), Folded(keyword, caseSensitive), 0)
  }

  method MatchKeyword(value: string, keyword: string, caseSensitive: bool) returns (spans: seq<Span>)
    ensures spans == KeywordSpans(value, keyword, caseSensitive)
  {
    hide OccursAt, IndexFrom, Folded;
    spans := [];
    if keyword == "" {
      return;
    }
    var haystack, needle := Folded(value, caseSensitive), Folded(keyword, caseSensitive);
    var offset := 0;
    while offset <= |haystack| - |needle|
      invariant offset <= |haystack|
      invariant spans + SpansFrom(haystack, needle, offset) == SpansFrom(haystack, needle, 0)
      decreases |haystack| - offset
    {
      var start := IndexFrom(haystack, needle, offset);
      if start < 0 {
        break;
      }
      spans := spans + [Span(start, start + |needle|)];
      offset := start + |needle|;
    }
  }

  // ----- What the spans are -----

  ghost predicate Apart(spans: seq<Span>, from: nat, n: nat) {
    if spans == [] then from <= n
    else from <= spans[0].start < spans[0].end <= n && Apart(spans[1..], spans[0].end, n)
  }

  lemma SpansFromStep(haystack: string, needle: string, offset: nat)
    requires needle != "" && IndexFrom(haystack, needle, offset) != -1
    ensures var i := IndexFrom(haystack, needle, offset);
            var spans := SpansFrom(haystack, needle, offset);
            spans != [] && spans[0] == Span(i, i + |needle|) && spans[1..] == SpansFrom(haystack, needle, i + |needle|)
  {
  }

  lemma {:induction false} SpansFromApart(haystack: string, needle: string, offset: nat)
    requires needle != "" && offset <= |haystack|
    ensures Apart(SpansFrom(haystack, needle, offset), offset, |haystack|)
    decreases |haystack| - offset
  {
    var i := IndexFrom(haystack, needle, offset);
    if i != -1 {
      SpansFromApart(haystack, needle, i + |needle|);
      SpansFromStep(haystack, needle, offset);
    }
  }

  ghost predicate StartsInside(spans: seq<Span>, i: int) {
    exists s :: s in spans && s.start <= i < s.end
  }

  lemma {:induction false} OccurrencesFound(haystack: string, needle: string, offset: nat, i: int)
    requires needle != "" && offset <= i && OccursAt(haystack, needle, i)
    ensures StartsInside(SpansFrom(haystack, needle, offset), i)
    decreases |haystack| - offset
  {
    hide OccursAt, IndexFrom;
    IndexIsFirst(haystack, needle, offset);
    var first := IndexFrom(haystack, needle, offset);
    var rest := SpansFrom(haystack, needle, first + |needle|);
    assert SpansFrom(haystack, needle, offset)[0] == Span(first, first + |needle|);
    if first + |needle| <= i {
      OccurrencesFound(haystack, needle, first + |needle|, i);
      assert forall s :: s in rest ==> s in SpansFrom(haystack, needle, offset);
    }
  }

  lemma {:induction false} SpansGenuine(haystack: string, needle: string, offset: nat, s: Span)
    requires needle != "" && s in SpansFrom(haystack, needle, offset)
    ensures OccursAt(haystack, needle, s.start) && s.end == s.start + |needle|
    decreases |haystack| - offset
  {
    IndexIsFirst(haystack, needle, offset);
    var first := IndexFrom(haystack, needle, offset);
    if s != Span(first, first + |needle|) { SpansGenuine(haystack, needle, first + |needle|, s); }
  }

  /** The places of some occurrences that do not overlap each other. */
  ghost predicate DisjointOccurrences(haystack: string, needle: string, places: set<int>) {
    && (forall i :: i in places ==> OccursAt(haystack, needle, i))
    && (forall i, j :: i in places && j in places && i < j ==> i + |needle| <= j)
  }

  lemma {:induction false} Earliest(places: set<int>) returns (m: int)
    requires exists i :: i in places
    ensures m in places && forall i :: i in places ==> m <= i
  {
    var some :| some in places;
    var others := places - {some};
    m := some;
    assert forall i :: i in places ==> i == some || i in others;
    if i :| i in others {
      var e := Earliest(others);
      if e < some { m := e; }
    }
  }

  lemma {:induction false} NoMoreThanFound(haystack: string, needle: string, offset: nat, places: set<int>)
    requires needle != "" && DisjointOccurrences(haystack, needle, places)
    requires forall i :: i in places ==> offset <= i
    ensures |places| <= |SpansFrom(haystack, needle, offset)|
    decreases |haystack| - offset
  {
    hide OccursAt, IndexFrom, SpansFrom;
    if some :| some in places {
      var m := Earliest(places);
      IndexIsFirst(haystack, needle, offset);
      var first := IndexFrom(haystack, needle, offset);
      assert OccursAt(haystack, needle, m);
      SpansFromStep(haystack, needle, offset);
      NoMoreThanFound(haystack, needle, first + |needle|, places - {m});
    } else {
      assert places == {};
    }
  }

  /**
   The spans are ascending, disjoint, non-empty and genuine occurrences; every occurrence starts
   inside one of them; and no set of non-overlapping occurrences is larger.
   */
  lemma MatchesAreExact(value: string, keyword: string, caseSensitive: bool)
    requires keyword != ""
    ensures var spans := KeywordSpans(value, keyword, caseSensitive);
            var haystack, needle := Folded(value, caseSensitive), Folded(keyword, caseSensitive);
            && Apart(spans, 0, |value|)
            && (forall s :: s in spans ==> OccursAt(haystack, needle, s.start) && s.end == s.start + |keyword|)
            && (forall i :: OccursAt(haystack, needle, i) ==> StartsInside(spans, i))
            && (forall places :: DisjointOccurrences(haystack, needle, places) ==> |places| <= |spans|)
  {
    var haystack, needle := Folded(value, caseSensitive), Folded(keyword, caseSensitive);
    SpansFromApart(haystack, needle, 0);
    forall s | s in SpansFrom(haystack, needle, 0)
      ensures OccursAt(haystack, needle, s.start) && s.end == s.start + |keyword|
    {
      SpansGenuine(haystack, needle, 0, s);
    }
    forall i | OccursAt(haystack, needle, i) ensures StartsInside(SpansFrom(haystack, needle, 0), i) {
      OccurrencesFound(haystack, needle, 0, i);
    }
    forall places | DisjointOccurrences(haystack, needle, places) ensures |places| <= |SpansFrom(haystack, needle, 0)| {
      NoMoreThanFound(haystack, needle, 0, places);
    }
  }

  // ----- What a match is -----

  /** One letter is the ASCII capital of the other. */
  predicate OtherCase(a: char, b: char) {
    || ('A' <= a <= 'Z' && b as int == a as int + 32)
    || ('A' <= b <= 'Z' && a as int == b as int + 32)
  }

  /** The keyword stands at `i`, letter by letter, with either case of a letter unless case matters. */
  predicate MatchesAt(value: string, keyword: string, caseSensitive: bool, i: int) {
    && 0 <= i <= i + |keyword| <= |value|
    && forall k :: 0 <= k < |keyword| ==>
         value[i + k] == keyword[k] || (!caseSensitive && OtherCase(value[i + k], keyword[k]))
  }

  lemma FoldsTogether(a: string, b: string, caseSensitive: bool, i: nat, k: nat)
    requires i < |a| && k < |b|
    ensures Folded(a, caseSensitive)[i] == Folded(b, caseSensitive)[k]
       <==> a[i] == b[k] || (!caseSensitive && OtherCase(a[i], b[k]))
  {
  }

  lemma OccursMatches(value: string, keyword: string, caseSensitive: bool, i: int)
    ensures OccursAt(Folded(value, caseSensitive), Folded(keyword, caseSensitive), i)
       <==> MatchesAt(value, keyword, caseSensitive, i)
  {
    hide Folded, OtherCase;
    if 0 <= i <= i + |keyword| <= |value| {
      var a, b := Folded(value, caseSensitive), Folded(keyword, caseSensitive);
      forall k | 0 <= k < |keyword|
        ensures a[i..i + |b|][k] == b[k]
           <==> value[i + k] == keyword[k] || (!caseSensitive && OtherCase(value[i + k], keyword[k]))
      {
        FoldsTogether(value, keyword, caseSensitive, i + k, k);
      }
      assert a[i..i + |b|] == b <==> forall k :: 0 <= k < |b| ==> a[i..i + |b|][k] == b[k];
    }
  }

  /** Matches that do not overlap each other. */
  ghost predicate DisjointMatches(value: string, keyword: string, caseSensitive: bool, places: set<int>) {
    && (forall i :: i in places ==> MatchesAt(value, keyword, caseSensitive, i))
    && (forall i, j :: i in places && j in places && i < j ==> i + |keyword| <= j)
  }

  /**
   Keyword matching in terms of letters: the spans are ascending, disjoint and genuine matches as long as the
   keyword; every match starts inside one; no set of matches that do not overlap is larger. An empty keyword
   has no spans.
   */
  lemma KeywordMatches(value: string, keyword: string, caseSensitive: bool)
    ensures keyword == "" ==> KeywordSpans(value, keyword, caseSensitive) == []
    ensures keyword != "" ==>
            var spans := KeywordSpans(value, keyword, caseSensitive);
            && Apart(spans, 0, |value|)
            && (forall s :: s in spans ==>
                  MatchesAt(value, keyword, caseSensitive, s.start) && s.end == s.start + |keyword|)
            && (forall i :: MatchesAt(value, keyword, caseSensitive, i) ==> StartsInside(spans, i))
            && (forall places :: DisjointMatches(value, keyword, caseSensitive, places) ==> |places| <= |spans|)
  {
    if keyword != "" {
      hide MatchesAt, OccursAt, Folded, KeywordSpans, Apart;
      MatchesAreExact(value, keyword, caseSensitive);
      var haystack, needle := Folded(value, caseSensitive), Folded(keyword, caseSensitive);
      forall i ensures OccursAt(haystack, needle, i) <==> MatchesAt(value, keyword, caseSensitive, i) {
        OccursMatches(value, keyword, caseSensitive, i);
      }
      forall places | DisjointMatches(value, keyword, caseSensitive, places)
        ensures DisjointOccurrences(haystack, needle, places)
      {
      }
    }
  }

  // ----- One keyword redacting one string -----

  /** The replacements a keyword asks for in the string at a path. */
  function KeywordItems(path: string, value: string, spans: seq<Span>): (items: seq<Replacement>)
    ensures |items| == |spans|
    ensures forall i :: 0 <= i < |items| ==> items[i] == Replacement(path, value, spans[i].start, spans[i].end)
  {
    seq(|spans|, i requires 0 <= i < |spans| => Replacement(path, value, spans[i].start, spans[i].end))
  }

  lemma {:induction false} ApartItems(path: string, value: string, spans: seq<Span>, from: nat, n: nat)
    requires Apart(spans, from, n)
    ensures var items := KeywordItems(path, value, spans);
            && Chained(items, from, n) && Sorted(items)
            && (forall r :: r in items ==> r.path == path && from <= r.start < r.end <= n)
  {
    var items := KeywordItems(path, value, spans);
    if spans != [] {
      ApartItems(path, value, spans[1..], spans[0].end, n);
      assert items[1..] == KeywordItems(path, value, spans[1..]);
      ChainedBounds(items[1..], spans[0].end, n);
      forall j | 0 < j < |items| ensures items[0].start < items[j].start {
        assert items[j] == items[1..][j - 1];
        assert items[j] in items[1..];
      }
      forall i, j | 0 <= i < j < |items| ensures !Before(items[j], items[i]) {
        if i > 0 { assert items[i] == items[1..][i - 1] && items[j] == items[1..][j - 1]; }
      }
    }
  }

  lemma {:induction false} ChainedAllChosen(items: seq<Replacement>, from: nat, n: nat, lastEnd: int)
    requires Chained(items, from, n) && lastEnd <= from
    ensures Select(items, n, lastEnd) == items
  {
    if items != [] { ChainedAllChosen(items[1..], items[0].end, n, items[0].end); }
  }

  /** The untouched stretches of a string around the chosen spans. */
  function Gaps(text: string, sel: seq<Replacement>, from: nat): seq<string>
    requires Chained(sel, from, |text|)
  {
    if sel == [] then [text[from..]] else [text[from..sel[0].start]] + Gaps(text, sel[1..], sel[0].end)
  }

  /** Gap, value, gap, value, ..., gap. */
  function Joined(gaps: seq<string>, sel: seq<Replacement>): string
    requires |gaps| == |sel| + 1
  {
    if sel == [] then gaps[0] else gaps[0] + sel[0].value + Joined(gaps[1..], sel[1..])
  }

  lemma {:induction false} WeaveJoinsGaps(text: string, sel: seq<Replacement>, from: nat)
    requires Chained(sel, from, |text|)
    ensures |Gaps(text, sel, from)| == |sel| + 1
    ensures Weave(text, sel, from) == Joined(Gaps(text, sel, from), sel)
  {
    if sel != [] {
      WeaveJoinsGaps(text, sel[1..], sel[0].end);
      assert Gaps(text, sel, from)[1..] == Gaps(text, sel[1..], sel[0].end);
    }
  }

  lemma OccursLater(haystack: string, needle: string, a: nat, b: nat, i: int)
    requires a <= b <= |haystack| && OccursAt(haystack[a..b], needle, i)
    ensures 0 <= i && OccursAt(haystack, needle, a + i) && a + i + |needle| <= b
  {
    var gap, j := haystack[a..b], i + |needle|;
    assert |gap[i..j]| == |haystack[a + i..a + j]|;
    forall k | 0 <= k < j - i ensures gap[i..j][k] == haystack[a + i..a + j][k] {
      assert gap[i..j][k] == gap[i + k] == haystack[a + i + k];
    }
    assert gap[i..j] == haystack[a + i..a + j];
  }

  lemma FoldSlice(text: string, caseSensitive: bool, a: nat, b: nat)
    requires a <= b <= |text|
    ensures Folded(text[a..b], caseSensitive) == Folded(text, caseSensitive)[a..b]
  {
  }

  /** None of these stretches holds the keyword. */
  ghost predicate AllClean(gaps: seq<string>, keyword: string, caseSensitive: bool) {
    forall g :: g in gaps ==> !Contains(Folded(g, caseSensitive), Folded(keyword, caseSensitive))
  }

  /** Up to the first occurrence from `offset` on, or to the end, there is none. */
  lemma FirstGapIsClean(text: string, keyword: string, caseSensitive: bool, offset: nat, stop: nat)
    requires keyword != "" && offset <= stop <= |text|
    requires var i := IndexFrom(Folded(text, caseSensitive), Folded(keyword, caseSensitive), offset);
             i == -1 || stop == i
    ensures !Contains(Folded(text[offset..stop], caseSensitive), Folded(keyword, caseSensitive))
  {
    hide OccursAt, IndexFrom, Folded;
    var haystack, needle := Folded(text, caseSensitive), Folded(keyword, caseSensitive);
    IndexIsFirst(haystack, needle, offset);
    FoldSlice(text, caseSensitive, offset, stop);
    forall i ensures !OccursAt(haystack[offset..stop], needle, i) {
      if OccursAt(haystack[offset..stop], needle, i) { OccursLater(haystack, needle, offset, stop, i); }
    }
  }

  lemma CleanCons(gap: string, gaps: seq<string>, keyword: string, caseSensitive: bool)
    requires !Contains(Folded(gap, caseSensitive), Folded(keyword, caseSensitive))
    requires AllClean(gaps, keyword, caseSensitive)
    ensures AllClean([gap] + gaps, keyword, caseSensitive)
  {
    hide Contains, Folded;
  }

  lemma {:induction false} GapsAreClean(text: string, keyword: string, caseSensitive: bool, items: seq<Replacement>,
                                        offset: nat, path: string, value: string)
    requires keyword != "" && offset <= |text|
    requires items == KeywordItems(path, value,
               SpansFrom(Folded(text, caseSensitive), Folded(keyword, caseSensitive), offset))
    requires Chained(items, offset, |text|)
    ensures AllClean(Gaps(text, items, offset), keyword, caseSensitive)
    decreases |text| - offset
  {
    hide AllClean, IndexFrom, Folded;
    var haystack, needle := Folded(text, caseSensitive), Folded(keyword, caseSensitive);
    var first := IndexFrom(haystack, needle, offset);
    if first == -1 {
      FirstGapIsClean(text, keyword, caseSensitive, offset, |text|);
      assert text[offset..] == text[offset..|text|];
      NothingUnclean(keyword, caseSensitive);
      CleanCons(text[offset..], [], keyword, caseSensitive);
      assert Gaps(text, items, offset) == [text[offset..]] + [];
    } else {
      SpansFromStep(haystack, needle, offset);
      var rest := SpansFrom(haystack, needle, first + |needle|);
      assert items[1..] == KeywordItems(path, value, rest);
      GapsAreClean(text, keyword, caseSensitive, items[1..], first + |needle|, path, value);
      FirstGapIsClean(text, keyword, caseSensitive, offset, first);
      CleanCons(text[offset..first], Gaps(text, items[1..], first + |needle|), keyword, caseSensitive);
    }
  }

  lemma NothingUnclean(keyword: string, caseSensitive: bool)
    ensures AllClean([], keyword, caseSensitive)
  {
  }

  /**
   When one keyword is the only redactor of a string, all its spans apply, and no untouched
   stretch of the result holds the keyword.
   */
  lemma KeywordIsRemoved(path: string, text: string, keyword: string, caseSensitive: bool, value: string)
    requires keyword != ""
    ensures var items := KeywordItems(path, value, KeywordSpans(text, keyword, caseSensitive));
            && AllForward(items) && Selected(items, |text|) == items && Chained(items, 0, |text|)
            && EveryMatchedByteGoes(items, |text|)
            && |Gaps(text, items, 0)| == |items| + 1 && Redacted(text, items) == Joined(Gaps(text, items, 0), items)
            && AllClean(Gaps(text, items, 0), keyword, caseSensitive)
  {
    var haystack, needle := Folded(text, caseSensitive), Folded(keyword, caseSensitive);
    SpansFromApart(haystack, needle, 0);
    var items := KeywordItems(path, value, SpansFrom(haystack, needle, 0));
    ApartItems(path, value, SpansFrom(haystack, needle, 0), 0, |text|);
    SortedIsUnique(items, InOrder(items));
    ChainedAllChosen(items, 0, |text|, -1);
    GapsAreClean(text, keyword, caseSensitive, items, 0, path, value);
    WeaveJoinsGaps(text, items, 0);
    forall k | Matched(items, |text|, k) ensures CoveredBy(Selected(items, |text|), k) {}
  }
}
