/** Applying a run's replacements to a whole envelope. */
module Redaction {
  import opened Common
  import opened Paths
  import opened Content
  import opened Splicing

  /** The replacements recorded for one path, in the order they were recorded. */
  ghost function Recorded(replacements: seq<Replacement>, path: string): (items: seq<Replacement>)
    ensures forall r :: r in items <==> r in replacements && r.path == path
  {
    if replacements == [] then []
    else
      var last := |replacements| - 1;
      assert replacements == replacements[..last] + [replacements[last]];
      Recorded(replacements[..last], path) + (if replacements[last].path == path then [replacements[last]] else [])
  }

  lemma RecordedLast(items: seq<Replacement>, path: string)
    requires items != []
    ensures Recorded(items, path) == Recorded(items[..|items| - 1], path)
                                   + (if items[|items| - 1].path == path then [items[|items| - 1]] else [])
  {
  }

  lemma {:induction false} RecordedConcat(a: seq<Replacement>, b: seq<Replacement>, path: string)
    ensures Recorded(a + b, path) == Recorded(a, path) + Recorded(b, path)
  {
    hide Recorded;
    if b == [] {
      assert a + b == a;
      RecordedNothing(path);
    } else {
      var last := |b| - 1;
      var all := a + b;
      assert all[..|all| - 1] == a + b[..last] && all[|all| - 1] == b[last];
      RecordedConcat(a, b[..last], path);
      RecordedLast(all, path);
      RecordedLast(b, path);
    }
  }

  lemma RecordedNothing(path: string)
    ensures Recorded([], path) == []
  {
  }

  /** What a recorded list of replacements does to the string at a path. */
  ghost function RewriteBy(replacements: seq<Replacement>): Rewrite {
    (path, text) =>
      if AllForward(Recorded(replacements, path)) then Redacted(text, Recorded(replacements, path)) else text
  }

  ghost function RedactedContent(c: Content, replacements: seq<Replacement>): Content {
    var rewrite := RewriteBy(replacements);
    Content(
      c.kind,
      rewrite(TEXT_PATH, c.text),
      seq(|c.messages|, i requires 0 <= i < |c.messages| =>
        c.messages[i].(content := rewrite(MessagePath(i), c.messages[i].content))),
      if c.data.None? then None else Some(TransformJSONStrings(Obj(c.data.value), DATA_PATH, rewrite).fields))
  }

  // ----- The order of the replacements plays no part -----

  lemma {:induction false} RecordedCounts(items: seq<Replacement>, path: string, r: Replacement)
    ensures multiset(Recorded(items, path))[r] == if r.path == path then multiset(items)[r] else 0
  {
    if items != [] {
      var last := |items| - 1;
      assert items == items[..last] + [items[last]];
      RecordedCounts(items[..last], path, r);
      RecordedLast(items, path);
    }
  }

  lemma RewritesAgree(a: seq<Replacement>, b: seq<Replacement>, path: string, text: string)
    requires multiset(a) == multiset(b) && AllForward(a)
    ensures RewriteBy(a)(path, text) == RewriteBy(b)(path, text)
  {
    hide Redacted;
    forall r ensures multiset(Recorded(a, path))[r] == multiset(Recorded(b, path))[r] {
      RecordedCounts(a, path, r);
      RecordedCounts(b, path, r);
    }
    assert multiset(Recorded(a, path)) == multiset(Recorded(b, path));
    OrderIrrelevant(text, Recorded(a, path), Recorded(b, path));
  }

  lemma {:induction false} TransformsAgree(v: Json, path: string, f: Rewrite, g: Rewrite)
    requires forall p, t :: f(p, t) == g(p, t)
    ensures TransformJSONStrings(v, path, f) == TransformJSONStrings(v, path, g)
    decreases v
  {
    match v
    case Arr(items) =>
      forall i | 0 <= i < |items| { TransformsAgree(items[i], IndexPath(path, i), f, g); }
    case Obj(fields) =>
      forall k | k in fields { TransformsAgree(fields[k], ChildPath(path, k), f, g); }
    case _ =>
  }

  /**
   Although every string's replacements are sorted by an unstable sort, the redacted envelope, text, messages
   and data, does not depend on the order in which the replacements of a run come.
   */
  lemma EnvelopeIgnoresOrder(c: Content, replacements: seq<Replacement>, permuted: seq<Replacement>)
    requires AllForward(replacements) && multiset(replacements) == multiset(permuted)
    ensures RedactedContent(c, replacements) == RedactedContent(c, permuted)
  {
    hide RewriteBy;
    var f, g := RewriteBy(replacements), RewriteBy(permuted);
    forall p, t ensures f(p, t) == g(p, t) { RewritesAgree(replacements, permuted, p, t); }
    if c.data.Some? { TransformsAgree(Obj(c.data.value), DATA_PATH, f, g); }
    var d, e := RedactedContent(c, replacements), RedactedContent(c, permuted);
    forall i | 0 <= i < |c.messages| ensures d.messages[i] == e.messages[i] {
      assert f(MessagePath(i), c.messages[i].content) == g(MessagePath(i), c.messages[i].content);
    }
    assert d.messages == e.messages;
  }

  // ----- The program -----

  type Buckets = map<string, seq<Replacement>>

  ghost predicate Grouped(byPath: Buckets, replacements: seq<Replacement>) {
    forall path :: Recorded(replacements, path) == if path in byPath then byPath[path] else []
  }

  method GroupByPath(replacements: seq<Replacement>) returns (byPath: Buckets)
    ensures Grouped(byPath, replacements)
  {
    hide Grouped;
    byPath := map[];
    GroupedNothing();
    assert replacements[..0] == [];
    for i := 0 to |replacements|
      invariant Grouped(byPath, replacements[..i])
    {
      var item := replacements[i];
      var before := if item.path in byPath then byPath[item.path] else [];
      assert replacements[..i + 1] == replacements[..i] + [item];
      GroupedStep(byPath, replacements[..i], item);
      byPath := byPath[item.path := before + [item]];
    }
    assert replacements[..|replacements|] == replacements;
  }

  lemma GroupedNothing()
    ensures Grouped(map[], [])
  {
  }

  lemma GroupedStep(byPath: Buckets, items: seq<Replacement>, item: Replacement)
    requires Grouped(byPath, items)
    ensures var before := if item.path in byPath then byPath[item.path] else [];
            Grouped(byPath[item.path := before + [item]], items + [item])
  {
    hide Recorded;
    var all := items + [item];
    assert all[..|all| - 1] == items && all[|all| - 1] == item;
    forall path ensures Recorded(all, path) == Recorded(items, path) + if item.path == path then [item] else [] {
      RecordedLast(all, path);
    }
  }

  method ApplyAt(byPath: Buckets, path: string, text: string, ghost replacements: seq<Replacement>)
    returns (value: string)
    requires Grouped(byPath, replacements) && AllForward(replacements)
    ensures value == RewriteBy(replacements)(path, text)
  {
    var items := if path in byPath then byPath[path] else [];
    assert items == Recorded(replacements, path);
    var result := Apply(text, items);
    value := result.value;
  }

  method TransformValue(v: Json, path: string, byPath: Buckets, ghost replacements: seq<Replacement>)
    returns (w: Json)
    requires Grouped(byPath, replacements) && AllForward(replacements)
    ensures w == TransformJSONStrings(v, path, RewriteBy(replacements))
    decreases v
  {
    hide RewriteBy, IndexPath, ChildPath, Grouped, AllForward;
    ghost var rewrite := RewriteBy(replacements);
    match v {
      case Str(text) =>
        var value := ApplyAt(byPath, path, text, replacements);
        w := Str(value);
      case Arr(items) =>
        var result: seq<Json> := [];
        for i := 0 to |items|
          invariant |result| == i
          invariant forall j :: 0 <= j < i ==> result[j] == TransformJSONStrings(items[j], IndexPath(path, j), rewrite)
        {
          var item := TransformValue(items[i], IndexPath(path, i), byPath, replacements);
          result := result + [item];
        }
        w := Arr(result);
      case Obj(fields) =>
        var result: map<string, Json> := map[];
        var left := fields.Keys;
        while left != {}
          invariant left <= fields.Keys && result.Keys == fields.Keys - left
          invariant forall k :: k in result ==>
            result[k] == TransformJSONStrings(fields[k], ChildPath(path, k), rewrite)
          decreases left
        {
          var key :| key in left;
          var item := TransformValue(fields[key], ChildPath(path, key), byPath, replacements);
          result := result[key := item];
          left := left - {key};
        }
        w := Obj(result);
      case _ =>
        w := v;
    }
  }

  /**
   Applies the replacements. Text and data are rebuilt, but the messages are rewritten in place,
   in the slice that the request's envelope and the returned one share.
   */
  method ApplyReplacements(content: Envelope, replacements: seq<Replacement>) returns (transformed: Envelope)
    requires AllForward(replacements)
    modifies content.messages
    ensures transformed.messages == content.messages
    ensures View(transformed) == RedactedContent(old(View(content)), replacements)
    ensures View(content) == old(View(content)).(messages := View(transformed).messages)
    ensures View(content) == old(View(content)) <==> MessagesKept(old(View(content)), replacements)
  {
    hide RewriteBy, MessagesKept, Grouped, AllForward, MessagePath;
    ghost var before := View(content);
    var byPath := GroupByPath(replacements);
    var text := ApplyAt(byPath, TEXT_PATH, content.text, replacements);
    ghost var after := RedactedContent(before, replacements).messages;
    for i := 0 to content.messages.Length
      invariant forall j :: 0 <= j < i ==> content.messages[j] == after[j]
      invariant forall j :: i <= j < content.messages.Length ==> content.messages[j] == before.messages[j]
    {
      var value := ApplyAt(byPath, MessagePath(i), content.messages[i].content, replacements);
      content.messages[i] := content.messages[i].(content := value);
    }
    assert content.messages[..] == after;
    var data := None;
    if content.data.Some? {
      var value := TransformValue(Obj(content.data.value), DATA_PATH, byPath, replacements);
      data := Some(value.fields);
    }
    transformed := Envelope(content.kind, text, content.messages, data);
    MessagesKeptExactly(before, replacements);
  }

  lemma MessagesKeptExactly(c: Content, replacements: seq<Replacement>)
    ensures RedactedContent(c, replacements).messages == c.messages <==> MessagesKept(c, replacements)
  {
    hide RewriteBy, MessagePath;
    var after := RedactedContent(c, replacements).messages;
    forall i | 0 <= i < |c.messages|
      ensures after[i] == c.messages[i]
         <==> RewriteBy(replacements)(MessagePath(i), c.messages[i].content) == c.messages[i].content
    {
    }
  }

  // ----- Redaction commutes with visiting -----

  ghost function RewrittenLeaves(leaves: seq<Leaf>, replacements: seq<Replacement>): (r: seq<Leaf>)
    ensures |r| == |leaves|
    ensures forall i :: 0 <= i < |r| ==>
      r[i] == Leaf(leaves[i].path, RewriteBy(replacements)(leaves[i].path, leaves[i].text))
  {
    seq(|leaves|, i requires 0 <= i < |leaves| =>
      Leaf(leaves[i].path, RewriteBy(replacements)(leaves[i].path, leaves[i].text)))
  }

  /** Every replacement is for a string that the visitor names. */
  ghost predicate ForLeaves(replacements: seq<Replacement>, leaves: seq<Leaf>) {
    forall r :: r in replacements ==> exists i :: 0 <= i < |leaves| && leaves[i].path == r.path
  }

  lemma NoTextPathElsewhere(c: Content, i: nat)
    requires c.text == "" && i < |StringLeaves(c)|
    ensures StringLeaves(c)[i].path != TEXT_PATH
  {
    var leaf := StringLeaves(c)[i];
    var withText := c.(text := "x");
    PathsNameLeaves(withText);
    assert StringLeaves(withText)[0].path == TEXT_PATH;
    assert StringLeaves(withText)[i + 1] == leaf;
  }

  lemma TextStaysVisible(c: Content, replacements: seq<Replacement>)
    requires AllForward(replacements) && ForLeaves(replacements, StringLeaves(c))
    requires forall r :: r in replacements ==> r.value != ""
    ensures RedactedContent(c, replacements).text == "" <==> c.text == ""
  {
    var items := Recorded(replacements, TEXT_PATH);
    if c.text == "" {
      if items != [] {
        assert items[0] in replacements;
        var i :| 0 <= i < |StringLeaves(c)| && StringLeaves(c)[i].path == items[0].path;
        NoTextPathElsewhere(c, i);
      }
      assert Redacted("", []) == "";
    } else {
      RedactedEmptiness(c.text, items);
    }
  }

  lemma DataCommutes(c: Content, replacements: seq<Replacement>)
    ensures Named(DATA_PATH, DataSpots(RedactedContent(c, replacements).data))
         == RewrittenLeaves(Named(DATA_PATH, DataSpots(c.data)), replacements)
  {
    if c.data.Some? {
      var rewrite := RewriteBy(replacements);
      TransformCommutes(Obj(c.data.value), DATA_PATH, rewrite);
      assert Obj(RedactedContent(c, replacements).data.value)
          == TransformJSONStrings(Obj(c.data.value), DATA_PATH, rewrite);
    }
  }

  lemma TextCommutes(c: Content, replacements: seq<Replacement>)
    requires RedactedContent(c, replacements).text == "" <==> c.text == ""
    ensures TextLeaves(RedactedContent(c, replacements)) == RewrittenLeaves(TextLeaves(c), replacements)
  {
    var d := RedactedContent(c, replacements);
    assert MessageLeaves(d.messages) == RewrittenLeaves(MessageLeaves(c.messages), replacements);
  }

  /**
   Visiting the redacted envelope names the same places in the same order as visiting the
   original, and each string is the old one rewritten by the replacements recorded for its path.
   */
  lemma RedactionCommutesWithVisiting(c: Content, replacements: seq<Replacement>)
    requires AllForward(replacements) && ForLeaves(replacements, StringLeaves(c))
    requires forall r :: r in replacements ==> r.value != ""
    ensures StringLeaves(RedactedContent(c, replacements)) == RewrittenLeaves(StringLeaves(c), replacements)
  {
    TextStaysVisible(c, replacements);
    TextCommutes(c, replacements);
    DataCommutes(c, replacements);
  }

  /** Outside its strings the envelope keeps its kind, roles, keys, shape, numbers, booleans and nulls. */
  lemma RedactionKeepsTheRest(c: Content, replacements: seq<Replacement>)
    ensures var d := RedactedContent(c, replacements);
      && d.kind == c.kind && |d.messages| == |c.messages|
      && (forall i :: 0 <= i < |c.messages| ==> d.messages[i].role == c.messages[i].role)
      && (d.data.Some? <==> c.data.Some?)
      && (c.data.Some? ==> Blanked(Obj(d.data.value)) == Blanked(Obj(c.data.value)))
  {
    if c.data.Some? {
      TransformKeepsShape(Obj(c.data.value), DATA_PATH, RewriteBy(replacements), "");
    }
  }

  // ----- Recording by leaf -----

  /** A span producer for one leaf. */
  type Producer = Leaf -> seq<Replacement>

  ghost predicate OwnPath(produce: Producer, leaf: Leaf) {
    forall r :: r in produce(leaf) ==> r.path == leaf.path
  }

  /** What running a producer over the leaves records. */
  ghost function Produced(leaves: seq<Leaf>, produce: Producer): seq<Replacement> {
    if leaves == [] then [] else Produced(leaves[..|leaves| - 1], produce) + produce(leaves[|leaves| - 1])
  }

  lemma {:induction false} RecordedAll(items: seq<Replacement>, path: string)
    requires forall r :: r in items ==> r.path == path
    ensures Recorded(items, path) == items
  {
    if items != [] {
      var last := |items| - 1;
      assert items == items[..last] + [items[last]];
      RecordedAll(items[..last], path);
    }
  }

  lemma {:induction false} RecordedNone(items: seq<Replacement>, path: string)
    requires forall r :: r in items ==> r.path != path
    ensures Recorded(items, path) == []
  {
    if items != [] {
      var last := |items| - 1;
      assert items[last] in items && forall r :: r in items[..last] ==> r in items;
      RecordedNone(items[..last], path);
    }
  }

  lemma {:induction false} RecordedElsewhere(leaves: seq<Leaf>, produce: Producer, path: string)
    requires forall i :: 0 <= i < |leaves| ==> OwnPath(produce, leaves[i]) && leaves[i].path != path
    ensures Recorded(Produced(leaves, produce), path) == []
  {
    if leaves != [] {
      var last := |leaves| - 1;
      RecordedElsewhere(leaves[..last], produce, path);
      RecordedNone(produce(leaves[last]), path);
      RecordedConcat(Produced(leaves[..last], produce), produce(leaves[last]), path);
    }
  }

  /**
   Because paths name leaves, looking replacements up by path gives back, for each leaf, exactly
   what its own visit recorded: nothing from another leaf and nothing lost.
   */
  lemma {:induction false} LookupFindsOwnRecords(leaves: seq<Leaf>, produce: Producer, i: nat)
    requires DistinctPaths(leaves) && i < |leaves|
    requires forall j :: 0 <= j < |leaves| ==> OwnPath(produce, leaves[j])
    ensures Recorded(Produced(leaves, produce), leaves[i].path) == produce(leaves[i])
  {
    var last := |leaves| - 1;
    RecordedConcat(Produced(leaves[..last], produce), produce(leaves[last]), leaves[i].path);
    if i == last {
      RecordedElsewhere(leaves[..last], produce, leaves[i].path);
      RecordedAll(produce(leaves[i]), leaves[i].path);
    } else {
      LookupFindsOwnRecords(leaves[..last], produce, i);
      assert leaves[..last][i] == leaves[i];
      RecordedNone(produce(leaves[last]), leaves[i].path);
    }
  }

  // ----- When the request itself is left alone -----

  /** Every message is a fixed point of its own redaction. */
  ghost predicate MessagesKept(c: Content, replacements: seq<Replacement>) {
    forall i :: 0 <= i < |c.messages| ==>
      RewriteBy(replacements)(MessagePath(i), c.messages[i].content) == c.messages[i].content
  }

  /** The replacements that apply to message `i`. */
  ghost function ChosenFor(c: Content, replacements: seq<Replacement>, i: nat): seq<Replacement>
    requires i < |c.messages|
  {
    Selected(Recorded(replacements, MessagePath(i)), |c.messages[i].content|)
  }

  /** Some replacement recorded for message `i` fits inside it. */
  ghost predicate Targeted(c: Content, replacements: seq<Replacement>, i: nat)
    requires i < |c.messages|
  {
    exists r :: r in replacements && r.path == MessagePath(i) && InRange(r, |c.messages[i].content|)
  }

  /**
   One pass over the chosen spans that compares the text with itself, moved by what the values so far have
   added: `at` is where the text from `from` on would now begin.
   */
  predicate StaysPut(text: string, sel: seq<Replacement>, from: nat, at: nat)
    requires Chained(sel, from, |text|)
  {
    if sel == [] then at == from
    else
      var gapEnd := at + (sel[0].start - from);
      var next := gapEnd + |sel[0].value|;
      && next <= |text|
      && text[at..gapEnd] == text[from..sel[0].start]
      && text[gapEnd..next] == sel[0].value
      && StaysPut(text, sel[1..], sel[0].end, next)
  }

  lemma {:induction false} StaysPutExact(text: string, sel: seq<Replacement>, from: nat, at: nat)
    requires Chained(sel, from, |text|) && at <= |text|
    ensures StaysPut(text, sel, from, at) <==> Weave(text, sel, from) == text[at..]
  {
    hide StaysPut, Weave;
    if sel == [] {
      StaysPutEnd(text, from, at);
    } else {
      StaysPutStep(text, sel, from, at);
      var next := at + (sel[0].start - from) + |sel[0].value|;
      var woven := Weave(text, sel[1..], sel[0].end);
      if next <= |text| {
        StaysPutExact(text, sel[1..], sel[0].end, next);
        SplitTail(text, text[from..sel[0].start], sel[0].value, woven, at);
      } else {
        assert |text[from..sel[0].start] + sel[0].value + woven| > |text[at..]|;
      }
    }
  }

  lemma StaysPutEnd(text: string, from: nat, at: nat)
    requires Chained([], from, |text|) && at <= |text|
    ensures StaysPut(text, [], from, at) <==> at == from
    ensures Weave(text, [], from) == text[at..] <==> at == from
  {
    assert at != from ==> |text[from..]| != |text[at..]|;
  }

  lemma StaysPutStep(text: string, sel: seq<Replacement>, from: nat, at: nat)
    requires sel != [] && Chained(sel, from, |text|)
    ensures from <= sel[0].start <= sel[0].end <= |text| && Chained(sel[1..], sel[0].end, |text|)
    ensures Weave(text, sel, from)
         == text[from..sel[0].start] + sel[0].value + Weave(text, sel[1..], sel[0].end)
    ensures var gapEnd := at + (sel[0].start - from);
            var next := gapEnd + |sel[0].value|;
            StaysPut(text, sel, from, at) <==>
            (next <= |text| && text[at..gapEnd] == text[from..sel[0].start] && text[gapEnd..next] == sel[0].value
             && StaysPut(text, sel[1..], sel[0].end, next))
  {
  }

  lemma SplitTail(text: string, gap: string, value: string, woven: string, at: nat)
    requires at + |gap| + |value| <= |text|
    ensures var gapEnd, next := at + |gap|, at + |gap| + |value|;
            gap + value + woven == text[at..] <==>
            (text[at..gapEnd] == gap && text[gapEnd..next] == value && woven == text[next..])
  {
    var gapEnd, next := at + |gap|, at + |gap| + |value|;
    assert text[at..] == text[at..gapEnd] + text[gapEnd..next] + text[next..];
    SplitEqual(gap, value, woven, text[at..gapEnd], text[gapEnd..next], text[next..]);
  }

  lemma SplitEqual(a: string, b: string, c: string, x: string, y: string, z: string)
    requires |a| == |x| && |b| == |y|
    ensures a + b + c == x + y + z <==> a == x && b == y && c == z
  {
    var s, t := a + b + c, x + y + z;
    assert s[..|a|] == a && s[|a|..|a| + |b|] == b && s[|a| + |b|..] == c;
    assert t[..|x|] == x && t[|x|..|x| + |y|] == y && t[|x| + |y|..] == z;
  }

  /** Every chosen value is the text it replaces. */
  ghost predicate PutsBack(text: string, sel: seq<Replacement>) {
    forall r :: r in sel ==> 0 <= r.start <= r.end <= |text| && r.value == text[r.start..r.end]
  }

  /** Every chosen value is as long as the text it replaces. */
  ghost predicate SameLengths(sel: seq<Replacement>) {
    forall r :: r in sel ==> |r.value| == r.end - r.start
  }

  /** A replacement value is visible in a message when it holds a byte the message does not. */
  ghost predicate Marks(r: Replacement, text: string) {
    exists k :: 0 <= k < |r.value| && r.value[k] !in text
  }

  /** The rewrite shows in the values: one holds a foreign byte, the length changes, or each fills its span. */
  ghost predicate Telling(text: string, sel: seq<Replacement>) {
    (exists r :: r in sel && Marks(r, text)) || Removed(sel) != Inserted(sel) || SameLengths(sel)
  }

  lemma {:induction false} WeaveHolds(text: string, sel: seq<Replacement>, from: nat, r: Replacement, c: char)
    requires Chained(sel, from, |text|) && r in sel && c in r.value
    ensures c in Weave(text, sel, from)
  {
    if r != sel[0] { WeaveHolds(text, sel[1..], sel[0].end, r, c); }
  }

  lemma {:induction false} PutBackLengths(text: string, sel: seq<Replacement>)
    requires PutsBack(text, sel)
    ensures Removed(sel) == Inserted(sel) && SameLengths(sel)
  {
    if sel != [] {
      assert sel[0] in sel && forall r :: r in sel[1..] ==> r in sel;
      PutBackLengths(text, sel[1..]);
    }
  }

  lemma {:induction false} PutBackStays(text: string, sel: seq<Replacement>, from: nat)
    requires Chained(sel, from, |text|) && SameLengths(sel)
    ensures StaysPut(text, sel, from, from) <==> PutsBack(text, sel)
  {
    hide StaysPut, Weave, PutsBack, SameLengths;
    if sel == [] {
      PutBackNothing(text);
      StaysPutEnd(text, from, from);
    } else {
      var first, rest := sel[0], sel[1..];
      assert sel == [first] + rest;
      SameLengthsCons(first, rest);
      StaysPutStep(text, sel, from, from);
      PutBackStays(text, rest, first.end);
      PutBackCons(text, first, rest);
    }
  }

  lemma PutBackNothing(text: string)
    ensures PutsBack(text, [])
  {
  }

  lemma SameLengthsCons(first: Replacement, rest: seq<Replacement>)
    requires SameLengths([first] + rest)
    ensures |first.value| == first.end - first.start && SameLengths(rest)
  {
    var all := [first] + rest;
    assert first in all && forall r :: r in rest ==> r in all;
  }

  lemma PutBackCons(text: string, first: Replacement, rest: seq<Replacement>)
    requires 0 <= first.start <= first.end <= |text|
    ensures PutsBack(text, [first] + rest) <==> first.value == text[first.start..first.end] && PutsBack(text, rest)
  {
    var all := [first] + rest;
    assert first in all && forall r :: r in all <==> r == first || r in rest;
  }

  /** Putting every value back keeps a text, and where the rewrite shows, nothing else does. */
  lemma KeptWhenPutBack(text: string, sel: seq<Replacement>)
    requires Chained(sel, 0, |text|)
    ensures PutsBack(text, sel) ==> Weave(text, sel, 0) == text
    ensures Telling(text, sel) && Weave(text, sel, 0) == text ==> PutsBack(text, sel)
  {
    assert text[0..] == text;
    StaysPutExact(text, sel, 0, 0);
    WeaveLength(text, sel, 0);
    if PutsBack(text, sel) { PutBackLengths(text, sel); }
    if SameLengths(sel) { PutBackStays(text, sel, 0); }
    if r :| r in sel && Marks(r, text) {
      var k :| 0 <= k < |r.value| && r.value[k] !in text;
      WeaveHolds(text, sel, 0, r, r.value[k]);
    }
  }

  lemma ChosenChained(c: Content, replacements: seq<Replacement>, i: nat)
    requires AllForward(replacements) && i < |c.messages|
    ensures Chained(ChosenFor(c, replacements, i), 0, |c.messages[i].content|)
    ensures RewriteBy(replacements)(MessagePath(i), c.messages[i].content)
         == Weave(c.messages[i].content, ChosenFor(c, replacements, i), 0)
    ensures ChosenFor(c, replacements, i) != [] <==> Targeted(c, replacements, i)
  {
    var items, n := Recorded(replacements, MessagePath(i)), |c.messages[i].content|;
    SelectedChained(items, n);
    if ChosenFor(c, replacements, i) != [] {
      var r := ChosenFor(c, replacements, i)[0];
      assert r in items && InRange(r, n);
    }
    if Targeted(c, replacements, i) {
      var r :| r in replacements && r.path == MessagePath(i) && InRange(r, n);
      GreedyCoverage(items, n, r);
    }
  }

  /** Message `i` passes the one-pass test. */
  ghost predicate PassesAt(c: Content, replacements: seq<Replacement>, i: nat)
    requires AllForward(replacements) && i < |c.messages|
  {
    ChosenChained(c, replacements, i);
    StaysPut(c.messages[i].content, ChosenFor(c, replacements, i), 0, 0)
  }

  lemma MessageKept(c: Content, replacements: seq<Replacement>, i: nat)
    requires AllForward(replacements) && i < |c.messages|
    ensures RewriteBy(replacements)(MessagePath(i), c.messages[i].content) == c.messages[i].content
       <==> PassesAt(c, replacements, i)
    ensures !Targeted(c, replacements, i) ==> PassesAt(c, replacements, i)
  {
    hide RewriteBy, Targeted, ChosenFor;
    var text := c.messages[i].content;
    ChosenChained(c, replacements, i);
    StaysPutExact(text, ChosenFor(c, replacements, i), 0, 0);
    assert text[0..] == text;
  }

  /**
   The detector contract says that redaction does not mutate the request. Exactly when that is so, for all
   replacements: when each message passes a one-pass test that compares its text with itself around the chosen
   spans. A message at which no fitting replacement is aimed always passes.
   */
  lemma RequestKeptExactly(c: Content, replacements: seq<Replacement>)
    requires AllForward(replacements)
    ensures MessagesKept(c, replacements) <==> forall i :: 0 <= i < |c.messages| ==> PassesAt(c, replacements, i)
    ensures (forall i :: 0 <= i < |c.messages| ==> !Targeted(c, replacements, i)) ==> MessagesKept(c, replacements)
  {
    hide RewriteBy, Targeted, PassesAt;
    forall i | 0 <= i < |c.messages|
      ensures RewriteBy(replacements)(MessagePath(i), c.messages[i].content) == c.messages[i].content
         <==> PassesAt(c, replacements, i)
      ensures !Targeted(c, replacements, i) ==> PassesAt(c, replacements, i)
    {
      MessageKept(c, replacements, i);
    }
  }

  /**
   In all but one case the test comes down to the values alone: when a value holds a foreign byte, when the
   message changes in length, or when every value is as long as its span, the request is kept exactly when
   every value put in is the text it replaces.
   */
  lemma RequestKeptWhenPutBack(c: Content, replacements: seq<Replacement>)
    requires AllForward(replacements)
    requires forall i :: 0 <= i < |c.messages| ==> Telling(c.messages[i].content, ChosenFor(c, replacements, i))
    ensures MessagesKept(c, replacements)
       <==> forall i :: 0 <= i < |c.messages| ==> PutsBack(c.messages[i].content, ChosenFor(c, replacements, i))
  {
    hide RewriteBy, ChosenFor, PutsBack, Telling;
    forall i | 0 <= i < |c.messages|
      ensures RewriteBy(replacements)(MessagePath(i), c.messages[i].content) == c.messages[i].content
         <==> PutsBack(c.messages[i].content, ChosenFor(c, replacements, i))
    {
      ChosenChained(c, replacements, i);
      KeptWhenPutBack(c.messages[i].content, ChosenFor(c, replacements, i));
    }
  }

  /** The remaining case is real: values of other lengths can move text around and still spell the same message. */
  lemma ShiftsCanCancel()
    ensures var sel := [Replacement("m", "a", 0, 2), Replacement("m", "aa", 2, 3)];
            Chained(sel, 0, 3) && Weave("aaa", sel, 0) == "aaa" && !PutsBack("aaa", sel) && !Telling("aaa", sel)
  {
    var first, second := Replacement("m", "a", 0, 2), Replacement("m", "aa", 2, 3);
    var sel := [first, second];
    assert sel[1..] == [second] && [second][1..] == [];
    assert "aaa"[0..0] == "" && "aaa"[2..2] == "" && "aaa"[3..] == "";
    assert first in sel && |first.value| != first.end - first.start;
  }

  lemma OneMatch(text: string, r: Replacement)
    requires 0 <= r.start <= r.end <= |text|
    ensures AllForward([r]) && Redacted(text, [r]) == text[..r.start] + r.value + text[r.end..]
  {
    assert [r][1..] == [];
    assert InOrder([r]) == [r];
    assert Select([r], |text|, -1) == [r] + Select([], |text|, r.end) == [r];
    SelectedChained([r], |text|);
    assert Selected([r], |text|) == [r];
    WeaveOfOne(text, r);
  }

  /** The contract fails on one message with one match: the caller's own message is overwritten. */
  method RequestIsMutated() returns (content: Envelope, transformed: Envelope)
    ensures content.messages.Length == 1 && transformed.messages == content.messages
    ensures content.messages[0] == Message("user", "mail <EMAIL>")
  {
    hide Redacted, Recorded, MessagePath, AllForward;
    var before := Message("user", "mail a@b");
    var messages := new Message[1](_ => before);
    content := Envelope("", "", messages, None);
    var r := Replacement(MessagePath(0), "<EMAIL>", 5, 8);
    RecordedAll([r], MessagePath(0));
    OneMatch(before.content, r);
    assert "mail a@b"[..5] + "<EMAIL>" + "mail a@b"[8..] == "mail <EMAIL>";
    ghost var original := View(content);
    assert original.messages[0] == before;
    transformed := ApplyReplacements(content, [r]);
    assert RewriteBy([r])(MessagePath(0), before.content) == "mail <EMAIL>";
    assert content.messages[0] == View(transformed).messages[0] == before.(content := "mail <EMAIL>");
  }
}
