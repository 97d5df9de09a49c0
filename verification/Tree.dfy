/** The strings of an envelope by the steps that lead to them: what visiting finds and what rewriting changes. */
module Tree {
  import opened Common
  import opened Text
  import opened Paths
  import opened Content

  /** The value that following steps from a value leads to. */
  function At(v: Json, steps: seq<Step>): Option<Json>
    decreases |steps|
  {
    if steps == [] then Some(v)
    else
      match steps[0]
      case Key(name) => if v.Obj? && name in v.fields then At(v.fields[name], steps[1..]) else None
      case Index(i) => if v.Arr? && i < |v.items| then At(v.items[i], steps[1..]) else None
  }

  /** Depth first: array items by number, object fields by key. */
  predicate StepBefore(a: Step, b: Step) {
    if a.Index? && b.Index? then a.at < b.at else a.Key? && b.Key? && Less(a.name, b.name)
  }

  predicate StepsBefore(a: seq<Step>, b: seq<Step>) {
    a != [] && b != [] && (StepBefore(a[0], b[0]) || (a[0] == b[0] && StepsBefore(a[1..], b[1..])))
  }

  ghost predicate InDepthFirstOrder(spots: seq<Spot>) {
    forall i, j :: 0 <= i < j < |spots| ==> StepsBefore(spots[i].steps, spots[j].steps)
  }

  // ----- Every string is a spot, and every spot a string -----

  lemma InUnder(step: Step, spots: seq<Spot>, s: Spot)
    ensures s in Under(step, spots) <==> s.steps != [] && s.steps[0] == step && Spot(s.steps[1..], s.text) in spots
  {
    var all := Under(step, spots);
    if s in all {
      var i :| 0 <= i < |all| && all[i] == s;
      assert s.steps[1..] == spots[i].steps;
    }
    if s.steps != [] && s.steps[0] == step && Spot(s.steps[1..], s.text) in spots {
      var i :| 0 <= i < |spots| && spots[i] == Spot(s.steps[1..], s.text);
      assert s.steps == [step] + s.steps[1..];
      assert all[i] == s;
    }
  }

  lemma {:induction false} InItemSpots(v: Json, i: nat, s: Spot)
    requires v.Arr? && i <= |v.items|
    ensures s in ItemSpots(v, i) <==>
            (s.steps != [] && s.steps[0].Index? && i <= s.steps[0].at < |v.items| &&
             Spot(s.steps[1..], s.text) in Spots(v.items[s.steps[0].at]))
    decreases |v.items| - i
  {
    hide Spots, Under;
    if i < |v.items| {
      InItemSpots(v, i + 1, s);
      InUnder(Index(i), Spots(v.items[i]), s);
    }
  }

  lemma {:induction false} InFieldSpots(v: Json, keys: seq<string>, s: Spot)
    requires v.Obj? && HasKeys(v.fields, keys)
    ensures s in FieldSpots(v, keys) <==>
            (s.steps != [] && s.steps[0].Key? && s.steps[0].name in keys &&
             Spot(s.steps[1..], s.text) in Spots(v.fields[s.steps[0].name]))
    decreases |keys|
  {
    hide Spots, Under;
    if keys != [] {
      InFieldSpots(v, keys[1..], s);
      InUnder(Key(keys[0]), Spots(v.fields[keys[0]]), s);
      assert keys == [keys[0]] + keys[1..];
    }
  }

  /** The spots of a value are exactly the strings that following steps from it leads to. */
  lemma {:induction false} SpotsExact(v: Json, s: Spot)
    ensures s in Spots(v) <==> At(v, s.steps) == Some(Str(s.text))
    decreases |s.steps|
  {
    hide ItemSpots, FieldSpots;
    match v
    case Str(_) => assert s.steps == [] || At(v, s.steps) == None;
    case Arr(items) =>
      InItemSpots(v, 0, s);
      if s.steps != [] && s.steps[0].Index? && s.steps[0].at < |items| {
        SpotsExact(items[s.steps[0].at], Spot(s.steps[1..], s.text));
      }
    case Obj(fields) =>
      InFieldSpots(v, SortedKeys(fields.Keys), s);
      if s.steps != [] && s.steps[0].Key? && s.steps[0].name in fields {
        SpotsExact(fields[s.steps[0].name], Spot(s.steps[1..], s.text));
      }
    case _ =>
  }

  // ----- In order -----

  lemma UnderInOrder(step: Step, spots: seq<Spot>, others: seq<Spot>)
    requires InDepthFirstOrder(spots) && InDepthFirstOrder(others)
    requires forall s :: s in others ==> s.steps != [] && StepBefore(step, s.steps[0])
    ensures InDepthFirstOrder(Under(step, spots) + others)
  {
    hide StepBefore;
    var all := Under(step, spots) + others;
    forall i, j | 0 <= i < j < |all| ensures StepsBefore(all[i].steps, all[j].steps) {
      if j < |spots| {
        assert all[i].steps[1..] == spots[i].steps && all[j].steps[1..] == spots[j].steps;
      } else if i < |spots| {
        assert all[j] == others[j - |spots|] && all[j] in others;
      }
    }
  }

  /** The spots of a value come depth first, array items by number and object fields by key. */
  lemma {:induction false} SpotsInOrder(v: Json)
    ensures InDepthFirstOrder(Spots(v))
    decreases v, 1, 0
  {
    match v
    case Str(_) =>
    case Arr(items) => ItemSpotsInOrder(v, 0);
    case Obj(fields) => FieldSpotsInOrder(v, SortedKeys(fields.Keys));
    case _ =>
  }

  lemma {:induction false} ItemSpotsInOrder(v: Json, i: nat)
    requires v.Arr? && i <= |v.items|
    ensures InDepthFirstOrder(ItemSpots(v, i))
    decreases v, 0, |v.items| - i
  {
    hide InDepthFirstOrder, Spots;
    if i < |v.items| {
      SpotsInOrder(v.items[i]);
      ItemSpotsInOrder(v, i + 1);
      forall s | s in ItemSpots(v, i + 1) ensures s.steps != [] && StepBefore(Index(i), s.steps[0]) {
        InItemSpots(v, i + 1, s);
      }
      UnderInOrder(Index(i), Spots(v.items[i]), ItemSpots(v, i + 1));
    } else {
      NothingInOrder();
    }
  }

  lemma NothingInOrder()
    ensures InDepthFirstOrder([])
  {
  }

  lemma {:induction false} FieldSpotsInOrder(v: Json, keys: seq<string>)
    requires v.Obj? && HasKeys(v.fields, keys) && Ordered(keys)
    ensures InDepthFirstOrder(FieldSpots(v, keys))
    decreases v, 0, |keys|
  {
    hide InDepthFirstOrder, Spots;
    if keys != [] {
      SpotsInOrder(v.fields[keys[0]]);
      FieldSpotsInOrder(v, keys[1..]);
      forall s | s in FieldSpots(v, keys[1..]) ensures s.steps != [] && StepBefore(Key(keys[0]), s.steps[0]) {
        InFieldSpots(v, keys[1..], s);
        var k :| 0 <= k < |keys[1..]| && keys[1..][k] == s.steps[0].name;
        assert keys[k + 1] == s.steps[0].name;
      }
      UnderInOrder(Key(keys[0]), Spots(v.fields[keys[0]]), FieldSpots(v, keys[1..]));
    } else {
      NothingInOrder();
    }
  }

  // ----- The leaves of an envelope -----

  /** The steps lead to this string inside the data of an envelope. */
  predicate InData(c: Content, steps: seq<Step>, text: string) {
    c.data.Some? && At(Obj(c.data.value), steps) == Some(Str(text))
  }

  ghost predicate IsDataLeaf(c: Content, leaf: Leaf) {
    exists steps :: InData(c, steps, leaf.text) && leaf.path == Render("content.data", steps)
  }

  ghost predicate IsMessageLeaf(c: Content, leaf: Leaf) {
    exists i: nat :: i < |c.messages| && leaf == Leaf(MessagePath(i), c.messages[i].content)
  }

  lemma DataLeafExact(c: Content, leaf: Leaf)
    ensures leaf in Named(DATA_PATH, DataSpots(c.data)) <==> IsDataLeaf(c, leaf)
  {
    hide Spots, At, Render;
    var spots := DataSpots(c.data);
    var leaves := Named(DATA_PATH, spots);
    if leaf in leaves {
      var k :| 0 <= k < |leaves| && leaves[k] == leaf;
      assert spots[k] in spots;
      SpotsExact(Obj(c.data.value), spots[k]);
      assert InData(c, spots[k].steps, leaf.text);
    }
    if steps :| InData(c, steps, leaf.text) && leaf.path == Render("content.data", steps) {
      SpotsExact(Obj(c.data.value), Spot(steps, leaf.text));
      var k :| 0 <= k < |spots| && spots[k] == Spot(steps, leaf.text);
      assert leaves[k] == leaf;
    }
  }

  /**
   What visiting an envelope calls for: its text unless empty, every message, and every string in its data,
   each under its own printed path, and nothing else.
   */
  lemma StringLeavesExact(c: Content, leaf: Leaf)
    ensures leaf in StringLeaves(c) <==>
            ((c.text != "" && leaf == Leaf("content.text", c.text)) || IsMessageLeaf(c, leaf) || IsDataLeaf(c, leaf))
    ensures leaf in TextLeaves(c) <==>
            ((c.text != "" && leaf == Leaf("content.text", c.text)) || IsMessageLeaf(c, leaf))
  {
    hide MessagePath, Named, DataSpots, IsDataLeaf;
    DataLeafExact(c, leaf);
    var messages := MessageLeaves(c.messages);
    if leaf in messages {
      var i :| 0 <= i < |messages| && messages[i] == leaf;
    }
    if i: nat :| i < |c.messages| && leaf == Leaf(MessagePath(i), c.messages[i].content) {
      assert messages[i] == leaf;
    }
  }

  function TextCount(c: Content): nat {
    if c.text != "" then 1 else 0
  }

  /** The list starts with the text, unless empty, and the messages by number. */
  ghost predicate StartsWithTexts(leaves: seq<Leaf>, c: Content) {
    && TextCount(c) + |c.messages| <= |leaves|
    && (c.text != "" ==> leaves[0] == Leaf("content.text", c.text))
    && forall i :: 0 <= i < |c.messages| ==> leaves[TextCount(c) + i] == Leaf(MessagePath(i), c.messages[i].content)
  }

  /** From an index on, the list goes on with the strings of the data. */
  ghost predicate EndsWithData(leaves: seq<Leaf>, from: nat, spots: seq<Spot>) {
    && |leaves| == from + |spots|
    && forall k :: 0 <= k < |spots| ==> leaves[from + k] == Leaf(Render("content.data", spots[k].steps), spots[k].text)
  }

  /** And in which order: the text, the messages by number, the data depth first. */
  lemma StringLeavesInOrder(c: Content)
    ensures StartsWithTexts(StringLeaves(c), c)
    ensures EndsWithData(StringLeaves(c), TextCount(c) + |c.messages|, DataSpots(c.data))
    ensures InDepthFirstOrder(DataSpots(c.data))
  {
    hide StartsWithTexts, EndsWithData, DataSpots, InDepthFirstOrder, TextLeaves, Named;
    DataSpotsInOrder(c);
    TextLeavesStart(c);
    TextsGoOn(TextLeaves(c), Named(DATA_PATH, DataSpots(c.data)), c);
    DataFollows(TextLeaves(c), DataSpots(c.data));
  }

  lemma TextLeavesStart(c: Content)
    ensures StartsWithTexts(TextLeaves(c), c) && |TextLeaves(c)| == TextCount(c) + |c.messages|
  {
    hide MessagePath;
  }

  lemma TextsGoOn(a: seq<Leaf>, b: seq<Leaf>, c: Content)
    requires StartsWithTexts(a, c)
    ensures StartsWithTexts(a + b, c)
  {
    hide MessagePath;
  }

  lemma DataFollows(a: seq<Leaf>, spots: seq<Spot>)
    ensures EndsWithData(a + Named(DATA_PATH, spots), |a|, spots)
  {
    hide Render;
  }

  lemma DataSpotsInOrder(c: Content)
    ensures InDepthFirstOrder(DataSpots(c.data))
  {
    hide Spots;
    if c.data.Some? { SpotsInOrder(Obj(c.data.value)); } else { NothingInOrder(); }
  }

  // ----- What rewriting changes -----

  /** The same value but for its strings: the same scalar, as many items, the same keys. */
  predicate SameButText(x: Json, y: Json) {
    match x
    case Str(_) => y.Str?
    case Arr(items) => y.Arr? && |y.items| == |items|
    case Obj(fields) => y.Obj? && y.fields.Keys == fields.Keys
    case _ => y == x
  }

  /**
   Rewriting, step by step: wherever steps lead in the value they lead in the rewritten one, and nowhere else;
   to the old string rewritten under the path printed for it, to the same number, boolean or null, to an array
   of as many items, to an object with the same keys.
   */
  lemma {:induction false} TransformAt(v: Json, path: string, apply: Rewrite, steps: seq<Step>)
    ensures var before, after := At(v, steps), At(TransformJSONStrings(v, path, apply), steps);
            && (before.Some? <==> after.Some?)
            && (before.Some? ==> SameButText(before.value, after.value))
            && (before.Some? && before.value.Str? ==>
                  after.value.text == apply(Render(path, steps), before.value.text))
    decreases |steps|
  {
    if steps != [] {
      match steps[0]
      case Key(name) =>
        if v.Obj? && name in v.fields { TransformAt(v.fields[name], ChildPath(path, name), apply, steps[1..]); }
      case Index(i) =>
        if v.Arr? && i < |v.items| { TransformAt(v.items[i], IndexPath(path, i), apply, steps[1..]); }
    }
  }

  // ----- The printed form -----

  lemma PrintsTwo(path: string, a: Step, b: Step, between: string, whole: string)
    requires Extend(path, a) == between && Extend(between, b) == whole
    ensures Render(path, [a, b]) == whole
  {
    hide Extend;
    assert [a, b][1..] == [b] && [b][1..] == [];
    assert Render(path, [a, b]) == Render(between, [b]);
    assert Render(between, [b]) == Render(whole, []);
  }

  lemma PrintsPlain(path: string, key: string)
    requires IsIdentifier(key)
    ensures Extend(path, Key(key)) == path + "." + key
  {
  }

  lemma PrintsQuoted(path: string, key: string)
    requires !IsIdentifier(key)
    ensures Extend(path, Key(key)) == path + "[" + Quoted(key) + "]"
  {
    hide Quoted;
  }

  /** For instance, identifier keys plain and all others quoted: */
  lemma PrintedPaths()
    ensures Render("content.data", [Key("tags"), Index(10)]) == "content.data.tags[10]"
    ensures Render("content.data", [Key("_x1"), Key("1a")]) == "content.data._x1[\"1a\"]"
    ensures Render("content.data", [Key(""), Key("a-b")]) == "content.data[\"\"][\"a-b\"]"
    ensures Extend("content.data", Key("a\"b\\")) == "content.data[\"a\\\"b\\\\\"]"
    ensures MessagePath(12) == "content.messages[12].content"
  {
    hide *;
    PrintedIndex();
    PrintedDigit();
    PrintedEmpty();
    PrintedQuotes();
    PrintedMessage();
  }

  lemma PrintedIndex()
    ensures Render("content.data", [Key("tags"), Index(10)]) == "content.data.tags[10]"
  {
    hide Render, Extend, Decimal, IsIdentifier;
    PlainExamples();
    Decimals();
    PrintsPlain("content.data", "tags");
    PrintsIndex("content.data.tags", 10);
    PrintsTwo("content.data", Key("tags"), Index(10), "content.data.tags", "content.data.tags[10]");
  }

  lemma PrintedDigit()
    ensures Render("content.data", [Key("_x1"), Key("1a")]) == "content.data._x1[\"1a\"]"
  {
    hide Render, Extend, Quoted, IsIdentifier;
    PlainExamples();
    QuotedExamples();
    PrintsPlain("content.data", "_x1");
    PrintsQuoted("content.data._x1", "1a");
    assert "content.data._x1" + "[" + "\"1a\"" + "]" == "content.data._x1[\"1a\"]";
    PrintsTwo("content.data", Key("_x1"), Key("1a"), "content.data._x1", "content.data._x1[\"1a\"]");
  }

  lemma PrintedEmpty()
    ensures Render("content.data", [Key(""), Key("a-b")]) == "content.data[\"\"][\"a-b\"]"
  {
    hide Render, Extend, Quoted, IsIdentifier;
    PlainExamples();
    QuotedExamples();
    PrintsQuoted("content.data", "");
    assert "content.data" + "[" + "\"\"" + "]" == "content.data[\"\"]";
    PrintsQuoted("content.data[\"\"]", "a-b");
    assert "content.data[\"\"]" + "[" + "\"a-b\"" + "]" == "content.data[\"\"][\"a-b\"]";
    PrintsTwo("content.data", Key(""), Key("a-b"), "content.data[\"\"]", "content.data[\"\"][\"a-b\"]");
  }

  lemma PrintedQuotes()
    ensures Extend("content.data", Key("a\"b\\")) == "content.data[\"a\\\"b\\\\\"]"
  {
    hide Extend, Quoted, IsIdentifier;
    PlainExamples();
    QuotedExamples();
    PrintsQuoted("content.data", "a\"b\\");
    assert "content.data" + "[" + "\"a\\\"b\\\\\"" + "]" == "content.data[\"a\\\"b\\\\\"]";
  }

  lemma PrintedMessage()
    ensures MessagePath(12) == "content.messages[12].content"
  {
    hide Decimal;
    Decimals();
  }

  lemma PrintsIndex(path: string, i: nat)
    ensures Extend(path, Index(i)) == path + "[" + Decimal(i) + "]"
  {
    hide Decimal;
  }

  lemma PlainExamples()
    ensures IsIdentifier("tags") && IsIdentifier("_x1")
    ensures !IsIdentifier("1a") && !IsIdentifier("") && !IsIdentifier("a-b") && !IsIdentifier("a\"b\\")
  {
    assert "1a"[0] == '1' && "a-b"[1] == '-' && "a\"b\\"[1] == '\"';
  }

  lemma QuotedExamples()
    ensures Quoted("1a") == "\"1a\"" && Quoted("") == "\"\"" && Quoted("a-b") == "\"a-b\""
    ensures Quoted("a\"b\\") == "\"a\\\"b\\\\\""
  {
    hide EscapeAll;
    QuotedPlain("1a");
    QuotedPlain("");
    QuotedPlain("a-b");
    QuotedEscapes();
  }

  lemma Decimals()
    ensures Decimal(10) == "10" && Decimal(12) == "12"
  {
    assert Decimal(1) == "1";
  }

  lemma {:induction false} QuotedPlain(s: string)
    requires forall i :: 0 <= i < |s| ==> ' ' <= s[i] <= '~' && s[i] != QUOTE && s[i] != BACKSLASH
    ensures EscapeAll(s) == s
  {
    if s != [] {
      QuotedPlain(s[1..]);
      assert EscapeByte(s[0]) == [s[0]];
      assert s == [s[0]] + s[1..];
    }
  }

  lemma QuotedEscapes()
    ensures Quoted("a\"b\\") == "\"a\\\"b\\\\\""
  {
    var s := "a\"b\\";
    assert s[1..] == "\"b\\" && s[1..][1..] == "b\\" && s[1..][1..][1..] == "\\" && s[1..][1..][1..][1..] == [];
    assert EscapeAll("\\") == "\\\\" + EscapeAll([]) == "\\\\";
    assert EscapeAll("b\\") == "b" + "\\\\";
    assert EscapeAll("\"b\\") == "\\\"" + ("b" + "\\\\");
    assert EscapeAll(s) == "a" + ("\\\"" + ("b" + "\\\\"));
  }

  /** Control characters are quoted by their short escapes or in hexadecimal. */
  lemma ControlEscapes()
    ensures EscapeByte('\t') == "\\t" && EscapeByte('\n') == "\\n" && EscapeByte('\r') == "\\r"
    ensures EscapeByte(7 as char) == "\\a" && EscapeByte(8 as char) == "\\b"
    ensures EscapeByte(11 as char) == "\\v" && EscapeByte(12 as char) == "\\f"
    ensures EscapeByte(0 as char) == "\\x00" && EscapeByte(27 as char) == "\\x1b" && EscapeByte(127 as char) == "\\x7f"
  {
  }

  /** A key is printed plain exactly when it starts with a letter or `_` and goes on with those and digits. */
  lemma PlainKeys(parent: string, key: string)
    ensures ChildPath(parent, key) == parent + "." + key <==>
            (key != "" && !IsDigit(key[0]) &&
             forall i :: 0 <= i < |key| ==> key[i] == '_' || IsDigit(key[i]) || IsLetter(key[i]))
  {
    if !IsIdentifier(key) {
      assert ChildPath(parent, key)[|parent|] == '[';
      assert (parent + "." + key)[|parent|] == '.';
    }
  }

  predicate IsLetter(c: char) {
    'a' <= c <= 'z' || 'A' <= c <= 'Z'
  }
}
