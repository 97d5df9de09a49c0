/** The content envelope, its JSON tree, and the walk that names every string leaf. */
module Content {
  import opened Common
  import opened Text
  import opened Paths

  /** A decoded JSON value. */
  datatype Json =
    | Null
    | Bool(truth: bool)
    | Numeral(literal: string)
    | Str(text: string)
    | Arr(items: seq<Json>)
    | Obj(fields: map<string, Json>)

  datatype Message = Message(role: string, content: string)

  /** The envelope as the program holds it: a struct whose message slice is shared by every copy. */
  datatype Envelope = Envelope(kind: string, text: string, messages: array<Message>, data: Option<map<string, Json>>)

  /** The value an envelope has at one moment. */
  datatype Content = Content(kind: string, text: string, messages: seq<Message>, data: Option<map<string, Json>>)

  function View(e: Envelope): Content
    reads e.messages
  {
    Content(e.kind, e.text, e.messages[..], e.data)
  }

  /** One call of a visitor: the path of a string leaf and the string. */
  datatype Leaf = Leaf(path: string, text: string)

  const TEXT_PATH: string := "content.text"
  const DATA_PATH: string := "content.data"

  function MessagePath(i: nat): string {
    "content.messages[" + Decimal(i) + "].content"
  }

  // ----- Keys in order -----

  ghost predicate IsLeast(least: string, keys: set<string>) {
    least in keys && forall k :: k in keys && k != least ==> Less(least, k)
  }

  lemma {:induction false} LeastExists(keys: set<string>) returns (least: string)
    requires keys != {}
    ensures IsLeast(least, keys)
  {
    var k :| k in keys;
    var others := keys - {k};
    if others == {} {
      least := k;
      assert keys == {k};
    } else {
      var next := LeastExists(others);
      LessIsTotal(k, next);
      if Less(k, next) {
        least := k;
        forall other | other in keys && other != k ensures Less(k, other) {
          if other != next { LessIsTransitive(k, next, other); }
        }
      } else {
        least := next;
      }
    }
  }

  ghost function Least(keys: set<string>): (least: string)
    requires keys != {}
    ensures IsLeast(least, keys)
  {
    assert exists least :: IsLeast(least, keys) by { var least := LeastExists(keys); }
    var least :| IsLeast(least, keys);
    least
  }

  ghost predicate Ordered(s: seq<string>) {
    forall i, j :: 0 <= i < j < |s| ==> Less(s[i], s[j])
  }

  /** `sort.Strings` of the keys of a map. */
  ghost function SortedKeys(keys: set<string>): (s: seq<string>)
    ensures forall k :: k in s <==> k in keys
    ensures Ordered(s)
  {
    if keys == {} then [] else [Least(keys)] + SortedKeys(keys - {Least(keys)})
  }

  lemma SameElementsSameEmptiness(a: seq<string>, b: seq<string>)
    requires forall k :: k in a <==> k in b
    ensures a == [] <==> b == []
  {
    if a != [] { assert a[0] in b; }
    if b != [] { assert b[0] in a; }
  }

  lemma {:induction false} SortedKeysUnique(a: seq<string>, b: seq<string>)
    requires forall k :: k in a <==> k in b
    requires Ordered(a)
    requires Ordered(b)
    ensures a == b
  {
    SameElementsSameEmptiness(a, b);
    if a != [] {
      assert a[0] in b;
      assert b[0] in a;
      if a[0] != b[0] { LessIsStrict(a[0], b[0]); }
      forall k ensures k in a[1..] <==> k in b[1..] {
        if k in a[1..] { LessIsStrict(a[0], k); assert k in b; }
        if k in b[1..] { LessIsStrict(b[0], k); assert k in a; }
      }
      SortedKeysUnique(a[1..], b[1..]);
      assert a == [a[0]] + a[1..] && b == [b[0]] + b[1..];
    }
  }

  /** Puts one key where it belongs among sorted keys. */
  method InsertKey(sorted: seq<string>, key: string) returns (result: seq<string>)
    requires Ordered(sorted)
    requires key !in sorted
    ensures forall k :: k in result <==> k == key || k in sorted
    ensures Ordered(result)
  {
    var at := 0;
    while at < |sorted| && Less(sorted[at], key)
      invariant at <= |sorted|
      invariant forall i :: 0 <= i < at ==> Less(sorted[i], key)
    {
      at := at + 1;
    }
    result := sorted[..at] + [key] + sorted[at..];
    forall i | at <= i < |sorted| ensures Less(key, sorted[i]) {
      LessIsTotal(key, sorted[at]);
      if at < i { LessIsTransitive(key, sorted[at], sorted[i]); }
    }
    assert sorted == sorted[..at] + sorted[at..];
  }

  /** Collects the keys of a map in whatever order the runtime yields them, sorted. */
  method SortKeys(fields: map<string, Json>) returns (keys: seq<string>)
    ensures keys == SortedKeys(fields.Keys)
  {
    keys := [];
    var left := fields.Keys;
    while left != {}
      invariant left <= fields.Keys
      invariant forall k :: k in keys <==> k in fields.Keys - left
      invariant Ordered(keys)
      decreases left
    {
      var key :| key in left;
      keys := InsertKey(keys, key);
      left := left - {key};
    }
    SortedKeysUnique(keys, SortedKeys(fields.Keys));
  }

  // ----- The leaves of a value, by position -----

  /** A string leaf and the steps that lead to it. */
  datatype Spot = Spot(steps: seq<Step>, text: string)

  ghost function Under(step: Step, spots: seq<Spot>): (s: seq<Spot>)
    ensures |s| == |spots|
    ensures forall i :: 0 <= i < |s| ==> s[i] == Spot([step] + spots[i].steps, spots[i].text)
  {
    seq(|spots|, i requires 0 <= i < |spots| => Spot([step] + spots[i].steps, spots[i].text))
  }

  /** The string leaves of a value, depth first, with object keys in order. */
  ghost function Spots(v: Json): seq<Spot>
    decreases v, 1, 0
  {
    match v
    case Str(text) => [Spot([], text)]
    case Arr(items) => ItemSpots(v, 0)
    case Obj(fields) => FieldSpots(v, SortedKeys(fields.Keys))
    case _ => []
  }

  ghost function ItemSpots(v: Json, i: nat): seq<Spot>
    requires v.Arr? && i <= |v.items|
    decreases v, 0, |v.items| - i
  {
    if i == |v.items| then [] else Under(Index(i), Spots(v.items[i])) + ItemSpots(v, i + 1)
  }

  predicate HasKeys(fields: map<string, Json>, keys: seq<string>) {
    forall k :: k in keys ==> k in fields
  }

  ghost function FieldSpots(v: Json, keys: seq<string>): seq<Spot>
    requires v.Obj? && HasKeys(v.fields, keys)
    decreases v, 0, |keys|
  {
    if keys == [] then [] else Under(Key(keys[0]), Spots(v.fields[keys[0]])) + FieldSpots(v, keys[1..])
  }

  ghost predicate DistinctSteps(spots: seq<Spot>) {
    forall i, j :: 0 <= i < j < |spots| ==> spots[i].steps != spots[j].steps
  }

  /** No two string leaves of a value are at the same position. */
  lemma {:induction false} SpotsDistinct(v: Json)
    ensures DistinctSteps(Spots(v))
    decreases v, 1, 0
  {
    match v
    case Str(_) =>
    case Arr(items) => ItemSpotsDistinct(v, 0);
    case Obj(fields) => LessNeverEqual(SortedKeys(fields.Keys)); FieldSpotsDistinct(v, SortedKeys(fields.Keys));
    case _ =>
  }

  lemma LessNeverEqual(keys: seq<string>)
    requires Ordered(keys)
    ensures Distinct(keys)
  {
    forall i, j | 0 <= i < j < |keys| ensures keys[i] != keys[j] {
      LessIsStrict(keys[i], keys[j]);
    }
  }

  lemma {:induction false} ItemSpotsDistinct(v: Json, i: nat)
    requires v.Arr? && i <= |v.items|
    ensures DistinctSteps(ItemSpots(v, i))
    ensures forall s :: s in ItemSpots(v, i) ==> s.steps != [] && s.steps[0].Index? && i <= s.steps[0].at
    decreases v, 0, |v.items| - i
  {
    if i < |v.items| {
      SpotsDistinct(v.items[i]);
      ItemSpotsDistinct(v, i + 1);
      UnderDistinct(Index(i), Spots(v.items[i]), ItemSpots(v, i + 1));
    }
  }

  lemma {:induction false} FieldSpotsDistinct(v: Json, keys: seq<string>)
    requires v.Obj? && Distinct(keys) && HasKeys(v.fields, keys)
    ensures DistinctSteps(FieldSpots(v, keys))
    ensures forall s :: s in FieldSpots(v, keys) ==> s.steps != [] && s.steps[0].Key? && s.steps[0].name in keys
    decreases v, 0, |keys|
  {
    if keys != [] {
      SpotsDistinct(v.fields[keys[0]]);
      FieldSpotsDistinct(v, keys[1..]);
      UnderDistinct(Key(keys[0]), Spots(v.fields[keys[0]]), FieldSpots(v, keys[1..]));
    }
  }

  /** Leaves under one step differ from each other and from leaves that start with other steps. */
  lemma UnderDistinct(step: Step, spots: seq<Spot>, others: seq<Spot>)
    requires DistinctSteps(spots) && DistinctSteps(others)
    requires forall s :: s in others ==> s.steps != [] && s.steps[0] != step
    ensures DistinctSteps(Under(step, spots) + others)
  {
    var all := Under(step, spots) + others;
    forall i, j | 0 <= i < j < |all| ensures all[i].steps != all[j].steps {
      if j < |spots| {
        assert all[i].steps[1..] == spots[i].steps && all[j].steps[1..] == spots[j].steps;
      } else if i < |spots| {
        assert all[i].steps[0] == step;
        assert all[j] in others;
      }
    }
  }

  // ----- The visitors -----

  /** The calls that visiting a value's leaves makes, given the path of the value. */
  ghost function Named(path: string, spots: seq<Spot>): (leaves: seq<Leaf>)
    ensures |leaves| == |spots|
    ensures forall i :: 0 <= i < |leaves| ==> leaves[i] == Leaf(Render(path, spots[i].steps), spots[i].text)
  {
    seq(|spots|, i requires 0 <= i < |spots| => Leaf(Render(path, spots[i].steps), spots[i].text))
  }

  lemma NamedUnder(path: string, step: Step, spots: seq<Spot>, others: seq<Spot>)
    ensures Named(path, Under(step, spots) + others) == Named(Extend(path, step), spots) + Named(path, others)
  {
    var all := Under(step, spots) + others;
    forall i | 0 <= i < |spots| ensures Render(path, all[i].steps) == Render(Extend(path, step), spots[i].steps) {
      assert all[i].steps[1..] == spots[i].steps;
    }
  }

  lemma NextItem(v: Json, path: string, i: nat)
    requires v.Arr? && i < |v.items|
    ensures Named(path, ItemSpots(v, i))
         == Named(IndexPath(path, i), Spots(v.items[i])) + Named(path, ItemSpots(v, i + 1))
  {
    NamedUnder(path, Index(i), Spots(v.items[i]), ItemSpots(v, i + 1));
  }

  lemma NextField(v: Json, path: string, keys: seq<string>)
    requires v.Obj? && keys != [] && HasKeys(v.fields, keys)
    ensures Named(path, FieldSpots(v, keys))
         == Named(ChildPath(path, keys[0]), Spots(v.fields[keys[0]])) + Named(path, FieldSpots(v, keys[1..]))
  {
    NamedUnder(path, Key(keys[0]), Spots(v.fields[keys[0]]), FieldSpots(v, keys[1..]));
  }

  lemma NothingLeft(v: Json, path: string)
    ensures v.Arr? ==> Named(path, ItemSpots(v, |v.items|)) == []
    ensures v.Obj? ==> Named(path, FieldSpots(v, [])) == []
  {
  }

  /** Visits the string leaves of a value, extending the printed path on the way down. */
  method VisitJSONStrings(v: Json, path: string) returns (calls: seq<Leaf>)
    ensures calls == Named(path, Spots(v))
    decreases v, 1
  {
    match v {
      case Str(text) => calls := [Leaf(path, text)];
      case Arr(items) => calls := VisitItems(v, path);
      case Obj(fields) => calls := VisitFields(v, path);
      case _ => calls := [];
    }
  }

  method VisitItems(v: Json, path: string) returns (calls: seq<Leaf>)
    requires v.Arr?
    ensures calls == Named(path, ItemSpots(v, 0))
    decreases v, 0
  {
    hide Spots, ItemSpots, IndexPath, Named;
    calls := [];
    NothingLeft(v, path);
    for i := 0 to |v.items|
      invariant calls + Named(path, ItemSpots(v, i)) == Named(path, ItemSpots(v, 0))
    {
      NextItem(v, path, i);
      var below := VisitJSONStrings(v.items[i], IndexPath(path, i));
      calls := calls + below;
    }
  }

  method VisitFields(v: Json, path: string) returns (calls: seq<Leaf>)
    requires v.Obj?
    ensures calls == Named(path, FieldSpots(v, SortedKeys(v.fields.Keys)))
    decreases v, 0
  {
    hide Spots, FieldSpots, ChildPath, Named;
    calls := [];
    NothingLeft(v, path);
    var keys := SortKeys(v.fields);
    ghost var all := Named(path, FieldSpots(v, keys));
    ghost var left := keys;
    for i := 0 to |keys|
      invariant left == keys[i..] && HasKeys(v.fields, left)
      invariant calls + Named(path, FieldSpots(v, left)) == all
    {
      var key := keys[i];
      assert key == left[0];
      var below := VisitJSONStrings(v.fields[key], ChildPath(path, key));
      NextField(v, path, left);
      calls, left := calls + below, left[1..];
    }
  }

  ghost function TextLeaves(c: Content): seq<Leaf> {
    (if c.text != "" then [Leaf(TEXT_PATH, c.text)] else []) + MessageLeaves(c.messages)
  }

  ghost function MessageLeaves(messages: seq<Message>): (leaves: seq<Leaf>)
    ensures |leaves| == |messages|
    ensures forall i :: 0 <= i < |leaves| ==> leaves[i] == Leaf(MessagePath(i), messages[i].content)
  {
    seq(|messages|, i requires 0 <= i < |messages| => Leaf(MessagePath(i), messages[i].content))
  }

  ghost function DataSpots(data: Option<map<string, Json>>): seq<Spot> {
    if data.None? then [] else Spots(Obj(data.value))
  }

  ghost function StringLeaves(c: Content): seq<Leaf> {
    TextLeaves(c) + Named(DATA_PATH, DataSpots(c.data))
  }

  method VisitText(c: Content) returns (calls: seq<Leaf>)
    ensures calls == TextLeaves(c)
  {
    calls := if c.text != "" then [Leaf(TEXT_PATH, c.text)] else [];
    ghost var first := calls;
    for i := 0 to |c.messages|
      invariant calls == first + MessageLeaves(c.messages)[..i]
    {
      calls := calls + [Leaf(MessagePath(i), c.messages[i].content)];
    }
  }

  method VisitStrings(c: Content) returns (calls: seq<Leaf>)
    ensures calls == StringLeaves(c)
  {
    calls := VisitText(c);
    if c.data.Some? {
      var below := VisitJSONStrings(Obj(c.data.value), DATA_PATH);
      calls := calls + below;
    }
  }

  // ----- Paths name leaves -----

  ghost predicate DistinctPaths(leaves: seq<Leaf>) {
    forall i, j :: 0 <= i < j < |leaves| ==> leaves[i].path != leaves[j].path
  }

  lemma DataPathsDistinct(spots: seq<Spot>)
    requires DistinctSteps(spots)
    ensures DistinctPaths(Named(DATA_PATH, spots))
    ensures forall i :: 0 <= i < |spots| ==> DATA_PATH <= Named(DATA_PATH, spots)[i].path
  {
    var leaves := Named(DATA_PATH, spots);
    forall i | 0 <= i < |leaves| ensures DATA_PATH <= leaves[i].path {
      RenderAppends(DATA_PATH, spots[i].steps);
    }
    forall i, j | 0 <= i < j < |leaves| ensures leaves[i].path != leaves[j].path {
      if leaves[i].path == leaves[j].path { PathInjective(DATA_PATH, spots[i].steps, spots[j].steps); }
    }
  }

  lemma TextPathsDistinct(c: Content)
    ensures DistinctPaths(TextLeaves(c))
    ensures forall i :: 0 <= i < |TextLeaves(c)| ==> |TextLeaves(c)[i].path| > 8 && TextLeaves(c)[i].path[8] != 'd'
  {
    hide MessagePath;
    var leaves := TextLeaves(c);
    var t := if c.text != "" then 1 else 0;
    TextPathKind();
    forall i | 0 <= i < |leaves|
      ensures leaves[i].path == if i < t then TEXT_PATH else MessagePath(i - t)
      ensures |leaves[i].path| > 8 && leaves[i].path[8] == if i < t then 't' else 'm'
    {
      if t <= i { MessagePathKind(i - t); }
    }
    forall i, j | 0 <= i < j < |leaves| ensures leaves[i].path != leaves[j].path {
      if t <= i && leaves[i].path == leaves[j].path { MessagePathInjective(i - t, j - t); }
    }
  }

  lemma TextPathKind()
    ensures |TEXT_PATH| > 8 && TEXT_PATH[8] == 't'
  {
  }

  lemma MessagePathKind(i: nat)
    ensures |MessagePath(i)| > 8 && MessagePath(i)[8] == 'm'
  {
    hide Decimal;
    assert "content.messages["[8] == 'm';
  }

  /**
   Every string leaf of an envelope has a path of its own: paths inside the data are injective,
   message numbers are too, and text, message and data paths cannot be confused.
   */
  lemma PathsNameLeaves(c: Content)
    ensures DistinctPaths(StringLeaves(c))
  {
    if c.data.Some? { SpotsDistinct(Obj(c.data.value)); }
    DataPathsDistinct(DataSpots(c.data));
    TextPathsDistinct(c);
    assert DATA_PATH[8] == 'd';
    var a, b := TextLeaves(c), Named(DATA_PATH, DataSpots(c.data));
    forall i, j | 0 <= i < |a| && 0 <= j < |b| ensures a[i].path != b[j].path {
      assert b[j].path[8] == DATA_PATH[8];
    }
  }

  lemma MessagePathInjective(i: nat, j: nat)
    requires MessagePath(i) == MessagePath(j)
    ensures i == j
  {
    var a, b := "content.messages[" + Decimal(i), "content.messages[" + Decimal(j);
    assert MessagePath(i) == a + "].content" && MessagePath(j) == b + "].content";
    assert |a| == |b| && a == MessagePath(i)[..|a|] == MessagePath(j)[..|b|] == b;
    assert a == "content.messages" + ['['] + Decimal(i) && b == "content.messages" + ['['] + Decimal(j);
    SplitAtNumber("content.messages", i, "content.messages", j, '[');
  }

  // ----- Rewriting every leaf -----

  type Rewrite = (string, string) -> string

  /** Rebuilds a value with every string leaf rewritten; the order of the fields plays no part. */
  function TransformJSONStrings(v: Json, path: string, apply: Rewrite): Json
    decreases v
  {
    match v
    case Str(text) => Str(apply(path, text))
    case Arr(items) =>
      Arr(seq(|items|, i requires 0 <= i < |items| => TransformJSONStrings(items[i], IndexPath(path, i), apply)))
    case Obj(fields) =>
      Obj(map k | k in fields :: TransformJSONStrings(fields[k], ChildPath(path, k), apply))
    case _ => v
  }

  /** A value with every string blanked: its shape, keys and other leaves. */
  function Blanked(v: Json): Json {
    TransformJSONStrings(v, "", (path, text) => "")
  }

  ghost function Rewritten(path: string, spots: seq<Spot>, apply: Rewrite): (s: seq<Spot>)
    ensures |s| == |spots|
    ensures forall i :: 0 <= i < |s| ==>
      s[i] == Spot(spots[i].steps, apply(Render(path, spots[i].steps), spots[i].text))
  {
    seq(|spots|, i requires 0 <= i < |spots| =>
      Spot(spots[i].steps, apply(Render(path, spots[i].steps), spots[i].text)))
  }

  lemma RewrittenUnder(path: string, step: Step, spots: seq<Spot>, others: seq<Spot>, apply: Rewrite)
    ensures Rewritten(path, Under(step, spots) + others, apply)
         == Under(step, Rewritten(Extend(path, step), spots, apply)) + Rewritten(path, others, apply)
  {
    var all := Under(step, spots) + others;
    forall i | 0 <= i < |spots| ensures Render(path, all[i].steps) == Render(Extend(path, step), spots[i].steps) {
      assert all[i].steps[1..] == spots[i].steps;
    }
  }

  /**
   Rewriting commutes with visiting: the rewritten value has its leaves at the same positions
   in the same order, each being the old text rewritten under the path printed for it.
   */
  lemma {:induction false} TransformCommutes(v: Json, path: string, apply: Rewrite)
    ensures Spots(TransformJSONStrings(v, path, apply)) == Rewritten(path, Spots(v), apply)
    decreases v, 1, 0
  {
    var w := TransformJSONStrings(v, path, apply);
    match v
    case Str(_) =>
    case Arr(items) =>
      TransformItemsCommute(v, path, apply, 0);
    case Obj(fields) =>
      assert w.fields.Keys == fields.Keys;
      TransformFieldsCommute(v, path, apply, SortedKeys(fields.Keys));
    case _ =>
  }

  lemma {:induction false} TransformItemsCommute(v: Json, path: string, apply: Rewrite, i: nat)
    requires v.Arr? && i <= |v.items|
    ensures ItemSpots(TransformJSONStrings(v, path, apply), i) == Rewritten(path, ItemSpots(v, i), apply)
    decreases v, 0, |v.items| - i
  {
    if i < |v.items| {
      TransformCommutes(v.items[i], IndexPath(path, i), apply);
      TransformItemsCommute(v, path, apply, i + 1);
      RewrittenUnder(path, Index(i), Spots(v.items[i]), ItemSpots(v, i + 1), apply);
    }
  }

  lemma {:induction false} TransformFieldsCommute(v: Json, path: string, apply: Rewrite, keys: seq<string>)
    requires v.Obj? && HasKeys(v.fields, keys)
    ensures FieldSpots(TransformJSONStrings(v, path, apply), keys) == Rewritten(path, FieldSpots(v, keys), apply)
    decreases v, 0, |keys|
  {
    if keys != [] {
      TransformCommutes(v.fields[keys[0]], ChildPath(path, keys[0]), apply);
      TransformFieldsCommute(v, path, apply, keys[1..]);
      RewrittenUnder(path, Key(keys[0]), Spots(v.fields[keys[0]]), FieldSpots(v, keys[1..]), apply);
    }
  }

  /** Everything that is not a string stays: shape, keys, numbers, booleans and nulls. */
  lemma {:induction false} TransformKeepsShape(v: Json, path: string, apply: Rewrite, base: string)
    ensures TransformJSONStrings(TransformJSONStrings(v, path, apply), base, (p, t) => "")
         == TransformJSONStrings(v, base, (p, t) => "")
    decreases v
  {
    hide IndexPath, ChildPath;
    match v
    case Arr(items) =>
      forall i | 0 <= i < |items| {
        TransformKeepsShape(items[i], IndexPath(path, i), apply, IndexPath(base, i));
      }
    case Obj(fields) =>
      forall k | k in fields {
        TransformKeepsShape(fields[k], ChildPath(path, k), apply, ChildPath(base, k));
      }
    case _ =>
  }
}
