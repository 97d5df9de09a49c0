/** The printed paths that name string leaves, and the reader that inverts them. */
module Paths {
  import opened Common
  import opened Text

  /** One step from a JSON value to one of its children. */
  datatype Step = Key(name: string) | Index(at: nat)

  predicate IsIdentifier(key: string) {
    key != "" &&
    forall i :: 0 <= i < |key| ==>
      key[i] == '_' || 'a' <= key[i] <= 'z' || 'A' <= key[i] <= 'Z' || (i > 0 && IsDigit(key[i]))
  }

  function HexDigit(n: nat): char
    requires n < 16
  {
    if n < 10 then '0' + n as char else 'a' + (n - 10) as char
  }

  function HexValue(c: char): Option<nat> {
    if IsDigit(c) then Some(c as int - '0' as int)
    else if 'a' <= c <= 'f' then Some(c as int - 'a' as int + 10)
    else None
  }

  /** The letter after the backslash in the short control escapes of `%q`. */
  function ShortEscape(c: char): Option<char> {
    match c as int
    case 7 => Some('a')
    case 8 => Some('b')
    case 9 => Some('t')
    case 10 => Some('n')
    case 11 => Some('v')
    case 12 => Some('f')
    case 13 => Some('r')
    case _ => if c == BACKSLASH || c == QUOTE then Some(c) else None
  }

  function ShortUnescape(c: char): Option<char> {
    match c
    case 'a' => Some(7 as char)
    case 'b' => Some(8 as char)
    case 't' => Some(9 as char)
    case 'n' => Some(10 as char)
    case 'v' => Some(11 as char)
    case 'f' => Some(12 as char)
    case 'r' => Some(13 as char)
    case _ => if c == BACKSLASH || c == QUOTE then Some(c) else None
  }

  /** How `%q` writes one byte. Bytes above ASCII are part of printable text and stand for themselves. */
  function EscapeByte(c: char): string {
    if ShortEscape(c).Some? then [BACKSLASH, ShortEscape(c).value]
    else if c < ' ' || c as int == 127 then [BACKSLASH, 'x', HexDigit(c as int / 16), HexDigit(c as int % 16)]
    else [c]
  }

  function EscapeAll(s: string): string {
    if s == [] then [] else EscapeByte(s[0]) + EscapeAll(s[1..])
  }

  /** `%q` of a string. */
  function Quoted(s: string): string {
    [QUOTE] + EscapeAll(s) + [QUOTE]
  }

  function ChildPath(parent: string, key: string): string {
    if IsIdentifier(key) then parent + "." + key else parent + "[" + Quoted(key) + "]"
  }

  function IndexPath(parent: string, i: nat): string {
    parent + "[" + Decimal(i) + "]"
  }

  function Extend(parent: string, step: Step): string {
    match step
    case Key(name) => ChildPath(parent, name)
    case Index(i) => IndexPath(parent, i)
  }

  function Render(parent: string, steps: seq<Step>): string
    decreases |steps|
  {
    if steps == [] then parent else Render(Extend(parent, steps[0]), steps[1..])
  }

  // ----- The reader -----

  /** Reads escaped text up to its closing quote: the text meant and what follows the quote. */
  function ReadQuoted(s: string): Option<(string, string)> {
    if s == [] then None
    else if s[0] == QUOTE then Some(("", s[1..]))
    else if s[0] != BACKSLASH then Prepend(s[0], ReadQuoted(s[1..]))
    else if |s| >= 2 && ShortUnescape(s[1]).Some? then Prepend(ShortUnescape(s[1]).value, ReadQuoted(s[2..]))
    else if |s| >= 4 && s[1] == 'x' && HexValue(s[2]).Some? && HexValue(s[3]).Some? then
      Prepend((16 * HexValue(s[2]).value + HexValue(s[3]).value) as char, ReadQuoted(s[4..]))
    else None
  }

  /** The length of the longest prefix without `.` and `[`. */
  function NameLength(s: string): (n: nat)
    ensures n <= |s|
  {
    if s == [] || s[0] == '.' || s[0] == '[' then 0 else 1 + NameLength(s[1..])
  }

  function DigitCount(s: string): (n: nat)
    ensures n <= |s| && forall i :: 0 <= i < n ==> IsDigit(s[i])
  {
    if s == [] || !IsDigit(s[0]) then 0 else 1 + DigitCount(s[1..])
  }

  /** Reads one printed step: the step and the rest of the path. */
  function ReadStep(s: string): Option<(Step, string)> {
    if s == [] then None
    else if s[0] == '.' then
      var n := NameLength(s[1..]);
      Some((Key(s[1..1 + n]), s[1 + n..]))
    else if s[0] == '[' && |s| > 1 && s[1] == QUOTE then
      var read := ReadQuoted(s[2..]);
      if read.Some? && read.value.1 != [] && read.value.1[0] == ']'
      then Some((Key(read.value.0), read.value.1[1..])) else None
    else if s[0] == '[' then
      var n := DigitCount(s[1..]);
      if 0 < n && 1 + n < |s| && s[1 + n] == ']'
      then Some((Index(Number(s[1..1 + n])), s[2 + n..])) else None
    else None
  }

  function ReadSteps(s: string): Option<seq<Step>>
    decreases |s|
  {
    if s == [] then Some([])
    else
      var first := ReadStep(s);
      if first.None? || |first.value.1| >= |s| then None
      else
        var others := ReadSteps(first.value.1);
        if others.None? then None else Some([first.value.0] + others.value)
  }

  // ----- Reading inverts printing -----

  lemma HexRoundTrip(n: nat)
    requires n < 128
    ensures HexValue(HexDigit(n / 16)) == Some(n / 16)
    ensures HexValue(HexDigit(n % 16)) == Some(n % 16)
    ensures 16 * (n / 16) + n % 16 == n
  {
  }

  lemma ReadShort(letter: char, s: string)
    requires ShortUnescape(letter).Some?
    ensures ReadQuoted([BACKSLASH, letter] + s) == Prepend(ShortUnescape(letter).value, ReadQuoted(s))
  {
    var t := [BACKSLASH, letter] + s;
    assert t[0] == BACKSLASH && t[1] == letter && t[2..] == s;
  }

  lemma ReadHex(high: char, low: char, s: string)
    requires HexValue(high).Some? && HexValue(low).Some?
    ensures ReadQuoted([BACKSLASH, 'x', high, low] + s)
         == Prepend((16 * HexValue(high).value + HexValue(low).value) as char, ReadQuoted(s))
  {
    var t := [BACKSLASH, 'x', high, low] + s;
    assert t[0] == BACKSLASH && t[1] == 'x' && t[2] == high && t[3] == low && t[4..] == s;
  }

  lemma ReadPlain(c: char, s: string)
    requires c != QUOTE && c != BACKSLASH
    ensures ReadQuoted([c] + s) == Prepend(c, ReadQuoted(s))
  {
    var t := [c] + s;
    assert t[0] == c && t[1..] == s;
  }

  lemma ShortRoundTrip(c: char)
    requires ShortEscape(c).Some?
    ensures ShortUnescape(ShortEscape(c).value) == Some(c)
  {
  }

  lemma UnescapeByte(c: char, s: string)
    ensures ReadQuoted(EscapeByte(c) + s) == Prepend(c, ReadQuoted(s))
  {
    if ShortEscape(c).Some? {
      ShortRoundTrip(c);
      ReadShort(ShortEscape(c).value, s);
    } else if c < ' ' || c as int == 127 {
      HexRoundTrip(c as int);
      ReadHex(HexDigit(c as int / 16), HexDigit(c as int % 16), s);
    } else {
      ReadPlain(c, s);
    }
  }

  lemma ReadEnd(rest: string)
    ensures ReadQuoted([QUOTE] + rest) == Some(("", rest))
  {
    assert ([QUOTE] + rest)[0] == QUOTE && ([QUOTE] + rest)[1..] == rest;
  }

  lemma {:induction false} ReadQuotedInverts(key: string, rest: string)
    ensures ReadQuoted(EscapeAll(key) + [QUOTE] + rest) == Some((key, rest))
  {
    hide ReadQuoted, EscapeByte;
    if key == [] {
      assert EscapeAll(key) + [QUOTE] + rest == [QUOTE] + rest;
      ReadEnd(rest);
    } else {
      ReadQuotedInverts(key[1..], rest);
      UnescapeByte(key[0], EscapeAll(key[1..]) + [QUOTE] + rest);
      assert EscapeAll(key) + [QUOTE] + rest == EscapeByte(key[0]) + (EscapeAll(key[1..]) + [QUOTE] + rest);
      assert key == [key[0]] + key[1..];
    }
  }

  /** The text that starts a printed step: nothing that can continue a name or a number. */
  predicate StartsStep(s: string) {
    s == [] || s[0] == '.' || s[0] == '['
  }

  lemma {:induction false} NameLengthIs(name: string, rest: string)
    requires StartsStep(rest) && forall i :: 0 <= i < |name| ==> name[i] != '.' && name[i] != '['
    ensures NameLength(name + rest) == |name|
  {
    if name == [] {
      assert name + rest == rest;
    } else {
      assert (name + rest)[1..] == name[1..] + rest;
      NameLengthIs(name[1..], rest);
    }
  }

  lemma {:induction false} DigitCountIs(digits: string, rest: string)
    requires (rest == [] || !IsDigit(rest[0])) && forall i :: 0 <= i < |digits| ==> IsDigit(digits[i])
    ensures DigitCount(digits + rest) == |digits|
  {
    if digits == [] {
      assert digits + rest == rest;
    } else {
      assert (digits + rest)[1..] == digits[1..] + rest;
      DigitCountIs(digits[1..], rest);
    }
  }

  lemma ReadNameInverts(name: string, rest: string)
    requires StartsStep(rest) && IsIdentifier(name)
    ensures ReadStep("." + name + rest) == Some((Key(name), rest))
  {
    var s := "." + name + rest;
    assert s[1..] == name + rest;
    NameLengthIs(name, rest);
    assert s[1..1 + |name|] == name && s[1 + |name|..] == rest;
  }

  lemma ReadKeyInverts(name: string, rest: string)
    ensures ReadStep("[" + Quoted(name) + "]" + rest) == Some((Key(name), rest))
  {
    var s := "[" + Quoted(name) + "]" + rest;
    assert s[0] == '[' && s[1] == QUOTE && s[2..] == EscapeAll(name) + [QUOTE] + ("]" + rest);
    ReadQuotedInverts(name, "]" + rest);
    assert ("]" + rest)[1..] == rest;
  }

  lemma ReadIndexInverts(i: nat, rest: string)
    ensures ReadStep("[" + Decimal(i) + "]" + rest) == Some((Index(i), rest))
  {
    var d := Decimal(i);
    var s := "[" + d + "]" + rest;
    assert s[1..] == d + ("]" + rest);
    assert s[0] == '[' && s[1] == d[0] && IsDigit(d[0]);
    DigitCountIs(d, "]" + rest);
    assert s[1..1 + |d|] == d && s[1 + |d|] == ']' && s[2 + |d|..] == rest;
    NumberOfDecimal(i);
  }

  lemma KeyAlone(name: string)
    ensures Extend("", Key(name)) == if IsIdentifier(name) then "." + name else "[" + Quoted(name) + "]"
  {
    hide IsIdentifier, Quoted;
  }

  lemma IndexAlone(i: nat)
    ensures Extend("", Index(i)) == "[" + Decimal(i) + "]"
  {
    hide Decimal;
  }

  /** Reading one printed step gives the step back and leaves the rest alone. */
  lemma ReadStepInverts(step: Step, rest: string)
    requires StartsStep(rest)
    ensures ReadStep(Extend("", step) + rest) == Some((step, rest))
  {
    hide ReadStep, Decimal, Quoted, IsIdentifier, StartsStep, Extend;
    match step
    case Key(name) =>
      KeyAlone(name);
      if IsIdentifier(name) { ReadNameInverts(name, rest); } else { ReadKeyInverts(name, rest); }
    case Index(i) =>
      IndexAlone(i);
      ReadIndexInverts(i, rest);
  }

  lemma ExtendAppends(parent: string, step: Step)
    ensures Extend(parent, step) == parent + Extend("", step)
    ensures Extend("", step) != [] && forall rest :: StartsStep(Extend("", step) + rest)
  {
    hide IsIdentifier, Quoted, Decimal;
    var own := Extend("", step);
    assert own[0] == '.' || own[0] == '[';
    forall rest ensures StartsStep(own + rest) { assert (own + rest)[0] == own[0]; }
  }

  /** A path is its parent followed by the steps printed on their own. */
  lemma {:induction false} RenderAppends(parent: string, steps: seq<Step>)
    ensures Render(parent, steps) == parent + Render("", steps)
    ensures StartsStep(Render("", steps)) && (steps != [] ==> Render("", steps) != [])
    decreases |steps|
  {
    hide Extend;
    if steps != [] {
      hide StartsStep;
      var own, others := Extend("", steps[0]), Render("", steps[1..]);
      ExtendAppends(parent, steps[0]);
      RenderAppends(parent + own, steps[1..]);
      RenderAppends(own, steps[1..]);
      assert Render("", steps) == own + others;
      assert parent + own + others == parent + (own + others);
    }
  }

  /**
   Every printed path can be read back to the very steps it was printed from, whatever the
   keys are: empty, or holding dots, brackets, quotes, backslashes or control characters.
   */
  lemma {:induction false} PathRoundTrip(steps: seq<Step>)
    ensures ReadSteps(Render("", steps)) == Some(steps)
    decreases |steps|
  {
    if steps != [] {
      var own, others := Extend("", steps[0]), Render("", steps[1..]);
      PathRoundTrip(steps[1..]);
      RenderAppends(own, steps[1..]);
      RenderAppends("", steps[1..]);
      ReadStepInverts(steps[0], others);
      assert Render("", steps) == own + others;
      assert own != [];
      assert steps == [steps[0]] + steps[1..];
    }
  }

  /** So two different positions in a value never share a path. */
  lemma PathInjective(parent: string, a: seq<Step>, b: seq<Step>)
    requires Render(parent, a) == Render(parent, b)
    ensures a == b
  {
    RenderAppends(parent, a);
    RenderAppends(parent, b);
    assert Render("", a) == Render(parent, a)[|parent|..] == Render("", b);
    PathRoundTrip(a);
    PathRoundTrip(b);
  }
}
