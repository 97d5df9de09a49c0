/** Label values in the Prometheus text exposition format 0.0.4, section "Text format details". */
module Labels {
  import opened Common
  import opened Text

  const NEWLINE: char := '\n'

  /** `strings.ReplaceAll` for a pattern of one byte. */
  function ReplaceAll(s: string, old_: char, new_: string): string {
    if s == [] then [] else (if s[0] == old_ then new_ else [s[0]]) + ReplaceAll(s[1..], old_, new_)
  }

  /** The three passes of the program. */
  function ThreePasses(value: string): string {
    ReplaceAll(ReplaceAll(ReplaceAll(value, BACKSLASH, [BACKSLASH, BACKSLASH]), NEWLINE, [BACKSLASH, 'n']),
               QUOTE, [BACKSLASH, QUOTE])
  }

  function QuoteLabel(value: string): string {
    [QUOTE] + ThreePasses(value) + [QUOTE]
  }

  // ----- One pass does the same -----

  function EscapeByte(c: char): string {
    if c == BACKSLASH then [BACKSLASH, BACKSLASH]
    else if c == NEWLINE then [BACKSLASH, 'n']
    else if c == QUOTE then [BACKSLASH, QUOTE]
    else [c]
  }

  function EscapeAll(value: string): string {
    if value == [] then [] else EscapeByte(value[0]) + EscapeAll(value[1..])
  }

  lemma {:induction false} ReplaceAllConcat(a: string, b: string, old_: char, new_: string)
    ensures ReplaceAll(a + b, old_, new_) == ReplaceAll(a, old_, new_) + ReplaceAll(b, old_, new_)
  {
    if a == [] {
      assert a + b == b;
    } else {
      assert (a + b)[0] == a[0] && (a + b)[1..] == a[1..] + b;
      ReplaceAllConcat(a[1..], b, old_, new_);
    }
  }

  lemma ReplaceOne(c: char, old_: char, new_: string)
    ensures ReplaceAll([c], old_, new_) == if c == old_ then new_ else [c]
  {
    assert [c][1..] == [];
  }

  lemma ReplaceTwo(c: char, d: char, old_: char, new_: string)
    ensures ReplaceAll([c, d], old_, new_) == (if c == old_ then new_ else [c]) + (if d == old_ then new_ else [d])
  {
    assert [c, d] == [c] + [d];
    ReplaceAllConcat([c], [d], old_, new_);
    ReplaceOne(c, old_, new_);
    ReplaceOne(d, old_, new_);
  }

  lemma ThreePassesConcat(a: string, b: string)
    ensures ThreePasses(a + b) == ThreePasses(a) + ThreePasses(b)
  {
    hide ReplaceAll;
    var first := (s: string) => ReplaceAll(s, BACKSLASH, [BACKSLASH, BACKSLASH]);
    ReplaceAllConcat(a, b, BACKSLASH, [BACKSLASH, BACKSLASH]);
    ReplaceAllConcat(first(a), first(b), NEWLINE, [BACKSLASH, 'n']);
    ReplaceAllConcat(ReplaceAll(first(a), NEWLINE, [BACKSLASH, 'n']), ReplaceAll(first(b), NEWLINE, [BACKSLASH, 'n']),
                     QUOTE, [BACKSLASH, QUOTE]);
  }

  lemma ThreePassesOne(c: char)
    ensures ThreePasses([c]) == EscapeByte(c)
  {
    hide ReplaceAll;
    ReplaceOne(c, BACKSLASH, [BACKSLASH, BACKSLASH]);
    ReplaceOne(c, NEWLINE, [BACKSLASH, 'n']);
    ReplaceOne(c, QUOTE, [BACKSLASH, QUOTE]);
    ReplaceTwo(BACKSLASH, BACKSLASH, NEWLINE, [BACKSLASH, 'n']);
    ReplaceTwo(BACKSLASH, BACKSLASH, QUOTE, [BACKSLASH, QUOTE]);
    ReplaceTwo(BACKSLASH, 'n', QUOTE, [BACKSLASH, QUOTE]);
    assert [BACKSLASH] + [BACKSLASH] == [BACKSLASH, BACKSLASH] && [BACKSLASH] + ['n'] == [BACKSLASH, 'n'];
  }

  /** The three passes in this order escape each byte once: no pass touches what an earlier one wrote. */
  lemma {:induction false} PassesEscapeOnce(value: string)
    ensures ThreePasses(value) == EscapeAll(value)
  {
    hide ThreePasses, EscapeByte;
    if value == [] {
      NothingToEscape();
    } else {
      assert value == [value[0]] + value[1..];
      ThreePassesConcat([value[0]], value[1..]);
      ThreePassesOne(value[0]);
      PassesEscapeOnce(value[1..]);
    }
  }

  lemma NothingToEscape()
    ensures ThreePasses("") == ""
  {
  }

  // ----- A reader of the format -----

  /** Reads an escaped value up to its closing quote: the value, and what follows. A raw newline is an error. */
  function ReadEscaped(s: string): Option<(string, string)> {
    if s == [] || s[0] == NEWLINE then None
    else if s[0] == QUOTE then Some(("", s[1..]))
    else if s[0] != BACKSLASH then Prepend(s[0], ReadEscaped(s[1..]))
    else if |s| < 2 then None
    else if s[1] == 'n' then Prepend(NEWLINE, ReadEscaped(s[2..]))
    else if s[1] == BACKSLASH || s[1] == QUOTE then Prepend(s[1], ReadEscaped(s[2..]))
    else None
  }

  function ReadLabel(s: string): Option<(string, string)> {
    if s != [] && s[0] == QUOTE then ReadEscaped(s[1..]) else None
  }

  lemma ReadByte(c: char, s: string)
    ensures ReadEscaped(EscapeByte(c) + s) == Prepend(c, ReadEscaped(s))
  {
    var e := EscapeByte(c);
    assert (e + s)[|e|..] == s;
    if |e| == 2 { assert (e + s)[0] == BACKSLASH && (e + s)[1] == e[1]; }
  }

  lemma ReadEnd(rest: string)
    ensures ReadEscaped([QUOTE] + rest) == Some(("", rest))
  {
    assert ([QUOTE] + rest)[0] == QUOTE && ([QUOTE] + rest)[1..] == rest;
  }

  lemma {:induction false} ReadAll(value: string, rest: string)
    ensures ReadEscaped(EscapeAll(value) + [QUOTE] + rest) == Some((value, rest))
  {
    hide ReadEscaped, EscapeByte;
    if value == [] {
      assert EscapeAll(value) + [QUOTE] + rest == [QUOTE] + rest;
      ReadEnd(rest);
    } else {
      var tail := EscapeAll(value[1..]) + [QUOTE] + rest;
      ReadAll(value[1..], rest);
      ReadByte(value[0], tail);
      assert EscapeAll(value) + [QUOTE] + rest == EscapeByte(value[0]) + tail;
      assert value == [value[0]] + value[1..];
    }
  }

  /**
   A quoted label reads back to the very value it was made from, and the reader stops exactly at its
   closing quote, whatever the value holds and whatever follows.
   */
  lemma LabelRoundTrip(value: string, rest: string)
    ensures ReadLabel(QuoteLabel(value) + rest) == Some((value, rest))
  {
    hide ReadEscaped, ThreePasses, EscapeAll;
    PassesEscapeOnce(value);
    ReadAll(value, rest);
    assert (QuoteLabel(value) + rest)[1..] == EscapeAll(value) + [QUOTE] + rest;
    assert (QuoteLabel(value) + rest)[0] == QUOTE;
  }

  lemma {:induction false} NoNewlineEscaped(value: string)
    ensures NEWLINE !in EscapeAll(value)
  {
    if value != [] { NoNewlineEscaped(value[1..]); }
  }

  /** A sample line stays one line. */
  lemma LabelStaysOnOneLine(value: string)
    ensures NEWLINE !in QuoteLabel(value)
  {
    hide ThreePasses, EscapeAll;
    PassesEscapeOnce(value);
    NoNewlineEscaped(value);
  }

  /** For instance, one of each byte that is escaped: */
  lemma QuotedExample()
    ensures QuoteLabel("\"\\\n") == "\"\\\"\\\\\\n\""
  {
    hide ThreePasses;
    var s := "\"\\\n";
    PassesEscapeOnce(s);
    assert s[1..] == "\\\n" && "\\\n"[1..] == "\n" && "\n"[1..] == "";
    assert EscapeAll("\n") == "\\n" + EscapeAll("") == "\\n";
    assert EscapeAll("\\\n") == "\\\\" + "\\n" == "\\\\\\n";
    assert EscapeAll(s) == "\\\"" + "\\\\\\n" == "\\\"\\\\\\n";
  }
}
