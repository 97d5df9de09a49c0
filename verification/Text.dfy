/**
 Strings as the evaluator sees them. A Go string is a sequence of bytes and every offset
 in the program is a byte offset, so one `char` stands for one byte.
 */
module Text {
  import opened Common

  const BACKSLASH: char := '\\'
  const QUOTE: char := '\"'

  /** A reader's result, a text and what follows it, with one more byte in front of the text. */
  function Prepend(c: char, read: Option<(string, string)>): Option<(string, string)> {
    if read.Some? then Some(([c] + read.value.0, read.value.1)) else None
  }

  /** Byte-wise lexicographic order: `<` on Go strings. (`<` on Dafny strings means "proper prefix".) */
  predicate Less(a: string, b: string) {
    b != [] && (a == [] || a[0] < b[0] || (a[0] == b[0] && Less(a[1..], b[1..])))
  }

  lemma {:induction false} LessIsTotal(a: string, b: string)
    ensures a == b || Less(a, b) || Less(b, a)
  {
    if a != [] && b != [] && a[0] == b[0] {
      LessIsTotal(a[1..], b[1..]);
      assert a == [a[0]] + a[1..] && b == [b[0]] + b[1..];
    }
  }

  lemma {:induction false} LessIsStrict(a: string, b: string)
    requires Less(a, b)
    ensures a != b && !Less(b, a)
  {
    if a != [] && a[0] == b[0] {
      LessIsStrict(a[1..], b[1..]);
    }
  }

  lemma {:induction false} LessIsTransitive(a: string, b: string, c: string)
    requires Less(a, b) && Less(b, c)
    ensures Less(a, c)
  {
    if a != [] && a[0] == b[0] == c[0] {
      LessIsTransitive(a[1..], b[1..], c[1..]);
    }
  }

  /** The strings agree up to `n`, where `a` ends first or has the smaller byte. */
  predicate SmallerAt(a: string, b: string, n: nat) {
    n <= |a| && n < |b| && a[..n] == b[..n] && (n == |a| || a[n] < b[n])
  }

  /** The order is decided where two strings first differ. */
  lemma {:induction false} LessExact(a: string, b: string)
    ensures Less(a, b) <==> exists n :: 0 <= n && SmallerAt(a, b, n)
  {
    if b == [] {
    } else if a == [] || a[0] < b[0] {
      assert SmallerAt(a, b, 0);
    } else {
      var p, q := a[1..], b[1..];
      LessExact(p, q);
      if n :| 0 <= n && SmallerAt(p, q, n) {
        assert a[..n + 1] == [a[0]] + p[..n] && b[..n + 1] == [b[0]] + q[..n];
        assert a[0] == b[0] ==> SmallerAt(a, b, n + 1);
      }
      if n :| 0 <= n && SmallerAt(a, b, n) {
        assert n > 0;
        assert a[0] == a[..n][0] == b[..n][0] == b[0];
        assert p[..n - 1] == a[..n][1..] && q[..n - 1] == b[..n][1..];
        assert SmallerAt(p, q, n - 1);
      }
    }
  }

  predicate IsDigit(c: char) {
    '0' <= c <= '9'
  }

  /** `%d` of a non-negative number. */
  function Decimal(n: nat): (s: string)
    ensures s != [] && forall i :: 0 <= i < |s| ==> IsDigit(s[i])
  {
    if n < 10 then ['0' + n as char] else Decimal(n / 10) + ['0' + (n % 10) as char]
  }

  /** The number a string of digits denotes. */
  function Number(s: string): nat
    requires forall i :: 0 <= i < |s| ==> IsDigit(s[i])
  {
    if s == [] then 0 else assert IsDigit(s[|s| - 1]); 10 * Number(s[..|s| - 1]) + (s[|s| - 1] as int - '0' as int)
  }

  lemma {:induction false} NumberOfDecimal(n: nat)
    ensures Number(Decimal(n)) == n
  {
    if n < 10 {
      assert Decimal(n)[..0] == [];
    } else {
      NumberOfDecimal(n / 10);
      var s := Decimal(n);
      assert s[..|s| - 1] == Decimal(n / 10);
    }
  }

  /** What follows the last separator. */
  function AfterLast(s: string, separator: char): string {
    if s == [] || s[|s| - 1] == separator then [] else AfterLast(s[..|s| - 1], separator) + [s[|s| - 1]]
  }

  lemma {:induction false} AfterLastIs(a: string, tail: string, separator: char)
    requires separator !in tail
    ensures AfterLast(a + [separator] + tail, separator) == tail
  {
    var s := a + [separator] + tail;
    if tail != [] {
      var last := |tail| - 1;
      assert s[..|s| - 1] == a + [separator] + tail[..last];
      AfterLastIs(a, tail[..last], separator);
      assert s[|s| - 1] == tail[last] && tail == tail[..last] + [tail[last]];
      assert tail[last] != separator;
    }
  }

  /**
   Text that ends in a separator and a number can be split again, whatever comes before
   the separator: the digits cannot hold the separator.
   */
  lemma SplitAtNumber(a: string, m: nat, b: string, n: nat, separator: char)
    requires !IsDigit(separator)
    requires a + [separator] + Decimal(m) == b + [separator] + Decimal(n)
    ensures a == b && m == n
  {
    hide Decimal, AfterLast, Number;
    AfterLastIs(a, Decimal(m), separator);
    AfterLastIs(b, Decimal(n), separator);
    NumberOfDecimal(m);
    NumberOfDecimal(n);
    assert a == (a + [separator] + Decimal(m))[..|a|];
    assert b == (b + [separator] + Decimal(n))[..|b|];
  }
}
