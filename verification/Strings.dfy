/** Strings ordered as JavaScript's `<` and Go's `sort.Strings` order them, and Go's `%d`. */
module Strings {

  /** Lexicographic order on strings, first differing character first. (Dafny's own `<` is the prefix order.) */
  predicate StringLess(a: string, b: string) {
    b != [] && (a == [] || a[0] < b[0] || (a[0] == b[0] && StringLess(a[1..], b[1..])))
  }

  lemma {:induction false} StringLessTrichotomy(a: string, b: string)
    ensures StringLess(a, b) ==> !StringLess(b, a) && a != b
    ensures StringLess(a, b) || StringLess(b, a) || a == b
    decreases |a|
  {
    if a != [] && b != [] && a[0] == b[0] {
      StringLessTrichotomy(a[1..], b[1..]);
      assert a == [a[0]] + a[1..] && b == [b[0]] + b[1..];
    }
  }

  lemma {:induction false} StringLessTransitive(a: string, b: string, c: string)
    requires StringLess(a, b) && StringLess(b, c)
    ensures StringLess(a, c)
    decreases |a|
  {
    if a != [] && a[0] == b[0] && b[0] == c[0] {
      StringLessTransitive(a[1..], b[1..], c[1..]);
    }
  }

  /** Where two strings first differ the smaller character decides, and a proper prefix comes
      first. */
  lemma {:induction false} FirstDifferenceDecides(p: string, x: char, s: string, y: char, t: string)
    ensures x != y ==> (StringLess(p + [x] + s, p + [y] + t) <==> x < y)
    ensures StringLess(p, p + [x] + s) && !StringLess(p + [x] + s, p)
  {
    if p != [] {
      assert (p + [x] + s)[1..] == p[1..] + [x] + s && (p + [y] + t)[1..] == p[1..] + [y] + t;
      FirstDifferenceDecides(p[1..], x, s, y, t);
    } else {
      assert p + [x] + s == [x] + s && p + [y] + t == [y] + t;
    }
  }

  // ---- Splitting at a separator ----

  function IndexOf(s: string, sep: char): nat {
    if s == [] || s[0] == sep then 0 else 1 + IndexOf(s[1..], sep)
  }

  lemma {:induction false} IndexOfFirst(a: string, x: string, sep: char)
    requires sep !in a
    ensures IndexOf(a + [sep] + x, sep) == |a|
  {
    if a == [] {
      assert a + [sep] + x == [sep] + x;
    } else {
      assert (a + [sep] + x)[1..] == a[1..] + [sep] + x;
      IndexOfFirst(a[1..], x, sep);
    }
  }

  /** The first separator of a string splits it in one way only. */
  lemma SplitIsUnique(a: string, x: string, b: string, y: string, sep: char)
    requires sep !in a && sep !in b && a + [sep] + x == b + [sep] + y
    ensures a == b && x == y
  {
    var s := a + [sep] + x;
    IndexOfFirst(a, x, sep);
    IndexOfFirst(b, y, sep);
    assert a == s[..|a|] && b == s[..|b|];
    assert x == s[|a| + 1..] && y == s[|b| + 1..];
  }

  // ---- Decimal numerals ----

  function Digit(d: nat): char
    requires d < 10
  {
    '0' + d as char
  }

  function NatString(n: nat): (s: string)
    ensures |s| >= 1 && (forall c <- s :: '0' <= c <= '9')
  {
    if n < 10 then [Digit(n)] else NatString(n / 10) + [Digit(n % 10)]
  }

  function IntString(n: int): string {
    if n < 0 then "-" + NatString(-n) else NatString(n)
  }

  lemma {:induction false} NatStringInjective(m: nat, n: nat)
    requires NatString(m) == NatString(n)
    ensures m == n
  {
    var s, t := NatString(m), NatString(n);
    assert s[|s| - 1] == Digit(m % 10) && t[|t| - 1] == Digit(n % 10);
    if m >= 10 && n >= 10 {
      assert s[..|s| - 1] == NatString(m / 10) && t[..|t| - 1] == NatString(n / 10);
      NatStringInjective(m / 10, n / 10);
    }
  }

  lemma SignChar(n: int)
    ensures IntString(n)[0] == '-' <==> n < 0
  {
    if n >= 0 { assert NatString(n)[0] in NatString(n); }
  }

  /** Different integers have different decimal forms, and none contains a colon. */
  lemma IntStringInjective(m: int, n: int)
    ensures IntString(m) == IntString(n) ==> m == n
    ensures ':' !in IntString(m)
  {
    if IntString(m) == IntString(n) {
      SignChar(m);
      SignChar(n);
      if m < 0 {
        assert IntString(m)[1..] == NatString(-m) && IntString(n)[1..] == NatString(-n);
        NatStringInjective(-m, -n);
      } else {
        NatStringInjective(m, n);
      }
    }
  }
}
