/** Strings as the hashes see them: decimal numbers and fields joined by '|'. */
module Text {

  predicate NoBar(s: string) {
    forall i | 0 <= i < |s| :: s[i] != '|'
  }

  function Digit(d: nat): char
    requires d < 10
  {
    "0123456789"[d]
  }

  function Dec(n: nat): (s: string)
    ensures s != "" && NoBar(s)
  {
    if n < 10 then [Digit(n)] else Dec(n / 10) + [Digit(n % 10)]
  }

  lemma {:induction false} DecInjective(m: nat, n: nat)
    requires Dec(m) == Dec(n)
    ensures m == n
    decreases m
  {
    var a, b := Dec(m), Dec(n);
    assert a[|a| - 1] == Digit(m % 10) && b[|b| - 1] == Digit(n % 10);
    assert m % 10 == n % 10;
    if m >= 10 && n >= 10 {
      assert Dec(m / 10) == a[..|a| - 1] == b[..|b| - 1] == Dec(n / 10);
      DecInjective(m / 10, n / 10);
    }
  }

  /** What a string of digits stands for, to base ten. */
  function Value(s: string): int {
    if s == "" then 0 else 10 * Value(s[..|s| - 1]) + (s[|s| - 1] as int - '0' as int)
  }

  lemma {:induction false} DecIsDecimal(n: nat)
    ensures Value(Dec(n)) == n
  {
    if n >= 10 {
      DecIsDecimal(n / 10);
      assert Dec(n)[..|Dec(n)| - 1] == Dec(n / 10);
    } else {
      assert Dec(n)[..0] == "";
    }
  }

  function Pow10(k: nat): nat { if k == 0 then 1 else 10 * Pow10(k - 1) }

  lemma {:induction false} DecLength(n: nat, k: nat)
    requires k >= 1 && n < Pow10(k)
    ensures |Dec(n)| <= k
    decreases k
  {
    if n >= 10 { DecLength(n / 10, k - 1); }
  }

  /** What stands before the first '|'. */
  function Front(s: string): string {
    if s == "" || s[0] == '|' then "" else [s[0]] + Front(s[1..])
  }

  lemma {:induction false} FrontOfField(a: string, x: string)
    requires NoBar(a)
    ensures Front(a + "|" + x) == a
  {
    if a == "" {
      assert a + "|" + x == "|" + x;
    } else {
      assert (a + "|" + x)[1..] == a[1..] + "|" + x;
      FrontOfField(a[1..], x);
    }
  }

  /** A field without '|' can be cut off the front of a joined string in one way only. */
  lemma CutField(a: string, x: string, b: string, y: string)
    requires NoBar(a) && NoBar(b) && a + "|" + x == b + "|" + y
    ensures a == b && x == y
  {
    FrontOfField(a, x);
    FrontOfField(b, y);
    assert x == (a + "|" + x)[|a| + 1..] && y == (b + "|" + y)[|b| + 1..];
  }

  lemma OnlyBarsBefore(x: string, a: string)
    requires NoBar(a)
    ensures forall i | |x| < i < |x + "|" + a| :: (x + "|" + a)[i] != '|'
  {
    assert forall i | |x| < i < |x + "|" + a| :: (x + "|" + a)[i] == a[i - |x| - 1];
  }

  /** And off the back. */
  lemma CutLast(x: string, a: string, y: string, b: string)
    requires NoBar(a) && NoBar(b) && x + "|" + a == y + "|" + b
    ensures x == y && a == b
  {
    OnlyBarsBefore(x, a);
    OnlyBarsBefore(y, b);
    assert (x + "|" + a)[|x|] == '|' && (y + "|" + b)[|y|] == '|';
    assert |x| == |y|;
    assert x + ("|" + a) == x + "|" + a && y + ("|" + b) == y + "|" + b;
    CutFront(x, "|" + a, y, "|" + b);
    CutFront("|", a, "|", b);
  }

  /** Strings with equally long fronts split the same way. */
  lemma CutFront(a: string, x: string, b: string, y: string)
    requires a + x == b + y && |a| == |b|
    ensures a == b && x == y
  {
    assert a == (a + x)[..|a|] && b == (b + y)[..|b|];
    assert x == (a + x)[|a|..] && y == (b + y)[|b|..];
  }
}

/** SHA-256 in hexadecimal, as a function parameter. */
module Sha {
  import opened Text

  type Hash = string -> string

  /** What every output looks like: 64 characters, none of them a separator. */
  ghost predicate HexDigests(sha: Hash) {
    forall x :: |sha(x)| == 64 && NoBar(sha(x))
  }

  /** No two of these inputs collide. */
  ghost predicate CollisionFree(sha: Hash, inputs: iset<string>) {
    forall x, y | x in inputs && y in inputs && sha(x) == sha(y) :: x == y
  }

  lemma FewerInputs(sha: Hash, some: iset<string>, all: iset<string>)
    requires some <= all && CollisionFree(sha, all)
    ensures CollisionFree(sha, some)
  {
  }
}
