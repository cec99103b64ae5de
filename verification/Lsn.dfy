/** LSNs as the archive writes and compares them: as text. */
module Lsn {

  function HexDigit(d: nat): char
    requires d < 16
  {
    if d < 10 then '0' + d as char else 'A' + (d - 10) as char
  }

  lemma DigitOrder(c: nat, d: nat)
    requires c < 16 && d < 16
    ensures HexDigit(c) < HexDigit(d) <==> c < d
    ensures HexDigit(c) == HexDigit(d) <==> c == d
  {
  }

  function Hex(n: nat): (s: string)
    ensures s != ""
  {
    if n < 16 then [HexDigit(n)] else Hex(n / 16) + [HexDigit(n % 16)]
  }

  /** The two 32-bit halves in hexadecimal, without padding. */
  function LsnText(lsn: nat): (s: string)
    ensures s != ""
  {
    Hex(lsn / 0x1_0000_0000) + "/" + Hex(lsn % 0x1_0000_0000)
  }

  /** The order of strings. */
  predicate Before(a: string, b: string) {
    if b == "" then false
    else if a == "" then true
    else if a[0] != b[0] then a[0] < b[0]
    else Before(a[1..], b[1..])
  }

  lemma {:induction false} BeforeItself(a: string)
    ensures !Before(a, a)
  {
    if a != "" { BeforeItself(a[1..]); }
  }

  lemma {:induction false} BeforeJoined(a: string, x: string, b: string, y: string)
    requires |a| == |b|
    ensures Before(a + x, b + y) <==> Before(a, b) || (a == b && Before(x, y))
  {
    if a == "" {
      assert a + x == x && b + y == y;
    } else {
      assert (a + x)[1..] == a[1..] + x && (b + y)[1..] == b[1..] + y;
      BeforeJoined(a[1..], x, b[1..], y);
      if a[0] == b[0] {
        assert a == b <==> a[1..] == b[1..] by {
          assert a == [a[0]] + a[1..] && b == [b[0]] + b[1..];
        }
      }
    }
  }

  /** Equally long numerals order as strings the way they order as numbers. */
  lemma {:induction false} HexOrder(m: nat, n: nat)
    requires |Hex(m)| == |Hex(n)|
    ensures Before(Hex(m), Hex(n)) <==> m < n
    ensures Hex(m) == Hex(n) <==> m == n
    decreases m
  {
    hide HexDigit;
    DigitOrder(m % 16, n % 16);
    if m >= 16 {
      HexOrder(m / 16, n / 16);
      BeforeJoined(Hex(m / 16), [HexDigit(m % 16)], Hex(n / 16), [HexDigit(n % 16)]);
      LastApart(Hex(m / 16), HexDigit(m % 16), Hex(n / 16), HexDigit(n % 16));
    }
  }

  lemma LastApart(a: string, c: char, b: string, d: char)
    ensures a + [c] == b + [d] <==> a == b && c == d
  {
    if a + [c] == b + [d] {
      assert a == (a + [c])[..|a|] && b == (b + [d])[..|b|];
      assert c == (a + [c])[|a|] && d == (b + [d])[|b|];
    }
  }

  /** The numerals that decide the comparison are equally long. */
  predicate SameWidth(a: nat, b: nat) {
    var h, k := a / 0x1_0000_0000, b / 0x1_0000_0000;
    |Hex(h)| == |Hex(k)| && (h == k ==> |Hex(a % 0x1_0000_0000)| == |Hex(b % 0x1_0000_0000)|)
  }

  lemma {:induction false} TextOrder(a: nat, b: nat)
    requires SameWidth(a, b)
    ensures Before(LsnText(a), LsnText(b)) <==> a < b
  {
    hide Hex, Before;
    var h, k, l, m := a / 0x1_0000_0000, b / 0x1_0000_0000, a % 0x1_0000_0000, b % 0x1_0000_0000;
    HexOrder(h, k);
    BeforeJoined(Hex(h), "/" + Hex(l), Hex(k), "/" + Hex(m));
    assert Hex(h) + "/" + Hex(l) == Hex(h) + ("/" + Hex(l));
    assert Hex(k) + "/" + Hex(m) == Hex(k) + ("/" + Hex(m));
    if h == k {
      HexOrder(l, m);
      BeforeJoined("/", Hex(l), "/", Hex(m));
      BeforeItself(Hex(h));
      BeforeItself("/");
    }
  }

  /** A number without its last hexadecimal digits. */
  function Leading(n: nat, d: nat): nat {
    if d == 0 then n else Leading(n / 16, d - 1)
  }

  lemma {:induction false} BeforeLonger(a: string, x: string, b: string)
    requires |a| >= |b|
    ensures Before(a + x, b) <==> Before(a, b)
  {
    if b != "" {
      assert (a + x)[1..] == a[1..] + x;
      BeforeLonger(a[1..], x, b[1..]);
    }
  }

  /** A longer numeral sorts first exactly if its leading digits are the smaller number. */
  lemma {:induction false} LongerFirst(m: nat, n: nat, d: nat)
    requires |Hex(n)| == |Hex(m)| + d
    ensures Before(Hex(n), Hex(m)) <==> Leading(n, d) < m
    decreases d
  {
    if d == 0 {
      HexOrder(n, m);
    } else {
      LongerFirst(m, n / 16, d - 1);
      BeforeLonger(Hex(n / 16), [HexDigit(n % 16)], Hex(m));
    }
  }

  function Width(n: nat): nat { if n < 16 then 1 else 1 + Width(n / 16) }

  lemma {:induction false} HexWidth(n: nat)
    ensures |Hex(n)| == Width(n)
  {
    if n >= 16 { HexWidth(n / 16); }
  }

  /** Of two LSNs in one region, a later, wider one sorts first exactly if its leading digits are lower. */
  lemma {:induction false} LaterSortsFirstIff(a: nat, b: nat, d: nat)
    requires a / 0x1_0000_0000 == b / 0x1_0000_0000
    requires |Hex(b % 0x1_0000_0000)| == |Hex(a % 0x1_0000_0000)| + d
    ensures Before(LsnText(b), LsnText(a)) <==> Leading(b % 0x1_0000_0000, d) < a % 0x1_0000_0000
  {
    hide Hex, Before;
    var h, l, m := Hex(a / 0x1_0000_0000) + "/", a % 0x1_0000_0000, b % 0x1_0000_0000;
    BeforeJoined(h, Hex(m), h, Hex(l));
    BeforeItself(h);
    LongerFirst(l, m, d);
  }

  /** As 0/10000000 sorts before 0/9FFFFFF. */
  lemma {:induction false} LaterSortsFirst()
    ensures Before(LsnText(0x1000_0000), LsnText(0x9FF_FFFF))
  {
    hide Hex, Before, LsnText;
    HexWidth(0x1000_0000);
    HexWidth(0x9FF_FFFF);
    LaterSortsFirstIff(0x9FF_FFFF, 0x1000_0000, 1);
  }
}
