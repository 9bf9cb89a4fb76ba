/** Journal record names, `<nanos>-<20-digit seq>.json`, and their byte-wise order. */
module JournalNames {
  import opened Arith

  /** Byte-wise order of strings, as a sorted directory listing uses it. */
  predicate Less(a: string, b: string) {
    if |b| == 0 then false
    else if |a| == 0 then true
    else if a[0] != b[0] then a[0] < b[0]
    else Less(a[1..], b[1..])
  }

  lemma LessIsStrict(a: string)
    ensures !Less(a, a)
  {
  }

  lemma LessIsTransitive(a: string, b: string, c: string)
    requires Less(a, b) && Less(b, c)
    ensures Less(a, c)
  {
  }

  lemma LessIsTotal(a: string, b: string)
    ensures Less(a, b) || a == b || Less(b, a)
  {
    if |a| > 0 && |b| > 0 && a[0] == b[0] {
      LessIsTotal(a[1..], b[1..]);
      assert a[1..] == b[1..] ==> a == b by {
        assert a == [a[0]] + a[1..] && b == [b[0]] + b[1..];
      }
    }
  }

  // ---------------------------------------------------------------- decimal numerals

  /** The number of decimal digits of `n`. */
  function Width(n: nat): (w: nat)
    ensures w >= 1 && n < Pow10(w) && (n > 0 ==> Pow10(w - 1) <= n)
  {
    if n < 10 then assert Pow10(1) == 10; 1
    else
      var w := Width(n / 10);
      assert Pow10(w) == 10 * Pow10(w - 1);
      1 + w
  }

  function Numeral(d: int): char
    requires 0 <= d < 10
  {
    ('0' as int + d) as char
  }

  lemma Leading(n: nat, w: nat)
    requires w > 0 && n < Pow10(w)
    ensures 0 <= n / Pow10(w - 1) < 10 && n % Pow10(w - 1) < Pow10(w - 1)
    ensures n == n / Pow10(w - 1) * Pow10(w - 1) + n % Pow10(w - 1)
  {
    var p := Pow10(w - 1);
    assert n / p * p <= n;
    MulLess(n / p, 10, p);
  }

  function Quot(n: nat, p: nat): nat
    requires p > 0
  {
    n / p
  }

  /** `n` in exactly `w` digits, with leading zeros. */
  function Padded(n: nat, w: nat): (s: string)
    requires n < Pow10(w)
    ensures |s| == w
  {
    if w == 0 then ""
    else
      Leading(n, w);
      [Numeral(n / Pow10(w - 1))] + Padded(n % Pow10(w - 1), w - 1)
  }

  lemma LeadingDecides(m: nat, n: nat, p: nat)
    requires p > 0
    ensures m < n <==> m / p < n / p || (m / p == n / p && m % p < n % p)
    ensures m == n <==> m / p == n / p && m % p == n % p
  {
    var a, b := m / p, n / p;
    assert m == a * p + m % p && n == b * p + n % p;
    if a < b {
      assert (a + 1) * p <= b * p;
    } else if b < a {
      assert (b + 1) * p <= a * p;
    }
  }

  /** Numerals of one width are ordered as their numbers; a tie is decided behind them. */
  lemma {:induction false} PaddedOrder(m: nat, n: nat, w: nat, x: string, y: string)
    requires m < Pow10(w) && n < Pow10(w)
    ensures Less(Padded(m, w) + x, Padded(n, w) + y) <==> m < n || (m == n && Less(x, y))
    decreases w
  {
    if w == 0 {
      assert "" + x == x && "" + y == y;
    } else {
      var p := Pow10(w - 1);
      Leading(m, w);
      Leading(n, w);
      LeadingDecides(m, n, p);
      PaddedOrder(m % p, n % p, w - 1, x, y);
      var s, t := Padded(m, w) + x, Padded(n, w) + y;
      assert s[1..] == Padded(m % p, w - 1) + x && t[1..] == Padded(n % p, w - 1) + y;
    }
  }

  lemma PowSplits(a: nat, b: nat)
    ensures Pow10(a + b) == Pow10(a) * Pow10(b)
  {
    if a > 0 {
      PowSplits(a - 1, b);
      assert Pow10(a) == 10 * Pow10(a - 1);
    }
  }

  lemma QuotientFits(n: nat, v: nat, w: nat)
    requires n < Pow10(v + w)
    ensures n / Pow10(w) < Pow10(v)
  {
    var p := Pow10(w);
    PowSplits(v, w);
    assert n / p * p <= n;
    MulLess(n / p, Pow10(v), p);
  }

  /** The first `v` digits of a numeral are the numeral of the number without the others. */
  lemma {:induction false} PaddedSplits(n: nat, v: nat, w: nat)
    requires n < Pow10(v + w)
    ensures n / Pow10(w) < Pow10(v) && n % Pow10(w) < Pow10(w)
    ensures Padded(n, v + w) == Padded(n / Pow10(w), v) + Padded(n % Pow10(w), w)
    decreases v
  {
    QuotientFits(n, v, w);
    if v == 0 {
      DivModUnique(n, Pow10(w), 0, n);
    } else {
      SplitOnce(n, v, w);
      PaddedSplits(n % Pow10(v + w - 1), v - 1, w);
    }
  }

  lemma SplitOnce(n: nat, v: nat, w: nat)
    requires v > 0 && n < Pow10(v + w) && n / Pow10(w) < Pow10(v)
    ensures var q, p, r := Pow10(v + w - 1), Pow10(w), Pow10(v - 1);
            n / p / r == n / q && n / p % r == n % q / p && n % q % p == n % p && n % q < q
  {
    PowSplits(w, v - 1);
    assert w + (v - 1) == v + w - 1;
    DivSplits(n, Pow10(w), Pow10(v - 1), Pow10(v + w - 1));
  }

  // ---------------------------------------------------------------- record names

  /** The sequence number of the process, a 64-bit counter. */
  const MAX_SEQ: nat := 0xFFFF_FFFF_FFFF_FFFF

  function Name(nanos: nat, seqno: nat): string
    requires seqno <= MAX_SEQ
  {
    SeqnoFits(seqno);
    Padded(nanos, Width(nanos)) + ("-" + (Padded(seqno, 20) + ".json"))
  }

  lemma SeqnoFits(seqno: nat)
    requires seqno <= MAX_SEQ
    ensures seqno < Pow10(20)
  {
    PowSplits(10, 10);
    assert Pow10(5) == 100000;
    PowSplits(5, 5);
  }

  /** What follows the time in a name. */
  function NameTail(seqno: nat): string
    requires seqno <= MAX_SEQ
  {
    SeqnoFits(seqno);
    "-" + (Padded(seqno, 20) + ".json")
  }

  lemma TailOrder(s: nat, t: nat)
    requires s <= MAX_SEQ && t <= MAX_SEQ
    ensures Less(NameTail(s), NameTail(t)) <==> s < t
  {
    SeqnoFits(s);
    SeqnoFits(t);
    PaddedOrder(s, t, 20, ".json", ".json");
    assert NameTail(s)[1..] == Padded(s, 20) + ".json" && NameTail(t)[1..] == Padded(t, 20) + ".json";
    LessIsStrict(".json");
  }

  /** A shorter time against a longer one: only the leading digits are compared. */
  lemma ShorterOrder(a: nat, s: nat, b: nat, t: nat)
    requires s <= MAX_SEQ && t <= MAX_SEQ && Width(a) < Width(b)
    ensures var lead := b / Pow10(Width(b) - Width(a));
            (Less(Name(a, s), Name(b, t)) <==> a <= lead) && (Less(Name(b, t), Name(a, s)) <==> lead < a)
  {
    var v, w := Width(a), Width(b) - Width(a);
    var lead, low := Quot(b, Pow10(w)), b % Pow10(w);
    NameSplits(b, t, v, w, lead, low);
    var x, y := NameTail(s), Padded(low, w) + NameTail(t);
    DashBeforeDigit(s, low, w, NameTail(t));
    PaddedOrder(a, lead, v, x, y);
    PaddedOrder(lead, a, v, y, x);
  }

  lemma NameSplits(b: nat, t: nat, v: nat, w: nat, lead: nat, low: nat)
    requires t <= MAX_SEQ && v + w == Width(b) && lead == Quot(b, Pow10(w)) && low == b % Pow10(w)
    ensures lead < Pow10(v) && low < Pow10(w)
    ensures Name(b, t) == Padded(lead, v) + (Padded(low, w) + NameTail(t))
  {
    PaddedSplits(b, v, w);
    Appends(Padded(b, v + w), Padded(lead, v), Padded(low, w), NameTail(t));
  }

  lemma Appends(n: string, a: string, b: string, k: string)
    requires n == a + b
    ensures n + k == a + (b + k)
  {
  }

  lemma DashBeforeDigit(s: nat, low: nat, w: nat, k: string)
    requires s <= MAX_SEQ && w > 0 && low < Pow10(w)
    ensures Less(NameTail(s), Padded(low, w) + k) && !Less(Padded(low, w) + k, NameTail(s))
  {
    Leading(low, w);
    assert NameTail(s)[0] == '-';
    assert (Padded(low, w) + k)[0] == Numeral(low / Pow10(w - 1));
  }

  /**
    Exactly when one name sorts before another. For times of one width, and so for all
    times until 2286, this is the order of the pairs (nanos, seqno).
   */
  lemma NameOrder(a: nat, s: nat, b: nat, t: nat)
    requires s <= MAX_SEQ && t <= MAX_SEQ
    ensures Less(Name(a, s), Name(b, t)) <==>
            if Width(a) == Width(b) then a < b || (a == b && s < t)
            else if Width(a) < Width(b) then a <= b / Pow10(Width(b) - Width(a))
            else a / Pow10(Width(a) - Width(b)) < b
  {
    if Width(a) == Width(b) {
      PaddedOrder(a, b, Width(a), NameTail(s), NameTail(t));
      TailOrder(s, t);
    } else if Width(a) < Width(b) {
      ShorterOrder(a, s, b, t);
    } else {
      ShorterOrder(b, t, a, s);
    }
  }

  predicate DigitsOnly(s: string) {
    forall c <- s :: '0' <= c <= '9'
  }

  lemma {:induction false} PaddedIsDigits(n: nat, w: nat)
    requires n < Pow10(w)
    ensures DigitsOnly(Padded(n, w))
    decreases w
  {
    if w > 0 {
      Leading(n, w);
      PaddedIsDigits(n % Pow10(w - 1), w - 1);
    }
  }

  /** A name is some digits, a dash, twenty digits and ".json". */
  lemma NameText(nanos: nat, seqno: nat) returns (time: string, number: string)
    requires seqno <= MAX_SEQ
    ensures Name(nanos, seqno) == time + ("-" + (number + ".json"))
    ensures time != "" && DigitsOnly(time) && |number| == 20 && DigitsOnly(number)
    ensures NumberOf(time) == nanos && NumberOf(number) == seqno
  {
    SeqnoFits(seqno);
    time, number := Padded(nanos, Width(nanos)), Padded(seqno, 20);
    PaddedIsDigits(nanos, Width(nanos));
    PaddedIsDigits(seqno, 20);
    NumberOfPadded(nanos, Width(nanos));
    NumberOfPadded(seqno, 20);
  }

  /** The number that decimal digits write. */
  function NumberOf(s: string): int {
    if s == "" then 0 else 10 * NumberOf(s[..|s| - 1]) + (s[|s| - 1] as int - '0' as int)
  }

  lemma {:induction false} NumberOfPadded(n: nat, w: nat)
    requires n < Pow10(w)
    ensures NumberOf(Padded(n, w)) == n
    decreases w
  {
    if w > 0 {
      Leading(n, w);
      var p := Pow10(w - 1);
      NumberOfPadded(n % p, w - 1);
      LeadingDigit(Numeral(n / p), Padded(n % p, w - 1));
    }
  }

  lemma {:induction false} LeadingDigit(c: char, s: string)
    ensures NumberOf([c] + s) == (c as int - '0' as int) * Pow10(|s|) + NumberOf(s)
    decreases |s|
  {
    var t := [c] + s;
    if s == "" {
      assert t[..0] == "";
      assert NumberOf(t) == c as int - '0' as int;
    } else {
      var m := |s| - 1;
      assert t[..|t| - 1] == [c] + s[..m] && t[|t| - 1] == s[m];
      LeadingDigit(c, s[..m]);
      TimesTen(c as int - '0' as int, Pow10(m));
    }
  }

  lemma TimesTen(d: int, p: nat)
    ensures 10 * (d * p) == d * (10 * p)
  {
  }

  /** A name has only one time and one number. */
  lemma NameInjective(a: nat, s: nat, b: nat, t: nat)
    requires s <= MAX_SEQ && t <= MAX_SEQ && Name(a, s) == Name(b, t)
    ensures a == b && s == t
  {
    NameOrder(a, s, b, t);
    NameOrder(b, t, a, s);
    LessIsStrict(Name(a, s));
  }

  /** Across a change of width a later record can sort first. */
  lemma WidthMatters()
    ensures Less(Name(10, 2), Name(9, 1))
  {
    assert Width(9) == 1 && Width(10) == 2 by {
      assert Width(10 / 10) == 1;
    }
    assert Pow10(1) == 10 * Pow10(0);
    NameOrder(10, 2, 9, 1);
  }
}
