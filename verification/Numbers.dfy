/** Decimal numbers, as one side of the program writes them and another reads them. */
module Numbers {
  import opened Basics
  import JsonScan
  import Collisions

  lemma {:induction false} DecimalReadsDigits(n: nat)
    ensures JsonScan.Decimal(Collisions.DigitText(n)) == Some(n)
  {
    if n > 0 {
      var s := Collisions.DigitText(n);
      DecimalReadsDigits(n / 10);
      assert s[..|s| - 1] == Collisions.DigitText(n / 10) && s[|s| - 1] == '0' + (n % 10) as char;
    }
  }

  /** The envelope's integer reader inverts the writer of the collision names, but for the least integer. */
  lemma AtoiInvertsItoa(n: int)
    requires -0x8000_0000_0000_0000 < n < 0x8000_0000_0000_0000
    ensures JsonScan.Atoi(Collisions.IntText(n)) == Some(n)
  {
    var s := Collisions.IntText(n);
    if n == 0 {
      assert JsonScan.Decimal("0") == Some(0) by {
        assert JsonScan.Decimal("") == Some(0) && "0"[..0] == "";
      }
    } else {
      var m := if n > 0 then n else -n;
      DecimalReadsDigits(m);
      SomeDigits(m);
      if n < 0 {
        assert s[1..] == Collisions.DigitText(m);
      }
    }
  }

  lemma SomeDigits(n: nat)
    requires n > 0
    ensures var s := Collisions.DigitText(n); s != "" && '0' <= s[0] <= '9'
  {
    var s := Collisions.DigitText(n);
    assert s[0] in s;
  }
}
