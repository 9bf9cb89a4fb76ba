/** Cutting a string to a number of bytes without splitting a rune. */
module Utf8Cut {
  import opened Utf8

  /** The last bytes are the encoding of a rune; what utf8.DecodeLastRune tells by its result. */
  predicate EndsInRune(b: string) {
    exists w :: 1 <= w <= 4 && EndsInRuneOf(b, w)
  }

  predicate EndsInRuneOf(b: string, w: nat) {
    w <= |b| && DecodeRune(b[|b| - w..]).Some? && DecodeRune(b[|b| - w..]).value.width == w
  }

  /** Bytes are dropped at the end until a rune ends there, or nothing is left. */
  function DropBroken(b: string): (r: string)
    ensures r <= b
  {
    if |b| > 0 && !EndsInRune(b) then DropBroken(b[..|b| - 1]) else b
  }

  function TruncateBytes(s: string, max: nat): string {
    if |s| <= max then s else DropBroken(s[..max])
  }

  method Truncate(s: string, max: nat) returns (r: string)
    ensures r == TruncateBytes(s, max)
  {
    if |s| <= max {
      return s;
    }
    var b := s[..max];
    while |b| > 0
      invariant DropBroken(b) == TruncateBytes(s, max)
    {
      if EndsInRune(b) {
        break;
      }
      b := b[..|b| - 1];
    }
    r := b;
  }

  /** ASCII is cut where the limit is. */
  lemma AsciiIsJustCut(s: string, max: nat)
    requires forall c <- s :: c < 0x80 as char
    ensures TruncateBytes(s, max) == if |s| <= max then s else s[..max]
  {
    if |s| > max > 0 {
      assert s[max - 1] in s && s[..max][max - 1..] == [s[max - 1]];
      assert EndsInRuneOf(s[..max], 1);
    }
  }

  // ---------------------------------------------------------------- valid UTF-8

  /** A sequence of encoded runes. */
  predicate Valid(s: string) {
    |s| == 0 || (DecodeRune(s).Some? && Valid(s[DecodeRune(s).value.width..]))
  }

  /** A rune of a valid string starts at `k`, or the string ends there. */
  predicate Boundary(s: string, k: nat)
    requires Valid(s) && k <= |s|
  {
    k == 0 || (|s| > 0 && DecodeRune(s).value.width <= k
               && Boundary(s[DecodeRune(s).value.width..], k - DecodeRune(s).value.width))
  }

  /** Only the bytes that are needed are looked at. */
  lemma DecodeLooksAhead(s: string, t: string)
    requires t <= s && DecodeRune(t).Some?
    ensures DecodeRune(s) == DecodeRune(t) && DecodeRune(s).value.width <= |t|
  {
  }

  lemma DecodeStopsAtWidth(s: string, t: string)
    requires t <= s && DecodeRune(s).Some? && DecodeRune(s).value.width <= |t|
    ensures DecodeRune(t) == DecodeRune(s)
  {
  }

  lemma LeadAndTails(s: string)
    requires DecodeRune(s).Some?
    ensures !Tail(s[0]) && DecodeRune(s).value.width <= |s|
    ensures forall i :: 0 < i < DecodeRune(s).value.width ==> Tail(s[i])
  {
  }

  /** In a valid string the runes start at the bytes that are not continuations. */
  lemma {:induction false} BoundaryIffLead(s: string, k: nat)
    requires Valid(s) && k < |s|
    ensures Boundary(s, k) <==> !Tail(s[k])
    decreases |s|
  {
    LeadAndTails(s);
    var w := DecodeRune(s).value.width;
    if k >= w {
      BoundaryIffLead(s[w..], k - w);
    }
  }

  lemma {:induction false} EndIsBoundary(s: string)
    requires Valid(s)
    ensures Boundary(s, |s|)
    decreases |s|
  {
    if |s| > 0 {
      LeadAndTails(s);
      EndIsBoundary(s[DecodeRune(s).value.width..]);
    }
  }

  /** From a boundary the string goes on with a rune, and the next boundary is behind it. */
  lemma {:induction false} NextBoundary(s: string, k: nat)
    requires Valid(s) && k < |s| && Boundary(s, k)
    ensures DecodeRune(s[k..]).Some?
    ensures var w := DecodeRune(s[k..]).value.width; k + w <= |s| && Boundary(s, k + w)
    decreases |s|
  {
    LeadAndTails(s);
    var w := DecodeRune(s).value.width;
    if k == 0 {
      assert s[0..] == s;
      assert Boundary(s[w..], 0);
    } else {
      NextBoundary(s[w..], k - w);
      assert s[w..][k - w..] == s[k..];
    }
  }

  /** A boundary behind the start has a rune before it. */
  lemma {:induction false} PreviousBoundary(s: string, k: nat) returns (w: nat)
    requires Valid(s) && 0 < k <= |s| && Boundary(s, k)
    ensures 1 <= w <= 4 && w <= k && Boundary(s, k - w) && EndsInRuneOf(s[..k], w)
    decreases |s|
  {
    LeadAndTails(s);
    w := DecodeRune(s).value.width;
    if k == w {
      assert s[..k][k - w..] == s[..w];
      DecodeStopsAtWidth(s, s[..w]);
    } else {
      var v := w;
      w := PreviousBoundary(s[v..], k - v);
      BehindCut(s, v, k, w);
    }
  }

  /** The end of a cut, seen from two starts. */
  lemma BehindCut(s: string, v: nat, k: nat, w: nat)
    requires v + w <= k <= |s|
    ensures s[v..][..k - v][k - v - w..] == s[..k][k - w..]
  {
  }

  /** `t` is a whole rune and ends at `k`. */
  lemma RuneEndsAt(s: string, k: nat, t: string)
    requires Valid(s) && |t| <= k <= |s| && t == s[k - |t|..k]
    requires DecodeRune(t).Some? && DecodeRune(t).value.width == |t|
    ensures Boundary(s, k)
  {
    var u := s[k - |t|..];
    assert u[..|t|] == t;
    LeadAndTails(t);
    BoundaryIffLead(s, k - |t|);
    NextBoundary(s, k - |t|);
    DecodeLooksAhead(u, t);
  }

  /** A cut ends in a rune exactly when it is a boundary. */
  lemma EndsAtBoundary(s: string, k: nat)
    requires Valid(s) && 0 < k <= |s|
    ensures EndsInRune(s[..k]) <==> Boundary(s, k)
  {
    if Boundary(s, k) {
      var w := PreviousBoundary(s, k);
    }
    forall w | 1 <= w <= 4 && EndsInRuneOf(s[..k], w) ensures Boundary(s, k) {
      assert s[..k][k - w..] == s[k - w..k];
      RuneEndsAt(s, k, s[k - w..k]);
    }
  }

  /** Valid UTF-8 is cut at the last boundary within the limit. */
  lemma {:induction false} CutAtBoundary(s: string, max: nat) returns (k: nat)
    requires Valid(s) && max <= |s|
    ensures k <= max && Boundary(s, k) && DropBroken(s[..max]) == s[..k]
    ensures forall j :: k < j <= max ==> !Boundary(s, j)
  {
    if max == 0 {
      return 0;
    }
    EndsAtBoundary(s, max);
    if Boundary(s, max) {
      return max;
    }
    assert s[..max][..max - 1] == s[..max - 1];
    k := CutAtBoundary(s, max - 1);
  }

  lemma {:induction false} ValidUpTo(s: string, k: nat)
    requires Valid(s) && k <= |s| && Boundary(s, k)
    ensures Valid(s[..k])
    decreases |s|
  {
    if k > 0 {
      LeadAndTails(s);
      var w := DecodeRune(s).value.width;
      DecodeStopsAtWidth(s, s[..k]);
      ValidUpTo(s[w..], k - w);
      assert s[w..][..k - w] == s[..k][w..];
    }
  }

  /** A prefix of valid UTF-8 is itself valid only if it ends at a boundary. */
  lemma {:induction false} ValidOnlyUpTo(s: string, t: string)
    requires Valid(s) && t <= s && Valid(t)
    ensures Boundary(s, |t|)
    decreases |s|
  {
    if |t| > 0 {
      DecodeLooksAhead(s, t);
      var w := DecodeRune(s).value.width;
      ValidOnlyUpTo(s[w..], t[w..]);
    }
  }

  /** Valid UTF-8 is cut to its longest prefix within the limit that is valid UTF-8. */
  lemma LongestValidPrefix(s: string, max: nat)
    requires Valid(s)
    ensures var r := TruncateBytes(s, max);
            && r <= s && |r| <= max && Valid(r)
            && forall t :: t <= s && |t| <= max && Valid(t) ==> |t| <= |r|
  {
    if |s| > max {
      var k := CutAtBoundary(s, max);
      ValidUpTo(s, k);
      forall t | t <= s && |t| <= max && Valid(t) ensures |t| <= k {
        ValidOnlyUpTo(s, t);
      }
    }
  }

  /** Any string is cut to its longest prefix within the limit that ends in a rune, or to nothing. */
  lemma {:induction false} DropsToRune(b: string)
    ensures var r := DropBroken(b);
            && r <= b && (r == "" || EndsInRune(r))
            && forall k :: |r| < k <= |b| ==> !EndsInRune(b[..k])
    decreases |b|
  {
    assert b[..|b|] == b;
    if |b| > 0 && !EndsInRune(b) {
      var shorter := b[..|b| - 1];
      DropsToRune(shorter);
      forall k | |DropBroken(shorter)| < k <= |b| ensures !EndsInRune(b[..k]) {
        assert k < |b| ==> b[..k] == shorter[..k];
      }
    }
  }
}
