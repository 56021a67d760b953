/** What belongs to a network, by binary digits: the leading digits that address and network share. */
module NetDigits {
  import opened Basics
  import opened Rules

  /** The lowest `width` binary digits of n, the highest of them first. */
  function Digits(n: nat, width: nat): (ds: seq<nat>)
    ensures |ds| == width && forall i :: 0 <= i < width ==> ds[i] == 0 || ds[i] == 1
  {
    if width == 0 then [] else Digits(n / 2, width - 1) + [n % 2]
  }

  const LIMIT4 := 0x1_0000_0000
  const LIMIT6 := 0x1_0000_0000_0000_0000_0000_0000_0000_0000

  /** Halving first, last, or dividing by twice as much at once. */
  lemma HalfOfQuotient(n: nat, k: nat, d: nat)
    requires k >= 1 && d == 2 * k
    ensures n / 2 / k == n / d == n / k / 2
  {
    DivTwice(n, 2, k, d);
    DivTwice(n, k, 2, d);
  }

  lemma {:induction false} Leading(n: nat, width: nat, p: nat)
    requires p <= width
    ensures Digits(n, width)[..p] == Digits(n / Pow2(width - p), p)
    decreases width
  {
    if p == width {
      assert Digits(n, width)[..p] == Digits(n, width);
    } else {
      Leading(n / 2, width - 1, p);
      HalfOfQuotient(n, Pow2(width - 1 - p), Pow2(width - p));
      assert Digits(n, width)[..p] == Digits(n / 2, width - 1)[..p];
    }
  }

  lemma {:induction false} DigitsApart(a: nat, b: nat, p: nat)
    requires a < Pow2(p) && b < Pow2(p) && Digits(a, p) == Digits(b, p)
    ensures a == b
  {
    if p > 0 {
      var da, db := Digits(a, p), Digits(b, p);
      assert da[..p - 1] == Digits(a / 2, p - 1) && db[..p - 1] == Digits(b / 2, p - 1);
      assert da[p - 1] == a % 2 && db[p - 1] == b % 2;
      DigitsApart(a / 2, b / 2, p - 1);
    }
  }

  lemma {:induction false} QuotientFits(n: nat, width: nat, p: nat)
    requires p <= width && n < Pow2(width)
    ensures n / Pow2(width - p) < Pow2(p)
    decreases width
  {
    if p < width {
      QuotientFits(n / 2, width - 1, p);
      HalfOfQuotient(n, Pow2(width - 1 - p), Pow2(width - p));
    }
  }

  lemma SameQuotient(a: nat, b: nat, size: nat)
    requires size >= 1
    ensures Masked(a, size) == Masked(b, size) <==> a / size == b / size
  {
    if a / size < b / size {
      MulStep(a / size, b / size, size);
    } else if b / size < a / size {
      MulStep(b / size, a / size, size);
    }
  }

  /** Masks are equal exactly when the leading digits are. */
  lemma SameLeading(a: nat, b: nat, width: nat, p: nat)
    requires p <= width && a < Pow2(width) && b < Pow2(width)
    ensures Masked(a, Pow2(width - p)) == Masked(b, Pow2(width - p)) <==> Digits(a, width)[..p] == Digits(b, width)[..p]
  {
    hide Masked, Digits, Pow2;
    var size := Pow2(width - p);
    SameQuotient(a, b, size);
    Leading(a, width, p);
    Leading(b, width, p);
    QuotientFits(a, width, p);
    QuotientFits(b, width, p);
    if Digits(a / size, p) == Digits(b / size, p) {
      DigitsApart(a / size, b / size, p);
    }
  }

  lemma Powers()
    ensures Pow2(32) == LIMIT4 && Pow2(128) == LIMIT6
  {
    SmallPower();
    hide Pow2;
    PowerSum(8, 8);
    PowerSum(16, 16);
    PowerSum(32, 32);
    PowerSum(64, 64);
  }

  lemma SmallPower()
    ensures Pow2(8) == 0x100
  {}

  lemma {:induction false} PowerSum(a: nat, b: nat)
    ensures Pow2(a + b) == Pow2(a) * Pow2(b)
  {
    if a > 0 {
      PowerSum(a - 1, b);
      assert 2 * (Pow2(a - 1) * Pow2(b)) == 2 * Pow2(a - 1) * Pow2(b);
    }
  }

  /** An IPv4 address is in a network exactly when the first digits, as many as the prefix says, agree. */
  lemma InNet4(n: nat, base: nat, prefix: nat)
    requires n < LIMIT4 && base < LIMIT4 && prefix <= 32
    ensures InNet(V4(n), Net4(base, prefix)) <==> Digits(n, 32)[..prefix] == Digits(base, 32)[..prefix]
    ensures !InNet(V6(n), Net4(base, prefix))
  {
    hide Digits, Pow2, Masked;
    Powers();
    SameLeading(n, base, 32, prefix);
  }

  /** The same for IPv6 with its 128 digits. */
  lemma InNet6(n: nat, base: nat, prefix: nat)
    requires n < LIMIT6 && base < LIMIT6 && prefix <= 128
    ensures InNet(V6(n), Net6(base, prefix)) <==> Digits(n, 128)[..prefix] == Digits(base, 128)[..prefix]
    ensures !InNet(V4(n), Net6(base, prefix))
  {
    hide Digits, Pow2, Masked;
    Powers();
    SameLeading(n, base, 128, prefix);
  }

  /** The empty prefix takes every address and the full one exactly one. */
  lemma Extremes(n: nat, base: nat)
    requires n < LIMIT4 && base < LIMIT4
    ensures InNet(V4(n), Net4(base, 0))
    ensures InNet(V4(n), Net4(base, 32)) <==> n == base
  {
    hide Digits, Pow2, InNet;
    Powers();
    InNet4(n, base, 0);
    InNet4(n, base, 32);
    assert Digits(n, 32)[..32] == Digits(n, 32) && Digits(base, 32)[..32] == Digits(base, 32);
    if n != base && Digits(n, 32) == Digits(base, 32) {
      DigitsApart(n, base, 32);
    }
  }

  /** One digit more splits a network into two halves: the one the base lies in and the other. */
  lemma Halves(n: nat, base: nat, other: nat, prefix: nat)
    requires n < LIMIT4 && base < LIMIT4 && other < LIMIT4 && prefix < 32
    requires InNet(V4(other), Net4(base, prefix)) && !InNet(V4(other), Net4(base, prefix + 1))
    ensures InNet(V4(n), Net4(base, prefix))
       <==> InNet(V4(n), Net4(base, prefix + 1)) || InNet(V4(n), Net4(other, prefix + 1))
    ensures !(InNet(V4(n), Net4(base, prefix + 1)) && InNet(V4(n), Net4(other, prefix + 1)))
  {
    hide Digits, InNet;
    InNet4(n, base, prefix);
    InNet4(other, base, prefix);
    InNet4(other, base, prefix + 1);
    InNet4(n, base, prefix + 1);
    InNet4(n, other, prefix + 1);
    OneMore(Digits(n, 32), prefix);
    OneMore(Digits(base, 32), prefix);
    OneMore(Digits(other, 32), prefix);
  }

  lemma OneMore(ds: seq<nat>, p: nat)
    requires p < |ds|
    ensures ds[..p + 1] == ds[..p] + [ds[p]] && ds[..p + 1][..p] == ds[..p]
  {}
}
