/** Conversion between display amounts and on-chain amounts of a token with a number of
    decimals. The amounts are exact reals here, not IEEE-754 doubles. */
module TokenAmount {
  import opened Decimal

  /** The text `1${new Array(decimals).fill(0).join('')}`: a one and `decimals` zeros. */
  function FactorText(decimals: nat): (s: string)
    ensures |s| == decimals + 1 && IsDigits(s)
  {
    "1" + seq(decimals, _ => '0')
  }

  lemma {:induction false} FactorTextValue(decimals: nat)
    ensures DigitsValue(FactorText(decimals)) == Pow10(decimals)
  {
    if decimals > 0 {
      FactorTextValue(decimals - 1);
      assert FactorText(decimals)[..decimals] == FactorText(decimals - 1);
    }
  }

  /** Number() of that text: the factor is exactly 10^decimals. */
  function Factor(decimals: nat): (f: real)
    ensures f == Pow10(decimals) as real
  {
    FactorTextValue(decimals);
    DigitsValue(FactorText(decimals)) as real
  }

  /** fromDisplayToChain: the amount in the token's smallest unit, 10^decimals per whole. */
  function FromDisplayToChain(amount: real, decimals: nat): (r: real)
    ensures r == amount * Pow10(decimals) as real
  {
    amount * Factor(decimals)
  }

  /** fromChainToDisplay: the display amount whose 10^decimals smallest units make the
      on-chain amount. */
  function FromChainToDisplay(amount: real, decimals: nat): (r: real)
    ensures r * Pow10(decimals) as real == amount
  {
    amount / Factor(decimals)
  }

  /** With no decimals both directions return the amount; a zero amount stays zero. */
  lemma Neutral(amount: real, decimals: nat)
    ensures FromDisplayToChain(amount, 0) == amount && FromChainToDisplay(amount, 0) == amount
    ensures FromDisplayToChain(0.0, decimals) == 0.0 && FromChainToDisplay(0.0, decimals) == 0.0
  {
  }

  /** The two conversions are inverse to each other, in both orders. */
  lemma RoundTrip(amount: real, decimals: nat)
    ensures FromChainToDisplay(FromDisplayToChain(amount, decimals), decimals) == amount
    ensures FromDisplayToChain(FromChainToDisplay(amount, decimals), decimals) == amount
  {
  }

  /** One more decimal scales the on-chain amount up, and the display amount down, by ten. */
  lemma OneMoreDecimal(amount: real, decimals: nat)
    ensures FromDisplayToChain(amount, decimals + 1) == 10.0 * FromDisplayToChain(amount, decimals)
    ensures 10.0 * FromChainToDisplay(amount, decimals + 1) == FromChainToDisplay(amount, decimals)
  {
    var f := Factor(decimals);
    assert Factor(decimals + 1) == 10.0 * f;
    TenfoldDivisor(amount, f);
  }

  /** Dividing by a ten times larger divisor gives a ten times smaller quotient. */
  lemma TenfoldDivisor(x: real, f: real)
    requires f > 0.0
    ensures 10.0 * (x / (10.0 * f)) == x / f
  {
    var q := x / (10.0 * f);
    assert q * (10.0 * f) == x;
    assert (10.0 * q) * f == x;
  }

  /** Scaling by a positive factor keeps the order of two amounts, both ways. */
  lemma ScaleKeepsOrder(a: real, b: real, f: real)
    requires f > 0.0
    ensures a < b <==> a * f < b * f
  {
    assert b * f - a * f == (b - a) * f;
  }

  /** For fixed decimals the conversion to the chain keeps the sign and the order of amounts. */
  lemma ChainMonotone(a: real, b: real, decimals: nat)
    ensures a < b <==> FromDisplayToChain(a, decimals) < FromDisplayToChain(b, decimals)
    ensures (a > 0.0 <==> FromDisplayToChain(a, decimals) > 0.0) && (a < 0.0 <==> FromDisplayToChain(a, decimals) < 0.0)
  {
    var f := Factor(decimals);
    ScaleKeepsOrder(a, b, f);
    ScaleKeepsOrder(0.0, a, f);
    ScaleKeepsOrder(a, 0.0, f);
  }

  /** For fixed decimals the conversion for display keeps the sign and the order of amounts. */
  lemma DisplayMonotone(a: real, b: real, decimals: nat)
    ensures a < b <==> FromChainToDisplay(a, decimals) < FromChainToDisplay(b, decimals)
    ensures (a > 0.0 <==> FromChainToDisplay(a, decimals) > 0.0) && (a < 0.0 <==> FromChainToDisplay(a, decimals) < 0.0)
  {
    // the display amounts are converted back to a and b, and that direction keeps order
    var x, y := FromChainToDisplay(a, decimals), FromChainToDisplay(b, decimals);
    RoundTrip(a, decimals);
    RoundTrip(b, decimals);
    ChainMonotone(x, y, decimals);
  }
}
