/** The marketing calculator's graduated price, over real numbers. */
module Pricing {
  import opened Numbers
  import opened Wrappers

  /** A tier's upper limit is absent when it is infinite. */
  datatype Tier = Tier(upTo: Option<real>, price: real)

  datatype Product = Product(freeThreshold: real, tiers: seq<Tier>)

  // ---------- The loop as a recursion ----------

  /** What a volume costs at a unit price. */
  function Amount(price: real, volume: real): real {
    volume * price
  }

  function Fee(price: real, volume: real): real {
    if price > 0.0 && volume > 0.0 then Amount(price, volume) else 0.0
  }

  /** What the loop still adds with `remaining` units left above `prev`. An infinite tier takes
      all of them, so the loop ends after it. */
  function Charge(remaining: real, prev: real, tiers: seq<Tier>): real
    decreases tiers
  {
    if tiers == [] || remaining <= 0.0 then 0.0
    else
      match tiers[0].upTo
      case None => Fee(tiers[0].price, remaining)
      case Some(limit) =>
        var volume := MinReal(remaining, limit - prev);
        Fee(tiers[0].price, volume) + Charge(remaining - volume, limit, tiers[1..])
  }

  function Cost(usage: real, product: Product): real {
    if usage <= product.freeThreshold then 0.0 else Charge(usage, 0.0, product.tiers)
  }

  method CalculateCost(usage: real, product: Product) returns (cost: real)
    ensures cost == Cost(usage, product)
  {
    if usage <= product.freeThreshold {
      return 0.0;
    }
    cost := 0.0;
    var remaining, prevLimit := usage, 0.0;
    var n := 0;
    while n < |product.tiers|
      invariant 0 <= n <= |product.tiers|
      invariant cost + Charge(remaining, prevLimit, product.tiers[n..]) == Charge(usage, 0.0, product.tiers)
    {
      if remaining <= 0.0 {
        break;
      }
      var tier := product.tiers[n];
      assert product.tiers[n..][1..] == product.tiers[n + 1..];
      var tierVolume := if tier.upTo.None? then remaining else MinReal(remaining, tier.upTo.value - prevLimit);
      if tier.price > 0.0 && tierVolume > 0.0 {
        cost := cost + tierVolume * tier.price;
      }
      remaining := remaining - tierVolume;
      prevLimit := if tier.upTo.Some? then tier.upTo.value else prevLimit;
      n := n + 1;
    }
  }

  // ---------- The price it is meant to be ----------

  /** Limits ascend from `prev`, only the last may be infinite, and no price is negative. */
  ghost predicate Proper(tiers: seq<Tier>, prev: real) {
    tiers == [] ||
    (tiers[0].price >= 0.0
     && match tiers[0].upTo
        case None => |tiers| == 1
        case Some(limit) => prev < limit && Proper(tiers[1..], limit))
  }

  /** How much of `usage` falls between `prev` and the tier's limit. */
  function Share(usage: real, prev: real, upTo: Option<real>): real {
    match upTo
    case None => MaxReal(0.0, usage - prev)
    case Some(limit) => MaxReal(0.0, MinReal(usage, limit) - prev)
  }

  /** The sum over all tiers of price times share. */
  function Graduated(usage: real, prev: real, tiers: seq<Tier>): real
    decreases tiers
  {
    if tiers == [] then 0.0
    else
      Amount(tiers[0].price, Share(usage, prev, tiers[0].upTo))
      + match tiers[0].upTo
        case None => 0.0
        case Some(limit) => Graduated(usage, limit, tiers[1..])
  }

  function MaxPrice(tiers: seq<Tier>): real {
    if tiers == [] then 0.0 else MaxReal(tiers[0].price, MaxPrice(tiers[1..]))
  }

  lemma AmountOfNothing(price: real)
    ensures Amount(price, 0.0) == 0.0
  {
  }

  lemma FreeOfCharge(volume: real)
    ensures Amount(0.0, volume) == 0.0
  {
  }

  lemma AmountsAdd(price: real, x: real, y: real, z: real)
    requires x + y == z
    ensures Amount(price, x) + Amount(price, y) == Amount(price, z)
  {
  }

  lemma AmountGrows(price: real, x: real, y: real)
    requires price >= 0.0 && x <= y
    ensures Amount(price, x) <= Amount(price, y)
  {
  }

  lemma DearerCostsMore(price: real, rate: real, x: real)
    requires 0.0 <= price <= rate && 0.0 <= x
    ensures 0.0 <= Amount(price, x) <= Amount(rate, x)
  {
  }

  lemma {:induction false} NothingBelow(usage: real, prev: real, tiers: seq<Tier>)
    requires Proper(tiers, prev) && usage <= prev
    ensures Graduated(usage, prev, tiers) == 0.0
    decreases tiers
  {
    hide Amount;
    if tiers != [] {
      AmountOfNothing(tiers[0].price);
      if tiers[0].upTo.Some? { NothingBelow(usage, tiers[0].upTo.value, tiers[1..]); }
    }
  }

  /** On proper tiers the loop computes the sum. */
  lemma {:induction false} ChargeIsGraduated(usage: real, prev: real, tiers: seq<Tier>)
    requires Proper(tiers, prev)
    ensures Charge(usage - prev, prev, tiers) == Graduated(usage, prev, tiers)
    decreases tiers
  {
    hide Amount;
    if usage <= prev {
      NothingBelow(usage, prev, tiers);
    } else if tiers != [] {
      FreeOfCharge(Share(usage, prev, tiers[0].upTo));
      if tiers[0].upTo.Some? {
        var limit := tiers[0].upTo.value;
        if usage <= limit {
          NothingBelow(usage, limit, tiers[1..]);
        } else {
          ChargeIsGraduated(usage, limit, tiers[1..]);
          assert (usage - prev) - (limit - prev) == usage - limit;
        }
      }
    }
  }

  /** The tiers that count for a usage, malformed ones included: from the first on as long as the
      usage exceeds the limit before, none behind an infinite one, and a negative price as zero. */
  function Counted(usage: real, prev: real, tiers: seq<Tier>): seq<Tier>
    decreases tiers
  {
    if tiers == [] || usage <= prev then []
    else
      [tiers[0].(price := MaxReal(0.0, tiers[0].price))]
      + match tiers[0].upTo
        case None => []
        case Some(limit) => Counted(usage, limit, tiers[1..])
  }

  /** What one tier adds, whatever its limit and price. */
  lemma FeeIsShare(price: real, usage: real, prev: real, upTo: Option<real>)
    ensures var volume := match upTo case None => usage - prev case Some(limit) => MinReal(usage - prev, limit - prev);
            Fee(price, volume) == Amount(MaxReal(0.0, price), Share(usage, prev, upTo))
  {
    hide Amount;
    FreeOfCharge(Share(usage, prev, upTo));
    AmountOfNothing(MaxReal(0.0, price));
  }

  lemma {:induction false} ChargeExact(usage: real, prev: real, tiers: seq<Tier>)
    ensures Charge(usage - prev, prev, tiers) == Graduated(usage, prev, Counted(usage, prev, tiers))
    decreases tiers
  {
    hide Amount, Fee, Share;
    if tiers != [] && usage > prev {
      FeeIsShare(tiers[0].price, usage, prev, tiers[0].upTo);
      var counted := Counted(usage, prev, tiers);
      if tiers[0].upTo.Some? {
        var limit := tiers[0].upTo.value;
        assert counted[1..] == Counted(usage, limit, tiers[1..]);
        ChargeExact(usage, limit, tiers[1..]);
        if limit < usage { assert (usage - prev) - (limit - prev) == usage - limit; }
      } else {
        assert counted[1..] == [];
      }
    }
  }

  /** The cost of any usage under any tiers, well formed or not: nothing up to the free threshold,
      and above it the sum over the tiers that count. */
  lemma CostExact(usage: real, product: Product)
    ensures Cost(usage, product)
         == if usage <= product.freeThreshold then 0.0
            else Graduated(usage, 0.0, Counted(usage, 0.0, product.tiers))
  {
    ChargeExact(usage, 0.0, product.tiers);
    assert usage - 0.0 == usage;
  }

  /** What proper tiers cost at a usage. */
  function Billed(usage: real, product: Product): real {
    if usage <= product.freeThreshold then 0.0 else Graduated(usage, 0.0, product.tiers)
  }

  lemma CostIsGraduated(usage: real, product: Product)
    requires Proper(product.tiers, 0.0)
    ensures Cost(usage, product) == Billed(usage, product)
  {
    ChargeIsGraduated(usage, 0.0, product.tiers);
    assert usage - 0.0 == usage;
  }

  // ---------- Monotone, and how fast it grows ----------

  lemma {:induction false} MaxPriceBounds(tiers: seq<Tier>)
    ensures MaxPrice(tiers) >= 0.0
    ensures tiers != [] ==> tiers[0].price <= MaxPrice(tiers) && MaxPrice(tiers[1..]) <= MaxPrice(tiers)
  {
    if tiers != [] { MaxPriceBounds(tiers[1..]); }
  }

  /** The sum at a usage inside the first tier, and beyond it. */
  lemma InFirstTier(u: real, prev: real, tiers: seq<Tier>)
    requires Proper(tiers, prev) && tiers != [] && prev <= u
    ensures tiers[0].upTo.None? || u <= tiers[0].upTo.value
            ==> Graduated(u, prev, tiers) == Amount(tiers[0].price, u - prev)
    ensures tiers[0].upTo.Some? && tiers[0].upTo.value <= u
            ==> Graduated(u, prev, tiers)
                == Amount(tiers[0].price, tiers[0].upTo.value - prev) + Graduated(u, tiers[0].upTo.value, tiers[1..])
  {
    hide Amount;
    if tiers[0].upTo.Some? && u <= tiers[0].upTo.value {
      NothingBelow(u, tiers[0].upTo.value, tiers[1..]);
    }
  }

  /** Between two usages from `prev` on, the sum grows by something between nothing and the
      largest price times the difference. */
  lemma {:induction false} GraduatedGrows(u: real, v: real, prev: real, tiers: seq<Tier>, rate: real)
    requires Proper(tiers, prev) && prev <= u <= v && MaxPrice(tiers) <= rate
    ensures 0.0 <= Graduated(v, prev, tiers) - Graduated(u, prev, tiers) <= Amount(rate, v - u)
    decreases tiers
  {
    hide Amount;
    MaxPriceBounds(tiers);
    DearerCostsMore(0.0, rate, v - u);
    AmountOfNothing(rate);
    AmountGrows(rate, 0.0, v - u);
    if tiers != [] {
      InFirstTier(u, prev, tiers);
      InFirstTier(v, prev, tiers);
      var price := tiers[0].price;
      if tiers[0].upTo.None? || v <= tiers[0].upTo.value {
        AmountsAdd(price, u - prev, v - u, v - prev);
        DearerCostsMore(price, rate, v - u);
      } else {
        var limit := tiers[0].upTo.value;
        var from := MaxReal(u, limit);
        GraduatedGrows(from, v, limit, tiers[1..], rate);
        NothingBelow(limit, limit, tiers[1..]);
        if u <= limit {
          AmountsAdd(price, u - prev, limit - u, limit - prev);
          DearerCostsMore(price, rate, limit - u);
          AmountsAdd(rate, limit - u, v - limit, v - u);
        }
      }
    }
  }

  /** The same from any usage: below zero nothing is billed. */
  lemma GrowsAnywhere(u: real, v: real, tiers: seq<Tier>, rate: real)
    requires Proper(tiers, 0.0) && u <= v && MaxPrice(tiers) <= rate
    ensures 0.0 <= Graduated(v, 0.0, tiers) - Graduated(u, 0.0, tiers) <= Amount(rate, v - u)
  {
    hide Amount;
    MaxPriceBounds(tiers);
    var from, to := MaxReal(u, 0.0), MaxReal(v, 0.0);
    if u <= 0.0 { NothingBelow(u, 0.0, tiers); NothingBelow(0.0, 0.0, tiers); }
    if v <= 0.0 { NothingBelow(v, 0.0, tiers); }
    GraduatedGrows(from, to, 0.0, tiers, rate);
    AmountGrows(rate, to - from, v - u);
  }

  lemma GraduatedPositive(u: real, tiers: seq<Tier>)
    requires Proper(tiers, 0.0)
    ensures Graduated(u, 0.0, tiers) >= 0.0
  {
    hide Amount;
    var low := MinReal(u, 0.0);
    GrowsAnywhere(low, u, tiers, MaxPrice(tiers));
    NothingBelow(low, 0.0, tiers);
  }

  /** Using more never costs less. */
  lemma CostMonotone(u: real, v: real, product: Product)
    requires Proper(product.tiers, 0.0) && u <= v
    ensures 0.0 <= Cost(u, product) <= Cost(v, product)
  {
    hide Amount;
    CostIsGraduated(u, product);
    CostIsGraduated(v, product);
    GrowsAnywhere(u, v, product.tiers, MaxPrice(product.tiers));
    GraduatedPositive(u, product.tiers);
    GraduatedPositive(v, product.tiers);
  }

  /** Between the two usages the cost grows no faster than `rate` a unit. */
  ghost predicate GrowsSlowly(product: Product, u: real, v: real, rate: real) {
    Cost(v, product) - Cost(u, product) <= Amount(rate, v - u)
  }

  /** The cost never grows faster than the largest price if and only if the tiers up to the
      free threshold cost nothing; otherwise it jumps there. */
  lemma GrowthExact(product: Product)
    requires Proper(product.tiers, 0.0)
    ensures (forall u, v :: u <= v ==> GrowsSlowly(product, u, v, MaxPrice(product.tiers)))
            <==> Graduated(product.freeThreshold, 0.0, product.tiers) == 0.0
  {
    hide Amount, Cost, Graduated, Proper;
    if Graduated(product.freeThreshold, 0.0, product.tiers) == 0.0 {
      forall u, v | u <= v ensures GrowsSlowly(product, u, v, MaxPrice(product.tiers)) {
        GrowthBetween(product, u, v);
      }
    } else {
      Jump(product);
    }
  }

  lemma GrowthBetween(product: Product, u: real, v: real)
    requires Proper(product.tiers, 0.0) && u <= v
    requires Graduated(product.freeThreshold, 0.0, product.tiers) == 0.0
    ensures GrowsSlowly(product, u, v, MaxPrice(product.tiers))
  {
    hide Amount, Cost, Graduated, Proper;
    var rate, free := MaxPrice(product.tiers), product.freeThreshold;
    CostIsGraduated(u, product);
    CostIsGraduated(v, product);
    MaxPriceBounds(product.tiers);
    AmountOfNothing(rate);
    AmountGrows(rate, 0.0, v - u);
    if v > free {
      GrowsAnywhere(MaxReal(u, free), v, product.tiers, rate);
      AmountGrows(rate, v - MaxReal(u, free), v - u);
    }
  }

  lemma HalfJump(jump: real, rate: real)
    requires jump > 0.0 && rate > 0.0
    ensures jump / (2.0 * rate) > 0.0 && Amount(rate, jump / (2.0 * rate)) < jump
  {
    var step := jump / (2.0 * rate);
    assert (2.0 * rate) * step == jump;
    assert rate * step + rate * step == jump;
  }

  /** Where the tiers below the threshold do cost something, the cost jumps there. */
  lemma Jump(product: Product)
    requires Proper(product.tiers, 0.0)
    requires Graduated(product.freeThreshold, 0.0, product.tiers) != 0.0
    ensures exists u, v :: u <= v && !GrowsSlowly(product, u, v, MaxPrice(product.tiers))
  {
    hide Amount, Cost, Graduated, Proper;
    var tiers, rate, u := product.tiers, MaxPrice(product.tiers), product.freeThreshold;
    var jump := Graduated(u, 0.0, tiers);
    MaxPriceBounds(tiers);
    GraduatedPositive(u, tiers);
    if rate == 0.0 { PricelessIsFree(u, tiers); }
    HalfJump(jump, rate);
    var v := u + jump / (2.0 * rate);
    GrowsAnywhere(u, v, tiers, rate);
    CostIsGraduated(u, product);
    CostIsGraduated(v, product);
    assert v - u == jump / (2.0 * rate);
    assert !GrowsSlowly(product, u, v, rate);
  }

  lemma PricelessIsFree(u: real, tiers: seq<Tier>)
    requires Proper(tiers, 0.0) && MaxPrice(tiers) == 0.0
    ensures Graduated(u, 0.0, tiers) == 0.0
  {
    var low := MinReal(u, 0.0);
    GrowsAnywhere(low, u, tiers, 0.0);
    NothingBelow(low, 0.0, tiers);
  }
}
