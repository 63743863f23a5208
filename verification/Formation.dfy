/** Payouts of new and renewed contracts (renter/proto/formcontract.go, renter/proto/renew.go). */
module Formation {

  /** Currency: a natural number; subtraction is checked. */
  type Currency = nat

  /** types.SiafundCount */
  const SIAFUNDS := 10000

  /** The siafund tax: 39/1000 of the payout, rounded down to a multiple of the siafund count. */
  function Tax(payout: Currency): (tax: Currency)
    ensures tax % SIAFUNDS == 0 && tax <= payout
  {
    payout * 39 / 1000 / SIAFUNDS * SIAFUNDS
  }

  /** taxAdjustedPayout: a guess that ignores the rounding, then moved down to the residue of
      the target. */
  method TaxAdjustedPayout(target: Currency) returns (payout: Currency)
    ensures payout - Tax(payout) == target
    ensures forall p: Currency :: p - Tax(p) == target ==> p <= payout
  {
    var guess: int := target * 1000 / 961;
    ghost var g := guess;
    var tm, gm := target % SIAFUNDS, guess % SIAFUNDS;
    if gm < tm {
      guess := guess - SIAFUNDS;
    }
    guess := guess - gm;
    guess := guess + tm;
    ResidueBelow(g, target, guess);
    payout := guess;
    TaxInverse(target, payout);
    forall p: Currency | p - Tax(p) == target ensures p <= payout {
      TaxLargest(target, payout, p);
    }
  }

  /** The result is the largest number with the target's residue that is no more than the guess. */
  lemma ResidueBelow(guess: nat, target: nat, p: int)
    requires guess >= target
    requires p == (if guess % SIAFUNDS < target % SIAFUNDS then guess - SIAFUNDS else guess) - guess % SIAFUNDS + target % SIAFUNDS
    ensures p <= guess < p + SIAFUNDS && p % SIAFUNDS == target % SIAFUNDS && p >= 0
  {
    var q := guess / SIAFUNDS;
    assert guess == SIAFUNDS * q + guess % SIAFUNDS;
    if guess % SIAFUNDS < target % SIAFUNDS {
      assert p == SIAFUNDS * (q - 1) + target % SIAFUNDS;
      assert target / SIAFUNDS < q;
    } else {
      assert p == SIAFUNDS * q + target % SIAFUNDS;
    }
  }

  /** Numbers with the same residue that are less than one period apart are in order. */
  lemma SameResidue(a: nat, b: nat)
    requires a % SIAFUNDS == b % SIAFUNDS && a < b + SIAFUNDS
    ensures a <= b && (b - a) % SIAFUNDS == 0
  {
    var x, y := a / SIAFUNDS, b / SIAFUNDS;
    assert a == SIAFUNDS * x + a % SIAFUNDS && b == SIAFUNDS * y + b % SIAFUNDS;
    assert b - a == SIAFUNDS * (y - x);
  }

  lemma RoundDown(x: nat, d: nat)
    requires d % SIAFUNDS == 0 && d <= x < d + SIAFUNDS
    ensures x / SIAFUNDS * SIAFUNDS == d
  {
    assert d == SIAFUNDS * (d / SIAFUNDS);
  }

  lemma TaxInverse(target: nat, p: nat)
    requires p <= target * 1000 / 961 < p + SIAFUNDS && p % SIAFUNDS == target % SIAFUNDS
    ensures p - Tax(p) == target
  {
    assert 961 * p <= 1000 * target < 961 * (p + SIAFUNDS);
    SameResidue(target, p);
    RoundDown(p * 39 / 1000, p - target);
  }

  lemma TaxResidue(p: nat)
    ensures (p - Tax(p)) % SIAFUNDS == p % SIAFUNDS && 961 * p <= 1000 * (p - Tax(p))
  {
    var k := p * 39 / 1000 / SIAFUNDS;
    SubtractMultiple(p, k);
  }

  lemma SubtractMultiple(p: nat, k: nat)
    requires k * SIAFUNDS <= p
    ensures (p - k * SIAFUNDS) % SIAFUNDS == p % SIAFUNDS
  {
    var q := p / SIAFUNDS;
    assert p - k * SIAFUNDS == SIAFUNDS * (q - k) + p % SIAFUNDS;
  }

  lemma TaxLargest(target: nat, payout: nat, p: nat)
    requires target * 1000 / 961 < payout + SIAFUNDS && payout % SIAFUNDS == target % SIAFUNDS
    requires p - Tax(p) == target
    ensures p <= payout
  {
    TaxResidue(p);
    SameResidue(p, payout);
  }

  // ---------- forming ----------

  /** The host settings that price a contract. */
  datatype Settings = Settings(contractPrice: Currency, storagePrice: Currency, uploadPrice: Currency, downloadPrice: Currency,
                               collateral: Currency, maxCollateral: Currency, baseRPCPrice: Currency, windowSize: nat)

  /** What a new contract pays out: valid[0] and missed[0] to the renter, valid[1] and missed[1]
      to the host, missed[2] to the void. */
  datatype Payouts = Payouts(payout: Currency, valid: seq<Currency>, missed: seq<Currency>, renterCost: Currency, hostCollateral: Currency)

  /** The renter's output is the same either way, and nothing is lost. */
  predicate BalancedOutputs(valid: seq<Currency>, missed: seq<Currency>) {
    && |valid| == 2 && |missed| == 3
    && valid[0] == missed[0]
    && valid[0] + valid[1] == missed[0] + missed[1] + missed[2]
  }

  /** The tax is paid out of the payout, and renter and host together fund it and the fee. */
  ghost predicate Funded(p: Payouts, fee: Currency) {
    && BalancedOutputs(p.valid, p.missed)
    && p.payout == p.valid[0] + p.valid[1] + Tax(p.payout)
    && p.renterCost + p.hostCollateral == p.payout + fee
  }

  /** No larger payout leaves the same outputs after tax. */
  ghost predicate LargestPayout(p: Payouts) {
    |p.valid| == 2 && forall q: Currency :: q - Tax(q) == p.valid[0] + p.valid[1] ==> q <= p.payout
  }

  /** No more than the maximum, and not zero. */
  function CapCollateral(c: Currency, max: Currency): Currency {
    if c > max then max else if c == 0 then 1 else c
  }

  /** What FormContract pays: the host gets its contract price and a collateral, which is the rate for the
      bytes that the renter's money buys, each for the duration, but no more than the maximum and not
      zero. */
  ghost predicate FormPriced(s: Settings, renterPayout: Currency, duration: nat, p: Payouts) {
    && p.valid == [renterPayout, s.contractPrice + p.hostCollateral]
    && p.missed == [renterPayout, s.contractPrice + p.hostCollateral, 0]
    && var price := (s.uploadPrice + s.storagePrice + s.downloadPrice) * duration;
      && (price == 0 ==> p.hostCollateral == 1)
      && forall bytes: nat :: Buys(bytes, price, renterPayout) ==>
           var estimate := s.collateral * bytes * duration;
           && (estimate > s.maxCollateral ==> p.hostCollateral == s.maxCollateral)
           && (0 < estimate <= s.maxCollateral ==> p.hostCollateral == estimate)
           && (estimate == 0 ==> p.hostCollateral == 1)
  }

  /** FormContract's payouts.  A duration of zero or free settings leave the collateral at one. */
  method FormPayouts(s: Settings, renterPayout: Currency, duration: nat, fee: Currency) returns (p: Payouts)
    ensures Funded(p, fee) && LargestPayout(p) && FormPriced(s, renterPayout, duration, p)
  {
    var hostCollateral := 0;
    var blockBytes := (s.uploadPrice + s.storagePrice + s.downloadPrice) * duration;
    if blockBytes != 0 {
      var bytes := renterPayout / blockBytes;
      hostCollateral := Times(s.collateral, bytes) * duration;
    }
    hostCollateral := CapCollateral(hostCollateral, s.maxCollateral);
    var hostPayout := s.contractPrice + hostCollateral;
    var payout := TaxAdjustedPayout(renterPayout + hostPayout);
    var totalCost := renterPayout + s.contractPrice + Tax(payout) + fee;
    p := Payouts(payout, [renterPayout, hostPayout], [renterPayout, hostPayout, 0], totalCost, hostCollateral);
    forall bytes: nat | Buys(bytes, blockBytes, renterPayout) ensures bytes == renterPayout / blockBytes {
      BuysIs(bytes, blockBytes, renterPayout);
    }
  }

  /** The most units at the price that the money pays for. */
  predicate Buys(units: nat, price: Currency, money: Currency) {
    price > 0 && units * price <= money < (units + 1) * price
  }

  lemma BuysIs(units: nat, price: Currency, money: Currency)
    requires price > 0
    ensures Buys(units, price, money) <==> units == money / price
  {
    var q, r := money / price, money % price;
    assert money == q * price + r;
    assert (q + 1) * price == q * price + price && (units + 1) * price == units * price + price;
    if units < q {
      assert (units + 1) * price <= q * price;
    } else if units > q {
      assert units * price >= (q + 1) * price;
    }
  }

  datatype Option<T> = None | Some(value: T)

  /** The collateral for the data already in the contract, for every block that the renewal adds, is more
      than the contract price and the host's maximum together. */
  predicate Unsatisfiable(s: Settings, fileSize: nat, windowEnd: nat, endHeight: nat) {
    var end := endHeight + s.windowSize;
    s.contractPrice + s.maxCollateral < s.collateral * fileSize * (if end > windowEnd then end - windowEnd else 0)
  }

  /** What RenewContract pays: besides the contract price the host gets the storage price of the data
      already in the contract, for every block that the renewal adds, and a collateral: its rate for that
      data and for the bytes that the renter's money buys, no more than the maximum and not zero.  What
      covers the old data goes to the void if the proof is missed. */
  ghost predicate RenewPriced(s: Settings, renterPayout: Currency, fileSize: nat, windowEnd: nat, endHeight: nat, p: Payouts) {
    var end := endHeight + s.windowSize;
    var blocks := if end > windowEnd then end - windowEnd else 0;
    var held, price := s.collateral * fileSize * blocks, s.uploadPrice + s.storagePrice + s.downloadPrice;
    && |p.missed| == 3 && p.missed[2] == s.storagePrice * fileSize * blocks + held
    && p.valid == [renterPayout, s.contractPrice + s.storagePrice * fileSize * blocks + p.hostCollateral]
    && (price == 0 ==> p.hostCollateral == if held > s.maxCollateral then s.maxCollateral else if held == 0 then 1 else held)
    && (forall bytes: nat :: Buys(bytes, price, renterPayout) ==>
         var estimate := held + s.collateral * bytes;
         && (estimate > s.maxCollateral ==> p.hostCollateral == s.maxCollateral)
         && (0 < estimate <= s.maxCollateral ==> p.hostCollateral == estimate)
         && (estimate == 0 ==> p.hostCollateral == 1))
  }

  /** The storage price and the collateral for the data already in the contract. */
  method ForData(s: Settings, fileSize: nat, windowEnd: nat, endHeight: nat) returns (basePrice: Currency, baseCollateral: Currency)
    ensures var end := endHeight + s.windowSize;
      var blocks := if end > windowEnd then end - windowEnd else 0;
      basePrice == s.storagePrice * fileSize * blocks && baseCollateral == s.collateral * fileSize * blocks
  {
    basePrice, baseCollateral := 0, 0;
    var contractEnd := endHeight + s.windowSize;
    if contractEnd > windowEnd {
      var timeExtension := contractEnd - windowEnd;
      basePrice := s.storagePrice * fileSize * timeExtension;
      baseCollateral := s.collateral * fileSize * timeExtension;
    }
  }

  /** The collateral for that and for the bytes that the renter's money buys. */
  method TotalCollateral(s: Settings, renterPayout: Currency, held: Currency) returns (total: Currency)
    ensures var price := s.uploadPrice + s.storagePrice + s.downloadPrice;
      && (price == 0 ==> total == if held > s.maxCollateral then s.maxCollateral else if held == 0 then 1 else held)
      && (forall bytes: nat :: Buys(bytes, price, renterPayout) ==>
           var estimate := held + s.collateral * bytes;
           && (estimate > s.maxCollateral ==> total == s.maxCollateral)
           && (0 < estimate <= s.maxCollateral ==> total == estimate)
           && (estimate == 0 ==> total == 1))
    ensures held > s.maxCollateral ==> total == s.maxCollateral
    ensures held <= s.maxCollateral ==> held <= total
  {
    var newCollateral := 0;
    var costPerByte := s.uploadPrice + s.storagePrice + s.downloadPrice;
    if costPerByte != 0 {
      newCollateral := Times(s.collateral, renterPayout / costPerByte);
    }
    total := CapCollateral(held + newCollateral, s.maxCollateral);
    forall bytes: nat | Buys(bytes, costPerByte, renterPayout) ensures bytes == renterPayout / costPerByte {
      BuysIs(bytes, costPerByte, renterPayout);
    }
  }

  /** RenewContract's payouts for a contract of fileSize bytes that ended at windowEnd.  None is
      the error that the host's settings are unsatisfiable. */
  method RenewPayouts(s: Settings, renterPayout: Currency, fileSize: nat, windowEnd: nat, endHeight: nat, fee: Currency)
    returns (r: Option<Payouts>)
    ensures r.None? <==> Unsatisfiable(s, fileSize, windowEnd, endHeight)
    ensures r.Some? ==> Funded(r.value, fee) && LargestPayout(r.value)
    ensures r.Some? ==> RenewPriced(s, renterPayout, fileSize, windowEnd, endHeight, r.value)
  {
    var basePrice, baseCollateral := ForData(s, fileSize, windowEnd, endHeight);
    var totalCollateral := TotalCollateral(s, renterPayout, baseCollateral);
    var hostValid := s.contractPrice + basePrice + totalCollateral;
    var voidMissed := basePrice + baseCollateral;
    if hostValid < voidMissed {
      return None;
    }
    var hostMissed := hostValid - voidMissed;
    var payout := TaxAdjustedPayout(renterPayout + hostValid);
    assert payout >= totalCollateral;
    var renterCost := payout - totalCollateral + fee;
    r := Some(Payouts(payout, [renterPayout, hostValid], [renterPayout, hostMissed, voidMissed], renterCost, totalCollateral));
  }

  function Times(a: nat, b: nat): nat {
    a * b
  }
}
