/** Overage billing of geocoding runs: each run is charged for the rows beyond what was left of the
    quota before it, read off a usage counter that already includes the run. */
module GeocodingBilling {
  import opened Wrappers

  const GEOCODING_BLOCK_SIZE := 1000.0

  /** A geocoding: `highResolution` is its kind, `heremaps` its geocoder. */
  datatype Geocoding = Geocoding(highResolution: bool, heremaps: bool, processedRows: nat, cacheHits: nat)

  function Max(a: int, b: int): int {
    if a > b then a else b
  }

  function Rows(g: Geocoding): nat {
    g.processedRows + g.cacheHits
  }

  /** `usedCalls` is the user's or organisation's counter after the run. */
  function UsedCredits(g: Geocoding, quota: int, usedCalls: int): int {
    if !(g.highResolution && g.heremaps) then 0
    else
      var remaining := quota + Rows(g) - usedCalls;
      var left := if remaining > 0 then remaining else 0;
      var credits := Rows(g) - left;
      if credits > 0 then credits else 0
  }

  function Price(credits: Option<int>, blockPrice: real): real {
    if credits.None? || credits.value <= 0 then 0.0
    else blockPrice * (credits.value as real) / GEOCODING_BLOCK_SIZE
  }

  /** The counter after one more run, counted once; only runs that are charged for are counted. */
  function Counted(g: Geocoding, used: int): int {
    used + if g.highResolution && g.heremaps then g.processedRows + g.cacheHits else 0
  }

  function UsedAfter(gs: seq<Geocoding>, used: int): int {
    if gs == [] then used else UsedAfter(gs[1..], Counted(gs[0], used))
  }

  function Credits(gs: seq<Geocoding>, quota: int, used: int): seq<int> {
    if gs == [] then []
    else
      var counter := Counted(gs[0], used);
      [UsedCredits(gs[0], quota, counter)] + Credits(gs[1..], quota, counter)
  }

  function Sum(cs: seq<int>): int {
    if cs == [] then 0 else cs[0] + Sum(cs[1..])
  }

  function Prices(cs: seq<int>, blockPrice: real): real {
    if cs == [] then 0.0 else Price(Some(cs[0]), blockPrice) + Prices(cs[1..], blockPrice)
  }

  /** However the rows are spread over runs, the credits charged are the growth of the overage. */
  lemma {:induction false} CreditsTelescope(gs: seq<Geocoding>, quota: int, used: int)
    ensures Sum(Credits(gs, quota, used)) == Max(0, UsedAfter(gs, used) - quota) - Max(0, used - quota)
    ensures forall i :: 0 <= i < |Credits(gs, quota, used)| ==> Credits(gs, quota, used)[i] >= 0
    decreases |gs|
  {
    if gs != [] {
      var counter := Counted(gs[0], used);
      CreditsTelescope(gs[1..], quota, counter);
      assert Credits(gs, quota, used)[1..] == Credits(gs[1..], quota, counter);
    }
  }

  lemma {:induction false} PricesAreLinear(cs: seq<int>, blockPrice: real)
    requires forall i :: 0 <= i < |cs| ==> cs[i] >= 0
    ensures Sum(cs) >= 0 && Prices(cs, blockPrice) == blockPrice * (Sum(cs) as real) / GEOCODING_BLOCK_SIZE
  {
    if cs != [] {
      PricesAreLinear(cs[1..], blockPrice);
      Distributes(blockPrice, cs[0] as real, Sum(cs[1..]) as real);
      assert Sum(cs) as real == cs[0] as real + Sum(cs[1..]) as real;
    } else {
      assert blockPrice * 0.0 == 0.0;
    }
  }

  lemma Distributes(a: real, b: real, c: real)
    ensures a * (b + c) / GEOCODING_BLOCK_SIZE == a * b / GEOCODING_BLOCK_SIZE + a * c / GEOCODING_BLOCK_SIZE
  {
    assert a * (b + c) == a * b + a * c;
  }

  /** A run without credits yet, or with none, costs nothing; any other costs its share of the block
      price, and so more than nothing if the block does. */
  lemma NothingIsFree(credits: Option<int>, blockPrice: real)
    ensures credits.None? || credits.value <= 0 ==> Price(credits, blockPrice) == 0.0
    ensures credits.Some? && credits.value > 0 ==> Price(credits, blockPrice) * 1000.0 == blockPrice * (credits.value as real)
  {
  }

  lemma PriceOf(credits: int, blockPrice: real)
    requires credits >= 0
    ensures Price(Some(credits), blockPrice) == blockPrice * (credits as real) / GEOCODING_BLOCK_SIZE
  {
    if credits == 0 {
      assert blockPrice * 0.0 == 0.0;
    }
  }

  lemma PriceOfSum(cs: seq<int>, blockPrice: real)
    requires forall i :: 0 <= i < |cs| ==> cs[i] >= 0
    ensures Prices(cs, blockPrice) == Price(Some(Sum(cs)), blockPrice)
  {
    PricesAreLinear(cs, blockPrice);
    PriceOf(Sum(cs), blockPrice);
  }

  /** Over any list of runs in a quota period the bill is the price of the growth of the overage. */
  lemma BillIsPriceOfOverage(gs: seq<Geocoding>, quota: int, used: int, blockPrice: real)
    ensures var overage := Max(0, UsedAfter(gs, used) - quota) - Max(0, used - quota);
      Prices(Credits(gs, quota, used), blockPrice) == Price(Some(overage), blockPrice)
  {
    var credits := Credits(gs, quota, used);
    var overage := Max(0, UsedAfter(gs, used) - quota) - Max(0, used - quota);
    CreditsTelescope(gs, quota, used);
    assert Sum(credits) == overage;
    PriceOfSum(credits, blockPrice);
  }
}
