/** The scenarios of the calculator's unit tests: for the sizes
    250, 500, 1000, 2000 and 5000, what CalculatePacks promises pins down the
    result each test expects. */
module CalculatorTest {
  import opened PackModel
  import opened Calculator

  const TestSizes: seq<int> := [250, 500, 1000, 2000, 5000]

  // ---------------------------------------------------------------------------
  // Facts about shipments used by the scenarios
  // ---------------------------------------------------------------------------

  /** With every size a multiple of 250, so is the total. */
  lemma {:induction false} ItemsMultipleOf250(m: map<int, int>)
    requires forall k :: k in m ==> k % 250 == 0
    ensures ItemsIn(m) % 250 == 0
    decreases m.Keys
  {
    if m != map[] {
      var k := PickKey(m);
      var rest := m - {k};
      ItemsMultipleOf250(rest);
      var a := k / 250;
      assert k == 250 * a;
      assert k * m[k] == 250 * (a * m[k]);
    }
  }

  /** A shipment of exactly one pack is that one pack. */
  lemma OnePack(m: map<int, int>)
    requires forall k :: k in m ==> k > 0 && m[k] >= 1
    requires PacksIn(m) == 1
    ensures m == map[ItemsIn(m) := 1]
  {
    ItemsLowerBound(m, 0);
    var k := PickKey(m);
    var rest := m - {k};
    ItemsLowerBound(rest, 0);
    assert rest == map[];
    assert m == map[k := 1];
  }

  /** The total of the promised result is the least reachable one from
      `items` on; with sizes all multiples of 250 and a shipment `w` reaching
      the least multiple of 250 from `items` on, that is the total of `w`,
      and the result has no more packs than `w`. */
  lemma PinTotal(items: int, res: PackResult, w: map<int, int>)
    requires IsOptimalShipment(TestSizes, items, res)
    requires Fills(w, TestSizes, ItemsIn(w))
    requires items <= ItemsIn(w) && ItemsIn(w) % 250 == 0 && ItemsIn(w) - 250 < items
    ensures res.TotalItems == ItemsIn(w) == ItemsIn(res.Packs)
    ensures IsShipment(res.Packs, TestSizes)
    ensures PacksIn(res.Packs) <= PacksIn(w)
  {
    var m := res.Packs;
    var t := res.TotalItems;
    var W := ItemsIn(w);
    SizesOf250(m);
    ItemsMultipleOf250(m);
    if t > W {
      assert Reachable(TestSizes, W);
      assert false;
    }
    SameMultiple(t, W, items);
    assert Fills(w, TestSizes, t);
  }

  /** Two multiples of 250 from `items` on, the larger below `items + 250`,
      are equal. */
  lemma SameMultiple(t: int, w: int, items: int)
    requires t % 250 == 0 && w % 250 == 0
    requires items <= t <= w < items + 250
    ensures t == w
  {
  }

  /** Every pack of a shipment over the test sizes is a multiple of 250. */
  lemma SizesOf250(m: map<int, int>)
    requires IsShipment(m, TestSizes)
    ensures forall k :: k in m ==> k % 250 == 0
  {
    forall k | k in m
      ensures k % 250 == 0
    {
      assert k in TestSizes;
    }
  }

  /** A shipment over the test sizes holding `x >= 1` items in at most one
      pack is one pack of `x`. */
  lemma SinglePack(m: map<int, int>, x: int)
    requires IsShipment(m, TestSizes) && ItemsIn(m) == x >= 1 && PacksIn(m) <= 1
    ensures m == map[x := 1]
  {
    ItemsLowerBound(m, 250);
    assert m != map[];
    OnePack(m);
  }

  /** No pack of a shipment is larger than the whole shipment. */
  lemma KeyAtMostItems(m: map<int, int>, k: int)
    requires forall j :: j in m ==> j > 0 && m[j] >= 1
    requires k in m
    ensures k <= ItemsIn(m)
  {
    PeelKey(m, k);
    ItemsLowerBound(m - {k}, 0);
    MulMono(1, m[k], k);
  }

  /** 750 items in at most two packs of the test sizes: one 250 and one 500. */
  lemma Split750(m: map<int, int>)
    requires IsShipment(m, TestSizes) && ItemsIn(m) == 750 && PacksIn(m) <= 2
    ensures m == map[250 := 1, 500 := 1]
  {
    forall k | k in m
      ensures k <= 500
    {
      KeyAtMostItems(m, k);
    }
    if 500 !in m {
      ItemsUpperBound(m, 250);
      assert false;
    }
    var rest := m - {500};
    PeelKey(m, 500);
    ItemsLowerBound(rest, 0);
    assert m[500] == 1;
    SinglePack(rest, 250);
    assert m == rest[500 := 1];
  }

  /** 2250 items in at most two packs of sizes up to 2000: one 2000, one 250. */
  lemma Split2250(m: map<int, int>)
    requires IsShipment(m, TestSizes) && 5000 !in m
    requires ItemsIn(m) == 2250 && PacksIn(m) <= 2
    ensures m == map[2000 := 1, 250 := 1]
  {
    var rest := m - {2000};
    if 2000 in m { PeelKey(m, 2000); } else { assert rest == m; }
    ItemsUpperBound(rest, 1000);
    ItemsLowerBound(rest, 0);
    assert Count(m, 2000) == 1;
    SinglePack(rest, 250);
    assert m == rest[2000 := 1];
  }

  /** 12250 items in at most four packs of the test sizes. */
  lemma Split12250(m: map<int, int>)
    requires IsShipment(m, TestSizes) && ItemsIn(m) == 12250 && PacksIn(m) <= 4
    ensures m == map[5000 := 2, 2000 := 1, 250 := 1]
  {
    var rest := m - {5000};
    if 5000 in m { PeelKey(m, 5000); } else { assert rest == m; }
    ItemsUpperBound(rest, 2000);
    ItemsLowerBound(rest, 0);
    assert Count(m, 5000) == 2;
    Split2250(rest);
    assert m == rest[5000 := 2];
  }

  // ---------------------------------------------------------------------------
  // The scenarios
  // ---------------------------------------------------------------------------

  /** 1 item: one pack of 250, 249 over. */
  lemma OneItem(res: PackResult)
    requires IsOptimalShipment(TestSizes, 1, res)
    ensures res == PackResult(map[250 := 1], 250, 249)
  {
    OneOf(250);
    PinTotal(1, res, map[250 := 1]);
    SinglePack(res.Packs, 250);
  }

  /** 250 items: one pack of 250, nothing over. */
  lemma ExactPack(res: PackResult)
    requires IsOptimalShipment(TestSizes, 250, res)
    ensures res == PackResult(map[250 := 1], 250, 0)
  {
    OneOf(250);
    PinTotal(250, res, map[250 := 1]);
    SinglePack(res.Packs, 250);
  }

  /** 251 items: one pack of 500 rather than two of 250. */
  lemma JustOverOnePack(res: PackResult)
    requires IsOptimalShipment(TestSizes, 251, res)
    ensures res == PackResult(map[500 := 1], 500, 249)
  {
    OneOf(500);
    PinTotal(251, res, map[500 := 1]);
    SinglePack(res.Packs, 500);
  }

  /** 501 items: one 250 and one 500, 750 in total. */
  lemma TwoSizes(res: PackResult)
    requires IsOptimalShipment(TestSizes, 501, res)
    ensures res == PackResult(map[250 := 1, 500 := 1], 750, 249)
  {
    var w := map[250 := 1, 500 := 1];
    PeelKey(w, 250);
    PeelKey(w - {250}, 500);
    assert (w - {250}) - {500} == map[];
    PinTotal(501, res, w);
    Split750(res.Packs);
  }

  /** 780 items: one pack of 1000. */
  lemma OneLargerPack(res: PackResult)
    requires IsOptimalShipment(TestSizes, 780, res)
    ensures res == PackResult(map[1000 := 1], 1000, 220)
  {
    OneOf(1000);
    PinTotal(780, res, map[1000 := 1]);
    SinglePack(res.Packs, 1000);
  }

  /** 12001 items: two 5000s, one 2000 and one 250, 12250 in total. */
  lemma ManyPacks(res: PackResult)
    requires IsOptimalShipment(TestSizes, 12001, res)
    ensures res == PackResult(map[5000 := 2, 2000 := 1, 250 := 1], 12250, 249)
  {
    var w := map[5000 := 2, 2000 := 1, 250 := 1];
    PeelKey(w, 5000);
    PeelKey(w - {5000}, 2000);
    PeelKey(w - {5000} - {2000}, 250);
    assert w - {5000} - {2000} - {250} == map[];
    PinTotal(12001, res, w);
    Split12250(res.Packs);
  }

  /** One pack of size `k`. */
  lemma OneOf(k: int)
    ensures ItemsIn(map[k := 1]) == k && PacksIn(map[k := 1]) == 1
  {
    PeelKey(map[k := 1], k);
    assert map[k := 1] - {k} == map[];
  }

  /** The scenarios as the unit test runs them: CalculatePacks on the test
      sizes for 1, 250, 251, 501, 780 and 12001 items succeeds with exactly
      the shipments the test expects. */
  method BasicCases()
    returns (r1: Result<PackResult>, r250: Result<PackResult>, r251: Result<PackResult>,
             r501: Result<PackResult>, r780: Result<PackResult>, r12001: Result<PackResult>)
    ensures r1 == Success(PackResult(map[250 := 1], 250, 249))
    ensures r250 == Success(PackResult(map[250 := 1], 250, 0))
    ensures r251 == Success(PackResult(map[500 := 1], 500, 249))
    ensures r501 == Success(PackResult(map[250 := 1, 500 := 1], 750, 249))
    ensures r780 == Success(PackResult(map[1000 := 1], 1000, 220))
    ensures r12001 == Success(PackResult(map[5000 := 2, 2000 := 1, 250 := 1], 12250, 249))
  {
    var m := SeqMax(TestSizes);
    assert m == 5000;
    r1 := CalculatePacks(1, TestSizes);
    OneItem(r1.value);
    r250 := CalculatePacks(250, TestSizes);
    ExactPack(r250.value);
    r251 := CalculatePacks(251, TestSizes);
    JustOverOnePack(r251.value);
    r501 := CalculatePacks(501, TestSizes);
    TwoSizes(r501.value);
    r780 := CalculatePacks(780, TestSizes);
    OneLargerPack(r780.value);
    r12001 := CalculatePacks(12001, TestSizes);
    ManyPacks(r12001.value);
  }
}
