/** The result record of the pack calculator and the vocabulary used to state
    what a correct result is: a shipment is a map from pack size to the number
    of packs of that size, as in `PackResult.Packs`. */
module PackModel {

  /** The value returned on success: pack size -> count, the items shipped in
      total, and the overshoot over the items requested. */
  datatype PackResult = PackResult(Packs: map<int, int>, TotalItems: int, ExtraItems: int)

  /** Reading a count the way a Go map read does: a missing key reads as 0. */
  function Count(m: map<int, int>, k: int): int
  {
    if k in m then m[k] else 0
  }

  /** `m[k]++` on a Go map: the count of `k` goes up by one, a missing key
      starting from 0; every other entry is kept. */
  function Inc(m: map<int, int>, k: int): (r: map<int, int>)
    ensures k in r && r.Keys == m.Keys + {k}
    ensures r[k] == Count(m, k) + 1
    ensures forall j :: j in m && j != k ==> r[j] == m[j]
  {
    m[k := Count(m, k) + 1]
  }

  /** One fixed key of a non-empty map; ItemsIn and PacksIn peel the same key. */
  ghost function PickKey(m: map<int, int>): (k: int)
    requires m != map[]
    ensures k in m
  {
    assert exists k :: k in m by {
      if forall k :: k !in m {
        assert false;
      }
    }
    var k :| k in m; k
  }

  /** Sum over the entries of `size * count`: the items a shipment holds. */
  ghost function ItemsIn(m: map<int, int>): int
    decreases m.Keys
  {
    if m == map[] then 0
    else
      var k := PickKey(m);
      k * m[k] + ItemsIn(m - {k})
  }

  /** Sum over the entries of `count`: the number of packs in a shipment. */
  ghost function PacksIn(m: map<int, int>): int
    decreases m.Keys
  {
    if m == map[] then 0
    else
      var k := PickKey(m);
      m[k] + PacksIn(m - {k})
  }

  /** Both sums may peel any key first, not only the one PickKey chooses. */
  lemma {:induction false} PeelKey(m: map<int, int>, k: int)
    requires k in m
    ensures ItemsIn(m) == k * m[k] + ItemsIn(m - {k})
    ensures PacksIn(m) == m[k] + PacksIn(m - {k})
    decreases m.Keys
  {
    var j := PickKey(m);
    if j != k {
      PeelKey(m - {j}, k);
      PeelKey(m - {k}, j);
      assert (m - {j}) - {k} == (m - {k}) - {j};
    }
  }

  /** Adding one pack of size `k` adds `k` items and one pack. */
  lemma IncAdds(m: map<int, int>, k: int)
    ensures ItemsIn(Inc(m, k)) == ItemsIn(m) + k
    ensures PacksIn(Inc(m, k)) == PacksIn(m) + 1
  {
    var n := Inc(m, k);
    var c := Count(m, k);
    PeelKey(n, k);
    assert n - {k} == m - {k};
    if k in m {
      PeelKey(m, k);
    } else {
      assert m - {k} == m;
    }
    assert k * (c + 1) == k * c + k;
  }

  /** Every pack is one of `sizes` and every size present is used at least once. */
  ghost predicate IsShipment(m: map<int, int>, sizes: seq<int>)
  {
    forall k :: k in m ==> k in sizes && m[k] >= 1
  }

  /** `m` is a shipment over `sizes` holding exactly `t` items. */
  ghost predicate Fills(m: map<int, int>, sizes: seq<int>, t: int)
  {
    IsShipment(m, sizes) && ItemsIn(m) == t
  }

  /** Some whole number of packs from `sizes` holds exactly `t` items. */
  ghost predicate Reachable(sizes: seq<int>, t: int)
  {
    exists m :: Fills(m, sizes, t)
  }

  /** `c` is the fewest packs from `sizes` that hold exactly `t` items. */
  ghost predicate MinPacks(sizes: seq<int>, t: int, c: int)
  {
    && (exists m :: Fills(m, sizes, t) && PacksIn(m) == c)
    && (forall m :: Fills(m, sizes, t) ==> c <= PacksIn(m))
  }

  /** With every size at least `lo` and every count at least one, the items
      are at least `lo` times the packs, and only the empty shipment has no
      packs. */
  lemma {:induction false} ItemsLowerBound(m: map<int, int>, lo: int)
    requires 0 <= lo
    requires forall k :: k in m ==> lo <= k && m[k] >= 1
    ensures lo * PacksIn(m) <= ItemsIn(m)
    ensures PacksIn(m) >= 0 && (m != map[] ==> PacksIn(m) >= 1)
    decreases m.Keys
  {
    if m != map[] {
      var k := PickKey(m);
      var c := m[k];
      var rest := m - {k};
      ItemsLowerBound(rest, lo);
      MulMono(lo, k, c);
      assert lo * (c + PacksIn(rest)) == lo * c + lo * PacksIn(rest);
    }
  }

  /** With every size at most `hi` and no negative count, the items are at
      most `hi` times the packs. */
  lemma {:induction false} ItemsUpperBound(m: map<int, int>, hi: int)
    requires forall k :: k in m ==> k <= hi && m[k] >= 0
    ensures ItemsIn(m) <= hi * PacksIn(m)
    decreases m.Keys
  {
    if m != map[] {
      var k := PickKey(m);
      var c := m[k];
      var rest := m - {k};
      ItemsUpperBound(rest, hi);
      MulMono(k, hi, c);
      assert hi * (c + PacksIn(rest)) == hi * c + hi * PacksIn(rest);
    }
  }

  lemma MulMono(a: int, b: int, c: int)
    requires a <= b && c >= 0
    ensures a * c <= b * c
  {
    assert b * c - a * c == (b - a) * c;
  }

  /** Two shipments that fill the same total over two size lists with the same
      members are the same shipments. */
  lemma SameSizesSameFills(a: seq<int>, b: seq<int>, m: map<int, int>, t: int)
    requires forall x :: x in a <==> x in b
    ensures Fills(m, a, t) <==> Fills(m, b, t)
  {
  }
}
