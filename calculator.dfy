/** CalculatePacks: the fewest items shipped, then the fewest packs, using
    whole packs of the given sizes, computed by a dynamic program over totals
    and rebuilt from its back-pointers. */
module Calculator {
  import opened PackModel

  /** `math.MaxInt32 / 2`, the marker for a total that no packs reach. */
  const INF: int := 1073741823

  /** The largest search horizon the calculator accepts. */
  const MaxLimit: int := 10_000_000

  /** The error returns of CalculatePacks, one per `return ..., err`, with the
      value the message reports. */
  datatype CalcError =
    | InvalidItems(items: int)
    | NoPackSizes
    | InvalidPackSize(size: int)
    | NoValidSizes
    | LimitTooLarge(limit: int)
    | NoCombination(items: int)
    | RebuildFailed

  datatype Result<T> = Success(value: T) | Failure(error: CalcError)

  // ---------------------------------------------------------------------------
  // Sequences of pack sizes
  // ---------------------------------------------------------------------------

  predicate AllPositive(s: seq<int>)
  {
    forall i :: 0 <= i < |s| ==> s[i] > 0
  }

  predicate Distinct(s: seq<int>)
  {
    forall i, j :: 0 <= i < j < |s| ==> s[i] != s[j]
  }

  predicate StrictlyIncreasing(s: seq<int>)
  {
    forall i, j :: 0 <= i < j < |s| ==> s[i] < s[j]
  }

  /** The position of the first size that is not positive: the one the
      validation loop stops at. */
  function FirstNonPositive(s: seq<int>): (i: nat)
    requires !AllPositive(s)
    ensures i < |s| && s[i] <= 0
    ensures forall j :: 0 <= j < i ==> s[j] > 0
  {
    if s[0] <= 0 then 0 else 1 + FirstNonPositive(s[1..])
  }

  /** The largest member of a non-empty sequence. */
  function SeqMax(s: seq<int>): (r: int)
    requires |s| > 0
    ensures r in s
    ensures forall i :: 0 <= i < |s| ==> s[i] <= r
  {
    if |s| == 1 then s[0]
    else
      var m := SeqMax(s[1..]);
      if s[0] < m then m else s[0]
  }

  /** Inserts a new value into a strictly increasing sequence at its place. */
  function InsertSorted(s: seq<int>, x: int): (r: seq<int>)
    requires StrictlyIncreasing(s) && x !in s
    ensures StrictlyIncreasing(r)
    ensures multiset(r) == multiset(s) + multiset{x}
  {
    if s == [] then [x]
    else if x < s[0] then
      assert forall i :: 0 <= i < |s| ==> x < s[i];
      [x] + s
    else
      assert s == [s[0]] + s[1..];
      var tail := InsertSorted(s[1..], x);
      TailAbove(s, x, tail);
      [s[0]] + tail
  }

  lemma TailAbove(s: seq<int>, x: int, tail: seq<int>)
    requires |s| > 0 && StrictlyIncreasing(s) && s[0] < x
    requires multiset(tail) == multiset(s[1..]) + multiset{x}
    ensures forall i :: 0 <= i < |tail| ==> s[0] < tail[i]
  {
    forall i | 0 <= i < |tail| ensures s[0] < tail[i] {
      assert tail[i] in multiset(tail);
      if tail[i] != x {
        assert tail[i] in multiset(s[1..]);
        assert tail[i] in s[1..];
      }
    }
  }

  /** The effect of `sort.Ints` on a slice of distinct values: the same values,
      strictly ascending. */
  function SortInts(s: seq<int>): (r: seq<int>)
    requires Distinct(s)
    ensures StrictlyIncreasing(r)
    ensures multiset(r) == multiset(s)
  {
    if s == [] then []
    else
      var init := s[..|s| - 1];
      var last := s[|s| - 1];
      assert s == init + [last];
      var sorted := SortInts(init);
      assert last !in multiset(init);
      InsertSorted(sorted, last)
  }

  /** Two strictly increasing sequences with the same members are equal, so
      the cleaned sizes depend only on which values the input holds, not on
      their order or repetitions. */
  lemma {:induction false} StrictlyIncreasingUnique(a: seq<int>, b: seq<int>)
    requires StrictlyIncreasing(a) && StrictlyIncreasing(b)
    requires forall x :: x in a <==> x in b
    ensures a == b
  {
    SameMembersBothEmpty(a, b);
    if a != [] {
      assert a[0] == b[0] by {
        assert a[0] in a && b[0] in b;
        assert a[0] in b && b[0] in a;
      }
      forall x ensures x in a[1..] <==> x in b[1..] {
        if x in a[1..] {
          assert x in a;
          assert x in b && x > a[0];
        }
        if x in b[1..] {
          assert x in b;
          assert x in a && x > b[0];
        }
      }
      StrictlyIncreasingUnique(a[1..], b[1..]);
      assert a == [a[0]] + a[1..] && b == [b[0]] + b[1..];
    }
  }

  lemma SameMembersBothEmpty(a: seq<int>, b: seq<int>)
    requires forall x :: x in a <==> x in b
    ensures a == [] <==> b == []
  {
    if a != [] {
      var h := a[0];
      assert h in a;
      assert h in b;
    }
    if b != [] {
      var h := b[0];
      assert h in b;
      assert h in a;
    }
  }

  // ---------------------------------------------------------------------------
  // Phase 1: validate, deduplicate and sort the pack sizes
  // ---------------------------------------------------------------------------

  /** The loop that rejects a non-positive size, drops duplicates through the
      `seen` set, rejects an empty outcome, and sorts what is left. */
  method CleanSizes(packSizes: seq<int>) returns (r: Result<seq<int>>)
    ensures !AllPositive(packSizes) ==>
              r == Failure(InvalidPackSize(packSizes[FirstNonPositive(packSizes)]))
    ensures |packSizes| == 0 ==> r == Failure(NoValidSizes)
    ensures AllPositive(packSizes) && |packSizes| > 0 ==> r.Success?
    ensures r.Success? ==>
              && StrictlyIncreasing(r.value)
              && (forall x :: x in r.value <==> x in packSizes)
              && |r.value| > 0
  {
    var sizes: seq<int> := [];
    var seen: set<int> := {};
    for i := 0 to |packSizes|
      invariant forall j :: 0 <= j < i ==> packSizes[j] > 0
      invariant forall x :: x in seen <==> x in sizes
      invariant forall x :: x in sizes <==> x in packSizes[..i]
      invariant Distinct(sizes)
      invariant i > 0 ==> |sizes| > 0
      invariant |sizes| <= i
    {
      var s := packSizes[i];
      assert packSizes[..i + 1] == packSizes[..i] + [s];
      if s <= 0 {
        return Failure(InvalidPackSize(s));
      }
      if s in seen {
        continue;
      }
      seen := seen + {s};
      sizes := sizes + [s];
    }
    assert packSizes[..|packSizes|] == packSizes;
    if |sizes| == 0 {
      return Failure(NoValidSizes);
    }
    var sorted := SortInts(sizes);
    assert forall x :: x in sorted <==> x in multiset(sizes);
    return Success(sorted);
  }

  /** The largest cleaned size is the largest input size. */
  lemma LastIsMax(sizes: seq<int>, packSizes: seq<int>)
    requires |sizes| > 0 && StrictlyIncreasing(sizes)
    requires forall x :: x in sizes <==> x in packSizes
    ensures |packSizes| > 0 && sizes[|sizes| - 1] == SeqMax(packSizes)
  {
    assert sizes[0] in packSizes;
    var m := SeqMax(packSizes);
    var last := sizes[|sizes| - 1];
    assert last in packSizes;
    assert m in sizes;
  }

  // ---------------------------------------------------------------------------
  // Phase 2: the dynamic program over totals 0..limit
  // ---------------------------------------------------------------------------

  /** `c` is what `curr[t]` must hold once the sizes `sizes` are processed:
      the fewest packs filling exactly `t`, or INF when none does. */
  ghost predicate CorrectEntry(sizes: seq<int>, t: int, c: int)
  {
    if c == INF then !Reachable(sizes, t) else MinPacks(sizes, t, c)
  }

  /** The facts about `curr`/`prev` that hold between any two steps of the
      DP: curr[0] is 0, every entry is INF or at most its total, `prev[t]` is
      -1 exactly for unreached totals, and a reached total points back by a
      size in `sizes` to a total needing at most one pack fewer. */
  ghost predicate TableShape(curr: array<int>, prev: array<int>, sizes: seq<int>, limit: int)
    reads curr, prev
  {
    && 0 <= limit
    && curr.Length == limit + 1 && prev.Length == limit + 1
    && curr[0] == 0 && prev[0] == -1
    && (forall t :: 0 <= t <= limit ==> curr[t] == INF || 0 <= curr[t] <= t)
    && (forall t :: 0 < t <= limit ==> (prev[t] == -1 <==> curr[t] == INF))
    && (forall t :: 0 < t <= limit && curr[t] != INF ==>
          && prev[t] in sizes && 0 < prev[t] <= t
          && curr[t - prev[t]] + 1 <= curr[t])
  }

  /** Once the DP is done every back-pointer is tight: following it saves
      exactly one pack. */
  ghost predicate Linked(curr: array<int>, prev: array<int>, sizes: seq<int>)
    reads curr, prev
  {
    && curr.Length == prev.Length
    && (forall t :: 0 < t < curr.Length && curr[t] != INF ==>
          && prev[t] in sizes && 0 < prev[t] <= t
          && curr[t - prev[t]] + 1 == curr[t])
  }

  /** Before any size is processed only total 0 is reached, with no packs. */
  lemma NoSizes(t: int)
    requires t >= 0
    ensures CorrectEntry([], t, if t == 0 then 0 else INF)
  {
    var none: seq<int> := [];
    forall m | IsShipment(m, none) ensures m == map[] {
      assert forall k :: k in m ==> k in none;
      assert forall k :: k !in m;
      assert m.Keys == {};
    }
    assert Fills(map[], [], 0);
  }

  /** A size larger than `t` cannot take part in filling `t`. */
  lemma BelowSize(sizes: seq<int>, s: int, t: int, c: int)
    requires AllPositive(sizes) && s > 0 && 0 <= t < s
    requires CorrectEntry(sizes, t, c)
    ensures CorrectEntry(sizes + [s], t, c)
  {
    var ext := sizes + [s];
    forall m | Fills(m, ext, t) ensures Fills(m, sizes, t) {
      if s in m {
        PeelKey(m, s);
        ItemsLowerBound(m - {s}, 1);
        MulMono(1, m[s], s);
        assert false;
      }
    }
    if c != INF {
      var w :| Fills(w, sizes, t) && PacksIn(w) == c;
      assert Fills(w, ext, t);
    }
  }

  /** Removing one pack of size `k` from a shipment that has one. */
  ghost function Dec(m: map<int, int>, k: int): (r: map<int, int>)
    requires k in m && m[k] >= 1
    ensures Inc(r, k) == m
  {
    if m[k] == 1 then m - {k} else m[k := m[k] - 1]
  }

  /** One step of the inner loop: with `curr[t]` correct for the sizes before
      `s` and `curr[t - s]` correct for those and `s`, the smaller of
      `curr[t]` and `curr[t - s] + 1` is correct for `t` with `s` added. */
  lemma StepEntry(sizes: seq<int>, s: int, t: int, cOld: int, cRem: int)
    requires AllPositive(sizes) && 0 < s <= t <= MaxLimit
    requires CorrectEntry(sizes, t, cOld) && (cOld == INF || cOld <= t)
    requires CorrectEntry(sizes + [s], t - s, cRem) && (cRem == INF || 0 <= cRem <= t - s)
    ensures CorrectEntry(sizes + [s], t, if cRem + 1 < cOld then cRem + 1 else cOld)
  {
    var ext := sizes + [s];
    var cNew := if cRem + 1 < cOld then cRem + 1 else cOld;
    forall m | Fills(m, ext, t) ensures cNew != INF && cNew <= PacksIn(m) {
      if s in m {
        var rest := Dec(m, s);
        IncAdds(rest, s);
        assert Fills(rest, ext, t - s);
      } else {
        assert Fills(m, sizes, t);
      }
    }
    if cRem + 1 < cOld {
      var w :| Fills(w, ext, t - s) && PacksIn(w) == cRem;
      IncAdds(w, s);
      assert Fills(Inc(w, s), ext, t);
    } else if cOld != INF {
      var w :| Fills(w, sizes, t) && PacksIn(w) == cOld;
      assert Fills(w, ext, t);
    }
  }

  /** A correct entry is at most one more than the correct entry `s` below it. */
  lemma LinkTight(sizes: seq<int>, s: int, t: int, c: int, cRem: int)
    requires s in sizes && 0 < s <= t
    requires CorrectEntry(sizes, t, c) && CorrectEntry(sizes, t - s, cRem) && cRem != INF
    ensures c != INF && c <= cRem + 1
  {
    var w :| Fills(w, sizes, t - s) && PacksIn(w) == cRem;
    IncAdds(w, s);
    assert Fills(Inc(w, s), sizes, t);
  }

  /** The inner loop over totals for the size `sizes[j]`. */
  method ExtendWithSize(curr: array<int>, prev: array<int>, sizes: seq<int>, j: int, limit: int)
    requires AllPositive(sizes) && 0 <= j < |sizes| && 0 <= limit <= MaxLimit
    requires curr != prev
    requires TableShape(curr, prev, sizes, limit)
    requires forall t :: 0 <= t <= limit ==> CorrectEntry(sizes[..j], t, curr[t])
    modifies curr, prev
    ensures TableShape(curr, prev, sizes, limit)
    ensures forall t :: 0 <= t <= limit ==> CorrectEntry(sizes[..j + 1], t, curr[t])
  {
    var s := sizes[j];
    ghost var done := sizes[..j];
    assert sizes[..j + 1] == done + [s];
    forall t | 0 <= t <= limit && t < s ensures CorrectEntry(done + [s], t, curr[t]) {
      BelowSize(done, s, t, curr[t]);
    }
    var total := s;
    while total <= limit
      invariant s <= total && (total <= limit + 1 || total == s)
      invariant TableShape(curr, prev, sizes, limit)
      invariant forall t :: 0 <= t <= limit && t < total ==> CorrectEntry(done + [s], t, curr[t])
      invariant forall t :: total <= t <= limit ==> CorrectEntry(done, t, curr[t])
    {
      StepEntry(done, s, total, curr[total], curr[total - s]);
      Relax(curr, prev, sizes, s, total, limit);
      total := total + 1;
    }
  }

  /** The body of the inner loop at one total: keep `curr[total]` or improve
      it through `curr[total - s] + 1`, recording `s` in `prev[total]`. */
  method Relax(curr: array<int>, prev: array<int>, sizes: seq<int>, s: int, total: int, limit: int)
    requires curr != prev && s in sizes && 0 < s <= total <= limit <= MaxLimit
    requires TableShape(curr, prev, sizes, limit)
    modifies curr, prev
    ensures TableShape(curr, prev, sizes, limit)
    ensures curr[total] == if old(curr[total - s]) + 1 < old(curr[total])
                           then old(curr[total - s]) + 1 else old(curr[total])
    ensures prev[total] == if old(curr[total - s]) + 1 < old(curr[total])
                           then s else old(prev[total])
    ensures forall t :: 0 <= t <= limit && t != total ==>
              curr[t] == old(curr[t]) && prev[t] == old(prev[t])
  {
    var cand := curr[total - s] + 1;
    if cand < curr[total] {
      ghost var before := curr[..];
      curr[total] := cand;
      prev[total] := s;
      assert forall t :: 0 <= t <= limit ==> curr[t] <= before[t];
      forall t | 0 < t <= limit && curr[t] != INF
        ensures prev[t] in sizes && 0 < prev[t] <= t && curr[t - prev[t]] + 1 <= curr[t]
      {
        if t != total {
          assert curr[t - prev[t]] <= before[t - prev[t]];
        }
      }
    }
  }

  /** Allocates and fills `curr` (fewest packs per exact total, INF when
      unreached) and `prev` (the last size used to reach each total, -1 when
      none) for totals 0..limit. */
  method FillTable(sizes: seq<int>, limit: int) returns (curr: array<int>, prev: array<int>)
    requires AllPositive(sizes) && 0 <= limit <= MaxLimit
    ensures fresh(curr) && fresh(prev)
    ensures TableShape(curr, prev, sizes, limit)
    ensures Linked(curr, prev, sizes)
    ensures forall t :: 0 <= t <= limit ==> CorrectEntry(sizes, t, curr[t])
  {
    curr := new int[limit + 1];
    prev := new int[limit + 1];
    for i := 0 to limit + 1
      invariant forall t :: 0 <= t < i ==> curr[t] == INF && prev[t] == -1
    {
      curr[i] := INF;
      prev[i] := -1;
    }
    curr[0] := 0;
    assert sizes[..0] == [];
    forall t | 0 <= t <= limit ensures CorrectEntry(sizes[..0], t, curr[t]) {
      NoSizes(t);
    }
    for j := 0 to |sizes|
      invariant TableShape(curr, prev, sizes, limit)
      invariant forall t :: 0 <= t <= limit ==> CorrectEntry(sizes[..j], t, curr[t])
    {
      ExtendWithSize(curr, prev, sizes, j, limit);
    }
    assert sizes[..|sizes|] == sizes;
    forall t | 0 < t <= limit && curr[t] != INF
      ensures curr[t - prev[t]] + 1 == curr[t]
    {
      LinkTight(sizes, prev[t], t, curr[t], curr[t - prev[t]]);
    }
  }

  // ---------------------------------------------------------------------------
  // Phase 3: the best total
  // ---------------------------------------------------------------------------

  /** Scans totals items..limit for the smallest reached one, keeping its
      pack count; -1 when none is reached. */
  method PickBest(curr: array<int>, items: int, limit: int) returns (bestTotal: int, bestPacks: int)
    requires 0 <= items && limit < curr.Length
    ensures bestTotal == -1 <==> forall t :: items <= t <= limit ==> curr[t] == INF
    ensures bestTotal != -1 ==>
              && items <= bestTotal <= limit
              && curr[bestTotal] != INF && bestPacks == curr[bestTotal]
              && forall t :: items <= t < bestTotal ==> curr[t] == INF
  {
    bestTotal := -1;
    bestPacks := INF;
    var total := items;
    while total <= limit
      invariant items <= total && (total <= limit + 1 || total == items)
      invariant bestTotal == -1 ==> forall t :: items <= t < total ==> curr[t] == INF
      invariant bestTotal != -1 ==>
                  && items <= bestTotal < total
                  && curr[bestTotal] != INF && bestPacks == curr[bestTotal]
                  && forall t :: items <= t < bestTotal ==> curr[t] == INF
    {
      var packs := curr[total];
      if packs == INF {
        total := total + 1;
        continue;
      }
      if bestTotal == -1 || total < bestTotal || (total == bestTotal && packs < bestPacks) {
        bestTotal := total;
        bestPacks := packs;
      }
      total := total + 1;
    }
  }

  /** Some multiple of any size `s` lies in [items, items + s - 1]. */
  lemma CoveringTotal(sizes: seq<int>, s: int, items: int) returns (t: int)
    requires s in sizes && s > 0 && items >= 1
    ensures items <= t <= items + s - 1 && Reachable(sizes, t)
  {
    var n := items + s - 1;
    var q := n / s;
    assert n == s * q + n % s && 0 <= n % s < s;
    t := s * q;
    if q <= 0 {
      MulMono(q, 0, s);
    }
    var m := map[s := q];
    PeelKey(m, s);
    assert m - {s} == map[];
    assert Fills(m, sizes, t);
  }

  // ---------------------------------------------------------------------------
  // Phase 4: rebuild the counts from prev[]
  // ---------------------------------------------------------------------------

  /** Walks `prev` back from `bestTotal` to 0, adding one pack of the size
      recorded at each step; the "internal error" return is never taken. */
  method Rebuild(curr: array<int>, prev: array<int>, sizes: seq<int>, bestTotal: int)
    returns (r: Result<map<int, int>>)
    requires 0 <= bestTotal < curr.Length && curr[bestTotal] != INF && curr[0] == 0
    requires forall t :: 0 <= t < curr.Length ==> curr[t] <= INF
    requires Linked(curr, prev, sizes)
    ensures r.Success?
    ensures IsShipment(r.value, sizes)
    ensures ItemsIn(r.value) == bestTotal
    ensures PacksIn(r.value) == curr[bestTotal]
  {
    var counts := map[];
    var cur := bestTotal;
    while cur > 0
      invariant 0 <= cur <= bestTotal && curr[cur] != INF
      invariant IsShipment(counts, sizes)
      invariant ItemsIn(counts) + cur == bestTotal
      invariant PacksIn(counts) + curr[cur] == curr[bestTotal]
    {
      var s := prev[cur];
      if s == -1 {
        assert false;
        return Failure(RebuildFailed);
      }
      IncAdds(counts, s);
      counts := Inc(counts, s);
      cur := cur - s;
    }
    return Success(counts);
  }

  // ---------------------------------------------------------------------------
  // CalculatePacks
  // ---------------------------------------------------------------------------

  /** What a successful result promises: at least `items` shipped in whole
      packs of the given sizes, no reachable total between `items` and the
      one shipped, and the fewest packs for that total. */
  ghost predicate IsOptimalShipment(sizes: seq<int>, items: int, res: PackResult)
  {
    && items <= res.TotalItems
    && res.ExtraItems == res.TotalItems - items
    && Fills(res.Packs, sizes, res.TotalItems)
    && (forall t :: items <= t < res.TotalItems ==> !Reachable(sizes, t))
    && MinPacks(sizes, res.TotalItems, PacksIn(res.Packs))
  }

  /** The four phases after validation: the table, the best total and the
      rebuilt counts, for cleaned sizes and a horizon that passed the guard. */
  method Solve(items: int, sizes: seq<int>, limit: int) returns (r: Result<PackResult>)
    requires items >= 1 && |sizes| > 0 && AllPositive(sizes)
    requires forall i :: 0 <= i < |sizes| ==> sizes[i] <= sizes[|sizes| - 1]
    requires limit == items + sizes[|sizes| - 1] - 1 && limit <= MaxLimit
    ensures r.Success?
    ensures IsOptimalShipment(sizes, items, r.value)
    ensures r.value.TotalItems <= limit
  {
    var curr, prev := FillTable(sizes, limit);
    var bestTotal, bestPacks := PickBest(curr, items, limit);
    ghost var w := CoveringTotal(sizes, sizes[0], items);
    assert curr[w] != INF by {
      assert CorrectEntry(sizes, w, curr[w]);
    }
    if bestTotal == -1 {
      assert false;
      return Failure(NoCombination(items));
    }
    var rebuilt := Rebuild(curr, prev, sizes, bestTotal);
    var counts := rebuilt.value;
    var res := PackResult(counts, bestTotal, bestTotal - items);
    forall t | items <= t < bestTotal ensures !Reachable(sizes, t) {
      assert CorrectEntry(sizes, t, curr[t]);
    }
    assert CorrectEntry(sizes, bestTotal, curr[bestTotal]);
    return Success(res);
  }

  method CalculatePacks(items: int, packSizes: seq<int>) returns (r: Result<PackResult>)
    ensures items <= 0 ==> r == Failure(InvalidItems(items))
    ensures items > 0 && |packSizes| == 0 ==> r == Failure(NoPackSizes)
    ensures items > 0 && |packSizes| > 0 && !AllPositive(packSizes) ==>
              r == Failure(InvalidPackSize(packSizes[FirstNonPositive(packSizes)]))
    ensures items > 0 && |packSizes| > 0 && AllPositive(packSizes) ==>
              var limit := items + SeqMax(packSizes) - 1;
              && (limit > MaxLimit ==> r == Failure(LimitTooLarge(limit)))
              && (limit <= MaxLimit ==>
                    r.Success? && IsOptimalShipment(packSizes, items, r.value)
                    && r.value.TotalItems <= limit)
  {
    if items <= 0 {
      return Failure(InvalidItems(items));
    }
    if |packSizes| == 0 {
      return Failure(NoPackSizes);
    }
    var cleaned := CleanSizes(packSizes);
    if cleaned.Failure? {
      return Failure(cleaned.error);
    }
    var sizes := cleaned.value;
    LastIsMax(sizes, packSizes);
    var maxSize := sizes[|sizes| - 1];
    var limit := items + maxSize - 1;
    if limit <= 0 || limit > MaxLimit {
      return Failure(LimitTooLarge(limit));
    }
    assert AllPositive(sizes) by {
      forall i | 0 <= i < |sizes| ensures sizes[i] > 0 {
        assert sizes[i] in packSizes;
      }
    }
    r := Solve(items, sizes, limit);
    SameMembersSameOptimum(sizes, packSizes, items, r.value);
  }

  /** The promise depends on the pack sizes only through which values occur:
      duplicated or reordered sizes admit exactly the same results. */
  lemma SameMembersSameOptimum(a: seq<int>, b: seq<int>, items: int, res: PackResult)
    requires forall x :: x in a <==> x in b
    ensures IsOptimalShipment(a, items, res) <==> IsOptimalShipment(b, items, res)
  {
    if IsOptimalShipment(a, items, res) {
      OptimumTransfers(a, b, items, res);
    }
    if IsOptimalShipment(b, items, res) {
      OptimumTransfers(b, a, items, res);
    }
  }

  lemma OptimumTransfers(a: seq<int>, b: seq<int>, items: int, res: PackResult)
    requires forall x :: x in a <==> x in b
    requires IsOptimalShipment(a, items, res)
    ensures IsOptimalShipment(b, items, res)
  {
    var total := res.TotalItems;
    SameSizesSameFills(a, b, res.Packs, total);
    forall t | items <= t < total ensures !Reachable(b, t) {
      assert !Reachable(a, t);
      forall m ensures !Fills(m, b, t) {
        SameSizesSameFills(a, b, m, t);
      }
    }
    forall m | Fills(m, b, total) ensures PacksIn(res.Packs) <= PacksIn(m) {
      SameSizesSameFills(a, b, m, total);
    }
  }
}
