# Pack calculator — a verified Dafny model of `CalculatePacks`

The pack calculator answers one question. An order of `items` items must be
shipped in whole packs taken from a list of pack sizes. Which packs are sent?
`CalculatePacks` promises four things: only whole packs; at least `items`
shipped; the smallest possible total; and, for that total, the fewest packs.
It returns a `PackResult` with three parts: a map from pack size to count, the
items shipped in total, and the overshoot `TotalItems - items`.

The function works in four phases, and the model follows them:

1. **Validate and clean**. `CalculatePacks` rejects `items <= 0` and an empty
   size list. `Calculator.CleanSizes` then rejects the first size that is not
   positive, drops duplicates through a `seen` set, reports an empty outcome
   as "no valid sizes", and sorts what is left ascending.
2. **Dynamic program** (`Calculator.FillTable`, `ExtendWithSize`, `Relax`). Two
   arrays cover totals `0..limit`, where `limit = items + maxSize - 1`.
   `curr[t]` holds the fewest packs that sum to exactly `t`, or the sentinel
   `INF = MaxInt32 / 2` when no packs do. `prev[t]` holds the last size used
   to reach `t`, or `-1`. Sizes are processed one at a time. The inner loop
   relaxes `curr[total]` through `curr[total - s] + 1`.
3. **Best total** (`Calculator.PickBest`). Scan `items..limit` for the first
   reached total.
4. **Rebuild** (`Calculator.Rebuild`). Walk `prev` back to 0 and count one pack
   per step.

The model is in three modules:

- `PackModel` (model.dfy) holds the result record and the vocabulary of the
  contracts. A *shipment* is a map from size to count. `ItemsIn` is the sum of
  `size * count` and `PacksIn` the sum of the counts. `Reachable(sizes, t)`
  says some shipment over `sizes` holds exactly `t` items. `MinPacks(sizes, t,
  c)` says `c` is the fewest packs that do.
- `Calculator` (calculator.dfy) holds the four phases as methods over `seq`
  and `array`, and `CalculatePacks` itself. One error kind stands for each
  error return. `IsOptimalShipment` states the promise of the doc comment, and
  `CalculatePacks` proves it of every successful result. The "no combination"
  branch and the "internal error while rebuilding" branch are proved
  unreachable.
- `CalculatorTest` (calculator_test.dfy) holds the unit test's basic scenarios
  for sizes 250, 500, 1000, 2000 and 5000. For each scenario a lemma shows that
  the promise leaves only one possible result, the one the test expects.
  `BasicCases` calls `CalculatePacks` on each scenario and concludes its exact
  result.

## Model

| member | source | states |
|---|---|---|
| `PackModel.Inc` | internal/calculator/calculator.go:103 | `counts[s]++` on the result map sets the count of `s` to one more than before, a missing key counting as 0, and every other entry keeps its count |
| `PackModel.PeelKey` | internal/calculator/model.go:3-7 | the item and pack sums of a shipment may take out any entry first, so they do not depend on map order |
| `PackModel.IncAdds` | internal/calculator/calculator.go:103-104 | one more pack of size `s` adds `s` items and one pack to the shipment |
| `Calculator.FirstNonPositive` | internal/calculator/calculator.go:26-29 | the error reports the first size that is not positive; every size before it is positive |
| `Calculator.SeqMax` | internal/calculator/calculator.go:42 | the maximum belongs to the list and bounds every member |
| `Calculator.SortInts` | internal/calculator/calculator.go:40 | sorting distinct sizes yields a strictly ascending list with the same multiset |
| `Calculator.StrictlyIncreasingUnique` | internal/calculator/calculator.go:24-40 | two strictly ascending lists with the same members are equal, so the cleaned sizes depend only on which values occur |
| `Calculator.CleanSizes` | internal/calculator/calculator.go:23-40 | the first non-positive size is rejected, with its value; an empty list gives the "no valid sizes" error; an all-positive non-empty list succeeds with a strictly ascending, non-empty list holding exactly the input's values |
| `Calculator.LastIsMax` | internal/calculator/calculator.go:42 | the last cleaned size is the largest input size |
| `Calculator.NoSizes` | internal/calculator/calculator.go:55-59 | the initial table is correct for no sizes: total 0 takes 0 packs and every other total is unreachable |
| `Calculator.BelowSize` | internal/calculator/calculator.go:63 | a size larger than `t` cannot help fill `t`, so totals below the loop start stay correct when the size is added |
| `Calculator.StepEntry` | internal/calculator/calculator.go:64-67 | the relaxation rule, the smaller of `curr[t]` and `curr[t-s]+1`, gives exactly the fewest packs for `t` once `s` is added, or unreachable |
| `Calculator.Relax` | internal/calculator/calculator.go:64-67 | one inner-loop step updates `curr[total]` by the relaxation rule, sets `prev[total]` to `s` exactly when it improves and keeps it otherwise, leaves every other entry of both arrays unchanged, and keeps the table shape: unreached totals hold `INF` and `-1`, and back-pointers are sizes that save at least one pack |
| `Calculator.ExtendWithSize` | internal/calculator/calculator.go:63-68 | after the inner loop for `sizes[j]`, every entry is correct for `sizes[..j+1]` |
| `Calculator.LinkTight` | internal/calculator/calculator.go:62-69 | in a finished table every back-pointer saves exactly one pack |
| `Calculator.FillTable` | internal/calculator/calculator.go:52-69 | `curr[t]` is the fewest packs summing to exactly `t`, or `INF` exactly when no packs do; `curr[0] == 0`; for reached `t > 0`, `prev[t]` is a size and `curr[t - prev[t]] + 1 == curr[t]` |
| `Calculator.PickBest` | internal/calculator/calculator.go:74-88 | the scan returns `-1` exactly when no total in `items..limit` is reached; otherwise it returns the smallest reached total there and its pack count |
| `Calculator.CoveringTotal` | internal/calculator/calculator.go:90-92 | for any size `s`, some multiple of `s` lies in `[items, items+s-1]`, so the "no combination" error cannot occur |
| `Calculator.Rebuild` | internal/calculator/calculator.go:94-105 | the walk never meets `-1`; it returns a shipment using only the cleaned sizes, each with count at least 1, holding `bestTotal` items in `curr[bestTotal]` packs |
| `Calculator.Solve` | internal/calculator/calculator.go:50-112 | after validation, the "no combination" error is never returned and the result is an optimal shipment no larger than `limit` |
| `Calculator.CalculatePacks` | internal/calculator/calculator.go:10-113 | `items <= 0`, an empty list, a non-positive size and `limit > 10_000_000` each give their error; otherwise the call succeeds with whole packs of the given sizes, at least `items` items, no reachable total between `items` and the one shipped, the fewest packs for that total, and `ExtraItems == TotalItems - items` |
| `Calculator.SameMembersSameOptimum` | internal/calculator/calculator.go:24-40 | duplicated or reordered size lists admit exactly the same optimal results, in both directions |
| `CalculatorTest.PinTotal` | internal/calculator/calculator.go:10-14 | with sizes that are multiples of 250, an optimal result's total is the least multiple of 250 reachable from `items` on, and it has no more packs than any shipment of that total |
| `CalculatorTest.Split750` | internal/calculator/calculator_test.go:34-39 | the only way to hold 750 items in at most two packs of the test sizes is one 250 and one 500 |
| `CalculatorTest.Split12250` | internal/calculator/calculator_test.go:47-51 | the only way to hold 12250 items in at most four packs of the test sizes is two 5000s, one 2000 and one 250 |
| `CalculatorTest.OneItem` | internal/calculator/calculator_test.go:13-18 | an optimal result for 1 item is one 250, total 250, 249 extra |
| `CalculatorTest.ExactPack` | internal/calculator/calculator_test.go:20-25 | an optimal result for 250 items is one 250, nothing extra |
| `CalculatorTest.JustOverOnePack` | internal/calculator/calculator_test.go:27-32 | an optimal result for 251 items is one 500, not two 250s |
| `CalculatorTest.TwoSizes` | internal/calculator/calculator_test.go:34-39 | an optimal result for 501 items is one 250 and one 500, total 750 |
| `CalculatorTest.OneLargerPack` | internal/calculator/calculator_test.go:41-45 | an optimal result for 780 items is one 1000 |
| `CalculatorTest.ManyPacks` | internal/calculator/calculator_test.go:47-51 | an optimal result for 12001 items is two 5000s, one 2000 and one 250, total 12250 |
| `CalculatorTest.BasicCases` | internal/calculator/calculator_test.go:10-52 | calling `CalculatePacks` on sizes 250, 500, 1000, 2000 and 5000 with 1, 250, 251, 501, 780 and 12001 items succeeds with exactly the shipments, totals and extras the unit test expects |

## Left out

- The HTTP server (internal/api/server.go) is not part of this model. It handles JSON, guards the stored sizes with a lock and logs requests. Its own size-cleaning loop repeats the one modelled in `CleanSizes`.
- The JSON wire structs (internal/api/dto.go) and process start-up (cmd/server/main.go) are not part of this model.
- Go's 64-bit `int` is modelled as an unbounded integer. `items + maxSize - 1` can then never wrap, so the `limit <= 0` half of the guard is kept in the code but can never fire.
- `INF` keeps its Go value, `MaxInt32 / 2`. This is sound because every reached entry is at most its total, and every total is at most 10,000,000.
- Calculator.CalculatePacks: when several shipments reach the minimal total with the fewest packs, the contract says the result is one of them, not which one. The choice follows from the order of sizes and the strict `<` in the relaxation, which the model keeps but does not state.
- `sort.Ints` sorts the slice in place. The model uses the pure function `SortInts` in its place. Its contract (ascending, same multiset) is what the rest of the model relies on.
- The capacity hint of `make(..., 0, len(packSizes))` and the error message texts are left out. Each error return is an error kind carrying the value the message reports.
- The 500000-item edge-case test (internal/calculator/calculator_test.go:54-70) is too large to state as a concrete lemma. Its general assertions are covered by `CalculatePacks`: the totals add up, `TotalItems >= items`, and `ExtraItems` is the difference.
- The scenario lemmas follow from the promise that `CalculatePacks` states. They do not evaluate the dynamic program on those inputs.
