/** The VP bundle calculator: covers the VP still missing for an item with store
    bundles, as many of the largest as fit first, then one smallest bundle for
    whatever is left. Prices are whole euros as charged per bundle. */
module VpCalc {
  import opened Text

  /** One cart entry: `count` bundles of `vp` points each. */
  datatype Line = Line(vp: int, count: int)

  /** The store's bundles as (points, euro price), largest first. */
  const Bundles: seq<(int, int)> :=
    [(11000, 100), (5350, 50), (3650, 35), (2050, 20), (1000, 10), (475, 5)]

  const Smallest: int := 475

  lemma BundlesDescending()
    ensures |Bundles| == 6 && Bundles[5].0 == Smallest
    ensures forall a, b :: 0 <= a < b < |Bundles| ==> Bundles[a].0 > Bundles[b].0
    ensures forall a :: 0 <= a < |Bundles| ==> Bundles[a].0 >= Smallest && Bundles[a].1 > 0
    ensures forall a :: 0 <= a < |Bundles| ==> Bundles[a].0 in Sizes
    ensures forall v :: v in Sizes ==> v >= Smallest && PriceOf(v) > 0
  {
  }

  /** The sizes in the table. */
  const Sizes: set<int> := {11000, 5350, 3650, 2050, 1000, 475}

  predicate IsBundle(v: int) {
    v in Sizes
  }

  /** The euro price of a bundle of `v` points (0 for a size the store lacks). */
  function PriceOf(v: int): int {
    if v == 11000 then 100 else if v == 5350 then 50 else if v == 3650 then 35
    else if v == 2050 then 20 else if v == 1000 then 10 else if v == 475 then 5 else 0
  }

  lemma PriceOfTable(k: int)
    requires 0 <= k < |Bundles|
    ensures PriceOf(Bundles[k].0) == Bundles[k].1
  {
  }

  /** Points in the cart. */
  function VpOf(c: seq<Line>): int {
    if |c| == 0 then 0 else VpOf(c[..|c| - 1]) + c[|c| - 1].vp * c[|c| - 1].count
  }

  /** Euros the cart costs. */
  function CostOf(c: seq<Line>): int {
    if |c| == 0 then 0 else CostOf(c[..|c| - 1]) + c[|c| - 1].count * PriceOf(c[|c| - 1].vp)
  }

  /** Points the cart holds in bundles of at least `v` points. */
  function VpAtLeast(c: seq<Line>, v: int): int {
    if |c| == 0 then 0
    else VpAtLeast(c[..|c| - 1], v) + (if c[|c| - 1].vp >= v then c[|c| - 1].vp * c[|c| - 1].count else 0)
  }

  /** Bundles of exactly `v` points in the cart. */
  function CountOf(c: seq<Line>, v: int): int {
    if |c| == 0 then 0
    else CountOf(c[..|c| - 1], v) + (if c[|c| - 1].vp == v then c[|c| - 1].count else 0)
  }

  /** Every entry is a store bundle, bought at least once, each size at most once,
      in decreasing size. */
  predicate WellFormed(c: seq<Line>) {
    && (forall a :: 0 <= a < |c| ==> IsBundle(c[a].vp) && c[a].count >= 1)
    && (forall a, b :: 0 <= a < b < |c| ==> c[a].vp > c[b].vp)
  }

  /** `"{count}x {vp} VP"`. */
  function Render(l: Line): (s: string)
    requires l.vp >= 0 && l.count >= 0
    ensures |s| > 0
  {
    ShowNat(l.count) + "x " + ShowNat(l.vp) + " VP"
  }

  function RenderAll(c: seq<Line>): (r: seq<string>)
    requires forall a :: 0 <= a < |c| ==> c[a].vp >= 0 && c[a].count >= 0
    ensures |r| == |c| && forall a :: 0 <= a < |c| ==> r[a] == Render(c[a])
  {
    if |c| == 0 then [] else [Render(c[0])] + RenderAll(c[1..])
  }

  lemma {:induction false} VpAtLeastAll(c: seq<Line>, v: int)
    requires forall a :: 0 <= a < |c| ==> c[a].vp >= v
    ensures VpAtLeast(c, v) == VpOf(c)
  {
    if |c| > 0 {
      VpAtLeastAll(c[..|c| - 1], v);
    }
  }

  /** Facts about a cart with one more entry at the end. */
  lemma {:induction false} Snoc(p: seq<Line>, x: Line)
    ensures VpOf(p + [x]) == VpOf(p) + x.vp * x.count
    ensures CostOf(p + [x]) == CostOf(p) + x.count * PriceOf(x.vp)
    ensures CountOf(p + [x], x.vp) == CountOf(p, x.vp) + x.count
  {
    assert (p + [x])[..|p|] == p;
  }

  lemma {:induction false} SnocAtLeast(p: seq<Line>, x: Line, v: int)
    ensures VpAtLeast(p + [x], v) == VpAtLeast(p, v) + (if x.vp >= v then x.vp * x.count else 0)
  {
    assert (p + [x])[..|p|] == p;
  }

  lemma {:induction false} SnocCount(p: seq<Line>, x: Line, v: int)
    ensures CountOf(p + [x], v) == CountOf(p, v) + (if x.vp == v then x.count else 0)
  {
    assert (p + [x])[..|p|] == p;
  }

  /** `cart[v] = cart.get(v, 0) + 1`: one more bundle of `v` points, in place if the
      size is already in the cart, else as a new last entry. */
  function Bump(c: seq<Line>, v: int): (r: seq<Line>)
    ensures |r| == |c| || r == c + [Line(v, 1)]
    ensures (forall a :: 0 <= a < |c| ==> c[a].vp != v) ==> r == c + [Line(v, 1)]
    // a size already in the cart: its first entry counts one more, nothing else moves
    ensures (exists a :: 0 <= a < |c| && c[a].vp == v) ==>
              |r| == |c| && forall a :: 0 <= a < |c| ==> r[a] == if FirstWith(c, v, a) then Line(v, c[a].count + 1) else c[a]
  {
    if |c| == 0 then [Line(v, 1)]
    else if c[0].vp == v then [Line(v, c[0].count + 1)] + c[1..]
    else
      assert forall a :: 1 <= a < |c| ==> c[1..][a - 1] == c[a];
      assert forall a :: 1 <= a < |c| ==> (FirstWith(c, v, a) <==> FirstWith(c[1..], v, a - 1));
      [c[0]] + Bump(c[1..], v)
  }

  /** Entry `a` is the first with `v` points. */
  predicate FirstWith(c: seq<Line>, v: int, a: int)
    requires 0 <= a < |c|
  {
    c[a].vp == v && forall b :: 0 <= b < a ==> c[b].vp != v
  }

  /** When the size sits only in the last entry, that entry's count goes up by one. */
  lemma {:induction false} BumpAtEnd(p: seq<Line>, x: Line)
    requires forall a :: 0 <= a < |p| ==> p[a].vp != x.vp
    ensures Bump(p + [x], x.vp) == p + [Line(x.vp, x.count + 1)]
  {
    if |p| > 0 {
      assert (p + [x])[1..] == p[1..] + [x];
      BumpAtEnd(p[1..], x);
    }
  }

  lemma {:induction false} BundleSize(v: int)
    requires IsBundle(v)
    ensures v >= Smallest && PriceOf(v) > 0
  {
    BundlesDescending();
  }

  /** Adding the top-up bundle to a well-formed cart: the cart stays well formed,
      gains its points and price, and nothing larger changes. */
  lemma {:induction false} BumpSmallest(c: seq<Line>)
    requires WellFormed(c)
    ensures WellFormed(Bump(c, Smallest))
    ensures VpOf(Bump(c, Smallest)) == VpOf(c) + Smallest
    ensures CostOf(Bump(c, Smallest)) == CostOf(c) + PriceOf(Smallest)
    ensures CountOf(Bump(c, Smallest), Smallest) == CountOf(c, Smallest) + 1
    ensures forall v :: v > Smallest ==> VpAtLeast(Bump(c, Smallest), v) == VpAtLeast(c, v)
  {
    if |c| > 0 && c[|c| - 1].vp == Smallest {
      BumpPresent(c);
    } else {
      BumpAbsent(c);
    }
  }

  lemma {:induction false} BumpPresent(c: seq<Line>)
    requires WellFormed(c) && |c| > 0 && c[|c| - 1].vp == Smallest
    ensures WellFormed(Bump(c, Smallest))
    ensures VpOf(Bump(c, Smallest)) == VpOf(c) + Smallest
    ensures CostOf(Bump(c, Smallest)) == CostOf(c) + PriceOf(Smallest)
    ensures CountOf(Bump(c, Smallest), Smallest) == CountOf(c, Smallest) + 1
    ensures forall v :: v > Smallest ==> VpAtLeast(Bump(c, Smallest), v) == VpAtLeast(c, v)
  {
    var n := |c| - 1;
    var p := c[..n];
    var x := c[n];
    var y := Line(Smallest, x.count + 1);
    var r := p + [y];
    assert c == p + [x];
    assert Bump(c, Smallest) == r by {
      assert forall a :: 0 <= a < n ==> p[a].vp != Smallest by {
        forall a | 0 <= a < n ensures p[a].vp != Smallest { assert c[a].vp > c[n].vp; }
      }
      BumpAtEnd(p, x);
    }
    assert WellFormed(r) by {
      assert forall a :: 0 <= a < |r| ==> r[a].vp == c[a].vp && r[a].count >= c[a].count by {
        forall a | 0 <= a < |r| ensures r[a].vp == c[a].vp && r[a].count >= c[a].count {
          if a < n { assert r[a] == p[a] == c[a]; }
        }
      }
    }
    assert VpOf(r) == VpOf(c) + Smallest && CostOf(r) == CostOf(c) + PriceOf(Smallest)
           && CountOf(r, Smallest) == CountOf(c, Smallest) + 1 by {
      Snoc(p, x);
      Snoc(p, y);
    }
    forall v | v > Smallest ensures VpAtLeast(r, v) == VpAtLeast(c, v) {
      SnocAtLeast(p, x, v);
      SnocAtLeast(p, y, v);
    }
  }

  lemma {:induction false} BumpAbsent(c: seq<Line>)
    requires WellFormed(c) && (|c| == 0 || c[|c| - 1].vp != Smallest)
    ensures WellFormed(Bump(c, Smallest))
    ensures VpOf(Bump(c, Smallest)) == VpOf(c) + Smallest
    ensures CostOf(Bump(c, Smallest)) == CostOf(c) + PriceOf(Smallest)
    ensures CountOf(Bump(c, Smallest), Smallest) == CountOf(c, Smallest) + 1
    ensures forall v :: v > Smallest ==> VpAtLeast(Bump(c, Smallest), v) == VpAtLeast(c, v)
  {
    var x := Line(Smallest, 1);
    var r := c + [x];
    assert forall a :: 0 <= a < |c| ==> c[a].vp > Smallest by {
      forall a | 0 <= a < |c| ensures c[a].vp > Smallest {
        BundleSize(c[a].vp);
        if a < |c| - 1 { assert c[a].vp > c[|c| - 1].vp; BundleSize(c[|c| - 1].vp); }
      }
    }
    assert Bump(c, Smallest) == r by {
      assert forall a :: 0 <= a < |c| ==> c[a].vp != Smallest;
    }
    assert WellFormed(r) by {
      assert IsBundle(Smallest);
      assert forall a :: 0 <= a < |c| ==> r[a] == c[a];
    }
    assert VpOf(r) == VpOf(c) + Smallest && CostOf(r) == CostOf(c) + PriceOf(Smallest)
           && CountOf(r, Smallest) == CountOf(c, Smallest) + 1 by {
      Snoc(c, x);
    }
    forall v | v > Smallest ensures VpAtLeast(r, v) == VpAtLeast(c, v) {
      SnocAtLeast(c, x, v);
    }
  }

  /** The greedy shape of a cart for `shortfall` points: after the bundles of each
      larger size, less than that size is still missing and nothing is overpaid;
      the smallest size is bought the fewest times that cover the rest. */
  predicate Greedy(c: seq<Line>, shortfall: int) {
    && (forall j :: 0 <= j < |Bundles| - 1 ==>
          0 <= shortfall - VpAtLeast(c, Bundles[j].0) < Bundles[j].0)
    && CountOf(c, Smallest) == (shortfall - VpAtLeast(c, Smallest + 1) + Smallest - 1) / Smallest
  }

  /** What holds after the first `i` bundle sizes were tried. */
  predicate Progress(c: seq<Line>, i: int, shortfall: int) {
    && 0 <= i <= |Bundles|
    && 0 <= shortfall - VpOf(c)
    && WellFormed(c)
    && (forall a :: 0 <= a < |c| ==> i > 0 && c[a].vp >= Bundles[i - 1].0)
    && (forall j :: 0 <= j < i ==> 0 <= shortfall - VpAtLeast(c, Bundles[j].0) < Bundles[j].0)
    && (forall j :: i <= j < |Bundles| ==> CountOf(c, Bundles[j].0) == 0)
    && (i == |Bundles| ==> CountOf(c, Smallest) == (shortfall - VpAtLeast(c, Smallest + 1)) / Smallest)
  }

  /** A cart of sizes no smaller than the smallest splits into its larger bundles
      and its smallest ones. */
  lemma {:induction false} SplitSmallest(c: seq<Line>)
    requires forall a :: 0 <= a < |c| ==> c[a].vp >= Smallest
    ensures VpOf(c) == VpAtLeast(c, Smallest + 1) + Smallest * CountOf(c, Smallest)
  {
    if |c| > 0 {
      SplitSmallest(c[..|c| - 1]);
    }
  }

  lemma CeilDiv(r: int, q: int, rest: int)
    requires r == Smallest * q + rest && 0 <= rest < Smallest
    ensures (r + Smallest - 1) / Smallest == q + (if rest > 0 then 1 else 0)
  {
  }

  lemma DivRest(r: int, d: int)
    requires r >= 0 && d > 0
    ensures 0 <= r - (r / d) * d < d
  {
  }

  /** Buying `count` bundles of the `i`-th size, as many as fit in what is still
      missing, keeps the progress facts. */
  lemma {:induction false} LoopStep(c: seq<Line>, i: int, count: int, shortfall: int)
    requires Progress(c, i, shortfall) && i < |Bundles|
    requires count >= 1 && 0 <= shortfall - VpOf(c) - count * Bundles[i].0 < Bundles[i].0
    ensures Progress(c + [Line(Bundles[i].0, count)], i + 1, shortfall)
    ensures CostOf(c + [Line(Bundles[i].0, count)]) == CostOf(c) + count * Bundles[i].1
    ensures VpOf(c + [Line(Bundles[i].0, count)]) == VpOf(c) + count * Bundles[i].0
  {
    var vp := Bundles[i].0;
    var x := Line(vp, count);
    var r := c + [x];
    assert forall a :: 0 <= a < |c| ==> c[a].vp > vp by {
      BundlesDescending();
    }
    assert WellFormed(r) by {
      assert IsBundle(vp) by { BundlesDescending(); }
      assert forall a :: 0 <= a < |r| ==> r[a] == if a < |c| then c[a] else x;
    }
    assert forall a :: 0 <= a < |r| ==> r[a].vp >= Bundles[i].0 by {
      assert forall a :: 0 <= a < |r| ==> r[a] == if a < |c| then c[a] else x;
    }
    forall j | 0 <= j < i + 1
      ensures 0 <= shortfall - VpAtLeast(r, Bundles[j].0) < Bundles[j].0
    {
      SnocAtLeast(c, x, Bundles[j].0);
      if j == i {
        VpAtLeastAll(c, vp);
      } else {
        BundlesDescending();
        assert Bundles[j].0 > vp;
      }
    }
    forall j | i + 1 <= j < |Bundles|
      ensures CountOf(r, Bundles[j].0) == 0
    {
      SnocCount(c, x, Bundles[j].0);
      BundlesDescending();
    }
    if i + 1 == |Bundles| {
      SnocCount(c, x, Smallest);
      SnocAtLeast(c, x, Smallest + 1);
      VpAtLeastAll(c, Smallest + 1);
    }
    assert CostOf(r) == CostOf(c) + count * Bundles[i].1 && VpOf(r) == VpOf(c) + count * vp by {
      PriceOfTable(i);
      Snoc(c, x);
    }
  }

  /** A size too large for what is missing is skipped without breaking progress. */
  lemma {:induction false} LoopSkip(c: seq<Line>, i: int, shortfall: int)
    requires Progress(c, i, shortfall) && i < |Bundles|
    requires shortfall - VpOf(c) < Bundles[i].0
    ensures Progress(c, i + 1, shortfall)
  {
    BundlesDescending();
    assert forall a :: 0 <= a < |c| ==> c[a].vp > Bundles[i].0;
    VpAtLeastAll(c, Bundles[i].0);
    if i + 1 == |Bundles| {
      VpAtLeastAll(c, Smallest + 1);
    }
  }

  /** When the loop covered the shortfall exactly, the cart already has the greedy shape. */
  lemma {:induction false} Settled(c: seq<Line>, i: int, shortfall: int)
    requires Progress(c, i, shortfall) && VpOf(c) == shortfall && shortfall > 0
    ensures Greedy(c, shortfall)
  {
    BundlesDescending();
    assert |c| > 0;
    assert i > 0 && c[0].vp >= Bundles[i - 1].0;
    forall j | i <= j < |Bundles|
      ensures VpAtLeast(c, Bundles[j].0) == shortfall
    {
      assert forall a :: 0 <= a < |c| ==> c[a].vp >= Bundles[j].0;
      VpAtLeastAll(c, Bundles[j].0);
    }
    SplitSmallest(c);
    if i == |Bundles| {
      CeilDiv(shortfall - VpAtLeast(c, Smallest + 1), CountOf(c, Smallest), 0);
    } else {
      VpAtLeastAll(c, Smallest + 1);
    }
  }

  /** When the loop left a positive rest, one more smallest bundle gives the greedy
      shape, covers the shortfall by less than one smallest bundle and adds its price. */
  lemma {:induction false} TopUp(c: seq<Line>, shortfall: int)
    requires Progress(c, |Bundles|, shortfall) && VpOf(c) < shortfall
    ensures WellFormed(Bump(c, Smallest))
    ensures shortfall <= VpOf(Bump(c, Smallest)) < shortfall + Smallest
    ensures CostOf(Bump(c, Smallest)) == CostOf(c) + Bundles[5].1
    ensures Greedy(Bump(c, Smallest), shortfall)
  {
    BundlesDescending();
    PriceOfTable(5);
    BumpSmallest(c);
    VpAtLeastAll(c, Smallest);
    var r := Bump(c, Smallest);
    assert forall j :: 0 <= j < |Bundles| - 1 ==>
             0 <= shortfall - VpAtLeast(r, Bundles[j].0) < Bundles[j].0 by {
      forall j | 0 <= j < |Bundles| - 1
        ensures VpAtLeast(r, Bundles[j].0) == VpAtLeast(c, Bundles[j].0)
      {
      }
    }
    TopUpCount(c, shortfall);
  }

  /** The top-up bundle makes the smallest size's count the ceiling of what the
      larger sizes left over. */
  lemma {:induction false} TopUpCount(c: seq<Line>, shortfall: int)
    requires Progress(c, |Bundles|, shortfall) && VpOf(c) < shortfall
    ensures CountOf(Bump(c, Smallest), Smallest)
            == (shortfall - VpAtLeast(Bump(c, Smallest), Smallest + 1) + Smallest - 1) / Smallest
  {
    var rest := shortfall - VpAtLeast(c, Smallest + 1);
    var q := CountOf(c, Smallest);
    var left := shortfall - VpOf(c);
    assert 0 < left < Smallest by {
      BundlesDescending();
      VpAtLeastAll(c, Smallest);
    }
    assert rest == Smallest * q + left by {
      BundlesDescending();
      SplitSmallest(c);
    }
    assert (rest + Smallest - 1) / Smallest == q + 1 by {
      CeilDiv(rest, q, left);
    }
    var r := Bump(c, Smallest);
    assert CountOf(r, Smallest) == q + 1 && VpAtLeast(r, Smallest + 1) == VpAtLeast(c, Smallest + 1) by {
      BumpSmallest(c);
    }
  }

  /** The loop of `calculate_vp`: tries the sizes largest first, buying as many of
      each as fit in what is still missing, until nothing is missing or every size
      was tried. */
  method TakeLargestFirst(shortfall: int) returns (cart: seq<Line>, total: int, remaining: int, i: int)
    requires shortfall > 0
    ensures Progress(cart, i, shortfall)
    ensures remaining == shortfall - VpOf(cart) && total == CostOf(cart)
    ensures remaining == 0 || i == |Bundles|
  {
    remaining := shortfall;
    total := 0;
    cart := [];
    i := 0;
    while i < |Bundles| && remaining > 0
      invariant Progress(cart, i, shortfall)
      invariant remaining == shortfall - VpOf(cart)
      invariant total == CostOf(cart)
    {
      cart, total, remaining := TakeSize(cart, total, remaining, i, shortfall);
      i := i + 1;
    }
  }

  /** One pass of the loop: buys `remaining // vp` bundles of the `i`-th size when
      that is at least one. */
  method TakeSize(cart: seq<Line>, total: int, remaining: int, i: int, shortfall: int)
      returns (cart': seq<Line>, total': int, remaining': int)
    requires Progress(cart, i, shortfall) && i < |Bundles| && remaining > 0
    requires remaining == shortfall - VpOf(cart) && total == CostOf(cart)
    ensures Progress(cart', i + 1, shortfall)
    ensures remaining' == shortfall - VpOf(cart') && total' == CostOf(cart')
  {
    var vp := Bundles[i].0;
    var count := remaining / vp;
    if count > 0 {
      var line := Line(vp, count);
      assert Progress(cart + [line], i + 1, shortfall)
        && CostOf(cart + [line]) == total + count * Bundles[i].1
        && VpOf(cart + [line]) == VpOf(cart) + count * vp by {
        DivRest(remaining, vp);
        LoopStep(cart, i, count, shortfall);
      }
      cart' := cart + [line];
      total' := total + count * Bundles[i].1;
      remaining' := remaining - count * vp;
    } else {
      LoopSkip(cart, i, shortfall);
      cart', total', remaining' := cart, total, remaining;
    }
  }

  /** Covers a positive shortfall: the loop, then the top-up when something is
      still missing. The cart is well formed, covers the shortfall with less than
      one smallest bundle to spare, costs `total`, and has the greedy shape. */
  method Cover(shortfall: int) returns (cart: seq<Line>, total: int)
    requires shortfall > 0
    ensures WellFormed(cart)
    ensures shortfall <= VpOf(cart) < shortfall + Smallest
    ensures total == CostOf(cart)
    ensures Greedy(cart, shortfall)
  {
    var remaining, i;
    cart, total, remaining, i := TakeLargestFirst(shortfall);
    if remaining == 0 {
      Settled(cart, i, shortfall);
    } else {
      TopUp(cart, shortfall);
      cart := Bump(cart, Smallest);
      total := total + Bundles[5].1;
    }
  }

  /** `calculate_vp`. Besides the details text and the euro total it hands back the
      cart it priced. With nothing missing the answer is empty and free. Otherwise
      the cart covers the shortfall and overshoots it by less than one smallest
      bundle; the total is exactly the cart's price; each larger bundle size leaves
      less than its own size uncovered (greedy, largest first); the smallest size is
      bought just often enough to cover what the larger ones left; and the details
      list every entry, one per line, empty exactly for an empty cart. */
  method CalculateVp(itemprice: int, current: int) returns (details: string, total: int, cart: seq<Line>)
    ensures itemprice <= current ==> details == "" && total == 0 && cart == []
    ensures WellFormed(cart) && details == Details(cart)
    ensures var shortfall := itemprice - current;
            shortfall > 0 ==>
              && shortfall <= VpOf(cart) < shortfall + Smallest
              && total == CostOf(cart)
              && Greedy(cart, shortfall)
  {
    var shortfall := itemprice - current;
    if shortfall <= 0 {
      return "", 0, [];
    }
    cart, total := Cover(shortfall);
    details := Details(cart);
  }

  /** `"\n".join(f"{count}x {vp} VP" ...)`: empty exactly for the empty cart. */
  function Details(c: seq<Line>): (r: string)
    requires WellFormed(c)
    ensures r == "" <==> c == []
    ensures |c| == 1 ==> r == Render(c[0])
  {
    NonNegativeLines(c);
    JoinEmptyIff(RenderAll(c), "\n");
    Join(RenderAll(c), "\n")
  }

  lemma {:induction false} NonNegativeLines(c: seq<Line>)
    requires WellFormed(c)
    ensures forall a :: 0 <= a < |c| ==> c[a].vp >= 0 && c[a].count >= 0
  {
    forall a | 0 <= a < |c| ensures c[a].vp >= 0 {
      BundleSize(c[a].vp);
    }
  }

}
