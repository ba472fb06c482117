/** The search for the largest amount of FUEL a fixed stock of ORE can buy
    (part two of the reaction puzzle). The ore calculation is a parameter:
    `ore(f)` is the minimum ORE for f FUEL. `SearchFuel` is the search as the
    code performs it; `SearchFuelFixed` is the corrected search the rest of
    the model relies on. */
module FuelSearch {
  import opened Wrappers
  import Reactions

  /** The ORE stock of the puzzle. */
  const TrillionOre: nat := 1_000_000_000_000

  /** The three panics of the search: division by a zero ore cost, and the
      two bracket guards. */
  datatype SearchError = ZeroOreForOne | LowGuessTooLarge | HighGuessTooSmall

  ghost predicate Monotone(ore: nat -> nat) {
    forall a: nat, b: nat :: a <= b ==> ore(a) <= ore(b)
  }

  /** The bisection loop as written: it stops when the bracket is one wide
      or on an exact hit. */
  function Bisect(ore: nat -> nat, maxOre: nat, low: nat, high: nat): (r: nat)
    requires low <= high
    requires ore(low) <= maxOre <= ore(high)
    ensures low <= r <= high
    ensures ore(r) <= maxOre
    ensures ore(r) == maxOre || maxOre <= ore(r + 1)
    decreases high - low
  {
    if high == low || high == low + 1 then low
    else
      var guess := (high + low) / 2;
      assert low < guess < high;
      var o := ore(guess);
      if o < maxOre then Bisect(ore, maxOre, guess, high)
      else if o > maxOre then Bisect(ore, maxOre, low, guess)
      else guess
  }

  /** The search as written: bracket [M / ore(1), 2 * (M / ore(1))], check
      the bracket, bisect. */
  function SearchFuel(ore: nat -> nat, maxOre: nat): (r: Result<nat, SearchError>)
    ensures ore(1) == 0 ==> r == Failure(ZeroOreForOne)
    ensures ore(1) > 0 ==>
      var low := maxOre / ore(1);
      && (r.Success? <==> ore(low) <= maxOre && maxOre <= ore(low * 2))
      && (r.Success? ==> low <= r.value <= low * 2)
    ensures r.Success? ==> ore(r.value) <= maxOre
    ensures r.Success? ==> ore(r.value) == maxOre || maxOre <= ore(r.value + 1)
  {
    if ore(1) == 0 then Failure(ZeroOreForOne)
    else
      var low := maxOre / ore(1);
      var high := low * 2;
      if ore(low) > maxOre then Failure(LowGuessTooLarge)
      else if ore(high) < maxOre then Failure(HighGuessTooSmall)
      else Success(Bisect(ore, maxOre, low, high))
  }

  /** The corrected loop: keeps ore(low) <= M < ore(high) and treats an exact
      hit as feasible. */
  function BisectFixed(ore: nat -> nat, maxOre: nat, low: nat, high: nat): (r: nat)
    requires low < high
    requires ore(low) <= maxOre < ore(high)
    ensures low <= r < high
    ensures ore(r) <= maxOre < ore(r + 1)
    decreases high - low
  {
    if high == low + 1 then low
    else
      var guess := (high + low) / 2;
      if ore(guess) <= maxOre then BisectFixed(ore, maxOre, guess, high)
      else BisectFixed(ore, maxOre, low, guess)
  }

  /** The corrected search: the upper guess must be strictly unaffordable. */
  function SearchFuelFixed(ore: nat -> nat, maxOre: nat): (r: Result<nat, SearchError>)
    ensures ore(1) == 0 ==> r == Failure(ZeroOreForOne)
    ensures ore(1) > 0 ==>
      var low := maxOre / ore(1);
      && (r.Success? <==> ore(low) <= maxOre < ore(low * 2))
      && (r.Success? ==> low <= r.value < low * 2)
    ensures r.Success? ==> ore(r.value) <= maxOre < ore(r.value + 1)
  {
    if ore(1) == 0 then Failure(ZeroOreForOne)
    else
      var low := maxOre / ore(1);
      var high := low * 2;
      if ore(low) > maxOre then Failure(LowGuessTooLarge)
      else if ore(high) <= maxOre then Failure(HighGuessTooSmall)
      else
        assert low != high;
        Success(BisectFixed(ore, maxOre, low, high))
  }

  /** For a monotone ore cost, the corrected answer is the largest affordable amount. */
  lemma SearchFuelFixedIsLargest(ore: nat -> nat, maxOre: nat, f: nat)
    requires Monotone(ore)
    requires SearchFuelFixed(ore, maxOre).Success?
    ensures f <= SearchFuelFixed(ore, maxOre).value <==> ore(f) <= maxOre
  {
    var r := SearchFuelFixed(ore, maxOre).value;
    if f > r {
      assert ore(r + 1) <= ore(f);
    } else {
      assert ore(f) <= ore(r);
    }
  }

  /** The ore cost of the one-line recipe "1000000000000 ORE => 2 FUEL":
      FUEL is made two at a time. */
  function HalfBatchOre(f: nat): nat {
    TrillionOre * ((f + 1) / 2)
  }

  /** HalfBatchOre is what the ore calculation computes for that recipe:
      expanding a need of f FUEL makes ceil(f / 2) batches and leaves a need
      of a trillion ORE per batch and nothing else, so getNonOre then finds
      no candidate under any order and the loop stops with that ORE need as
      its answer. */
  lemma HalfBatchOreIsExpansion(f: nat, order: map<string, int>)
    ensures var recipes := map["FUEL" := Reactions.Recipe(2, [Reactions.Reagent("ORE", TrillionOre)])];
      var r := Reactions.ExpandStep(Reactions.Inventory(map["FUEL" := f], map[]), "FUEL", recipes);
      && r.Success?
      && Reactions.Get(r.value.0.needed, "ORE") == HalfBatchOre(f)
      && forall c :: !Reactions.Candidate(r.value.0.needed, order, c)
  {
    var ingredients := [Reactions.Reagent("ORE", TrillionOre)];
    var recipes := map["FUEL" := Reactions.Recipe(2, ingredients)];
    var inv := Reactions.Inventory(map["FUEL" := f], map[]);
    var r := Reactions.ExpandStep(inv, "FUEL", recipes);
    assert Reactions.Get(inv.needed, "FUEL") == f && Reactions.Get(inv.surplus, "FUEL") == 0;
    if f > 0 {
      var t := r.value.1;
      assert 2 * t >= f && 2 * t - f < 2;
      assert t == (f + 1) / 2;
      assert Reactions.QtyOf(ingredients, "ORE") == TrillionOre by {
        assert ingredients[1..] == [];
      }
      assert Reactions.Names(ingredients) == {"ORE"};
      assert r.value.0.needed.Keys == {"ORE"};
    } else {
      assert r.value.0.needed == map[];
    }
  }

  /** With that recipe a trillion ORE buys two FUEL, but the search as
      written answers one: the bracket [1, 2] is one wide and the loop
      reports its lower end without asking whether the upper end fits. The
      corrected search refuses the bracket instead of answering wrongly. */
  lemma SearchFuelMissesLargest()
    ensures Monotone(HalfBatchOre)
    ensures HalfBatchOre(2) <= TrillionOre
    ensures SearchFuel(HalfBatchOre, TrillionOre) == Success(1)
    ensures SearchFuelFixed(HalfBatchOre, TrillionOre) == Failure(HighGuessTooSmall)
  {
    forall a: nat, b: nat | a <= b
      ensures HalfBatchOre(a) <= HalfBatchOre(b)
    {
      assert (a + 1) / 2 <= (b + 1) / 2;
      MulMonotone(TrillionOre, (a + 1) / 2, (b + 1) / 2);
    }
    assert HalfBatchOre(1) == TrillionOre;
    assert HalfBatchOre(2) == TrillionOre;
  }

  lemma MulMonotone(k: nat, x: nat, y: nat)
    requires x <= y
    ensures k * x <= k * y
  {
  }
}
