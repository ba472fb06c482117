/** The nanofactory of the reaction puzzle: parsing reaction lines such as
    "7 A, 1 B => 1 C", and the greedy ore calculation that expands needed
    chemicals in topological order, producing each in whole batches and
    keeping the leftovers as surplus. */
module Reactions {
  import opened Wrappers
  import opened Decimal
  import opened Text
  import Arith

  // ----- Parsing -----

  /** One "quantity chemical" term of a reaction line. */
  datatype Reagent = Reagent(chemical: string, quantity: nat)

  /** The ways a reaction line is rejected: log.Fatal on a term without
      exactly two fields or with a bad quantity, and the index-out-of-range
      panic of a line without "=>". */
  datatype ParseError =
    | WrongFieldCount(term: string)
    | BadQuantity(field: string)
    | MissingArrow(line: string)

  /** A term is exactly two blank-separated fields: a decimal quantity and a name. */
  function ParseReagent(s: string): (r: Result<Reagent, ParseError>)
    ensures r.Success? <==> |Fields(s)| == 2 && ParseUint(Fields(s)[0]).Some?
    ensures r.Success? ==> r.value.chemical == Fields(s)[1]
    ensures r.Success? ==> ParseUint(Fields(s)[0]) == Some(r.value.quantity)
    ensures r.Success? ==> r.value.chemical != [] && NoSpace(r.value.chemical)
    ensures |Fields(s)| != 2 ==> r == Failure(WrongFieldCount(s))
  {
    var fields := Fields(s);
    if |fields| != 2 then Failure(WrongFieldCount(s))
    else
      match ParseUint(fields[0])
      case None => Failure(BadQuantity(fields[0]))
      case Some(q) => Success(Reagent(fields[1], q))
  }

  /** Parses every term in order; the first term that fails decides the error. */
  function ParseAll(terms: seq<string>): (r: Result<seq<Reagent>, ParseError>)
    ensures r.Success? ==> |r.value| == |terms|
    ensures r.Success? ==> forall i :: 0 <= i < |terms| ==> ParseReagent(terms[i]) == Success(r.value[i])
    ensures r.Success? <==> forall i :: 0 <= i < |terms| ==> ParseReagent(terms[i]).Success?
    ensures r.Failure? ==> exists i :: 0 <= i < |terms| && ParseReagent(terms[i]) == Failure(r.error)
                                       && forall j :: 0 <= j < i ==> ParseReagent(terms[j]).Success?
    decreases |terms|
  {
    if terms == [] then Success([])
    else
      var first :- ParseReagent(terms[0]);
      var rest :- ParseAll(terms[1..]);
      assert forall i :: 1 <= i < |terms| ==> terms[i] == terms[1..][i - 1];
      Success([first] + rest)
  }

  /** A reaction line: the ingredient terms before "=>" separated by commas,
      the single product term after it. The ingredients are parsed before
      the product is looked for, and text after a second "=>" is ignored. */
  function ParseLine(s: string): (r: Result<(seq<Reagent>, Reagent), ParseError>)
    ensures var res := Split(s, "=>");
      && (r.Success? <==> ParseAll(Split(res[0], ",")).Success? && |res| >= 2 && ParseReagent(res[1]).Success?)
      && (r.Success? ==> ParseAll(Split(res[0], ",")) == Success(r.value.0) && ParseReagent(res[1]) == Success(r.value.1))
      && (ParseAll(Split(res[0], ",")).Success? && |res| < 2 ==> r == Failure(MissingArrow(s)))
    ensures r.Success? ==> |r.value.0| >= 1 && WellNamedLine(r.value)
  {
    var res := Split(s, "=>");
    var lhs :- ParseAll(Split(res[0], ","));
    if |res| < 2 then Failure(MissingArrow(s))
    else
      var rhs :- ParseReagent(res[1]);
      Success((lhs, rhs))
  }

  /** Every chemical named on a parsed line is a non-empty word. */
  predicate WellNamedLine(line: (seq<Reagent>, Reagent)) {
    && line.1.chemical != []
    && forall i :: 0 <= i < |line.0| ==> line.0[i].chemical != []
  }

  // ----- Rendering, for the round trip -----

  /** Names the puzzle uses: non-empty, with no blank and none of the
      punctuation of the line format. */
  predicate ValidName(c: string) {
    && c != []
    && forall i :: 0 <= i < |c| ==> !IsSpace(c[i]) && c[i] != ',' && c[i] != '='
  }

  predicate Renderable(r: Reagent) {
    ValidName(r.chemical) && r.quantity < Uint64Limit
  }

  function ShowReagent(r: Reagent): string {
    ShowNat(r.quantity) + " " + r.chemical
  }

  function ShowTerms(rs: seq<Reagent>): (ts: seq<string>)
    ensures |ts| == |rs|
    ensures forall i :: 0 <= i < |rs| ==> ts[i] == ShowReagent(rs[i])
  {
    seq(|rs|, i requires 0 <= i < |rs| => ShowReagent(rs[i]))
  }

  /** The puzzle's line format: "7 A, 1 B => 1 C". */
  function ShowLine(lhs: seq<Reagent>, rhs: Reagent): string {
    Join(ShowTerms(lhs), ", ") + " => " + ShowReagent(rhs)
  }

  predicate Avoids(s: string, c: char) {
    forall i :: 0 <= i < |s| ==> s[i] != c
  }

  lemma ShowNatIsPlain(n: nat)
    ensures NoSpace(ShowNat(n)) && Avoids(ShowNat(n), ',') && Avoids(ShowNat(n), '=')
  {
    var s := ShowNat(n);
    assert AllDigits(s);
  }

  lemma ShowReagentAvoids(r: Reagent)
    requires Renderable(r)
    ensures Avoids(ShowReagent(r), ',') && Avoids(ShowReagent(r), '=')
  {
    ShowNatIsPlain(r.quantity);
    var s := ShowReagent(r);
    var q := ShowNat(r.quantity);
    forall i | 0 <= i < |s|
      ensures s[i] != ',' && s[i] != '='
    {
      if i < |q| {
        assert s[i] == q[i];
      } else if i > |q| {
        assert s[i] == r.chemical[i - |q| - 1];
      }
    }
  }

  /** A rendered term reads back as the reagent it came from. */
  lemma ParseReagentShow(r: Reagent)
    requires Renderable(r)
    ensures ParseReagent(ShowReagent(r)) == Success(r)
  {
    var q := ShowNat(r.quantity);
    ShowNatIsPlain(r.quantity);
    assert NoSpace(r.chemical);
    assert Join([q, r.chemical], " ") == q + " " + r.chemical by {
      assert [q, r.chemical][1..] == [r.chemical];
    }
    FieldsJoin([q, r.chemical]);
    ParseUintShowNat(r.quantity);
  }

  /** Blanks around a term do not change what it parses to. */
  lemma ParseReagentPadded(s: string, lead: bool, trail: bool)
    requires ParseReagent(s).Success?
    ensures ParseReagent((if lead then " " else "") + s + (if trail then " " else "")) == ParseReagent(s)
  {
    var t := (if lead then " " else "") + s + (if trail then " " else "");
    var u := (if lead then " " else "") + s;
    if trail {
      FieldsTrailingBlank(u);
    } else {
      assert t == u;
    }
    if lead {
      FieldsLeadingBlank(s);
    } else {
      assert u == s;
    }
    assert Fields(t) == Fields(s);
  }

  /** The comma-separated pieces of "t0, t1, ..., tn " as Split sees them:
      every piece but the first starts with the blank after its comma, and
      the last ends with the blank before "=>". */
  function Pieces(ts: seq<string>, first: bool): (ps: seq<string>)
    requires |ts| > 0
    ensures |ps| == |ts|
    decreases |ts|
  {
    var head := (if first then "" else " ") + ts[0];
    if |ts| == 1 then [head + " "] else [head] + Pieces(ts[1..], false)
  }

  lemma {:induction false} JoinPieces(ts: seq<string>, first: bool)
    requires |ts| > 0
    ensures (if first then "" else " ") + Join(ts, ", ") + " " == Join(Pieces(ts, first), ",")
    decreases |ts|
  {
    var pre := if first then "" else " ";
    if |ts| > 1 {
      JoinPieces(ts[1..], false);
      var ps := Pieces(ts, first);
      assert ps[0] == pre + ts[0] && ps[1..] == Pieces(ts[1..], false);
      assert pre + (ts[0] + ", " + Join(ts[1..], ", ")) + " "
          == (pre + ts[0]) + "," + (" " + Join(ts[1..], ", ") + " ");
    }
  }

  lemma {:induction false} PiecesParse(rs: seq<Reagent>, first: bool)
    requires |rs| > 0 && forall i :: 0 <= i < |rs| ==> Renderable(rs[i])
    ensures ParseAll(Pieces(ShowTerms(rs), first)) == Success(rs)
    ensures forall i, j :: 0 <= i < |rs| && 0 <= j < |Pieces(ShowTerms(rs), first)[i]| ==>
      Pieces(ShowTerms(rs), first)[i][j] != ',' && Pieces(ShowTerms(rs), first)[i][j] != '='
    decreases |rs|
  {
    var ts := ShowTerms(rs);
    var ps := Pieces(ts, first);
    ParseReagentShow(rs[0]);
    ShowReagentAvoids(rs[0]);
    ParseReagentPadded(ts[0], !first, |rs| == 1);
    assert ps[0] == (if !first then " " else "") + ts[0] + (if |rs| == 1 then " " else "");
    assert Avoids(ps[0], ',') && Avoids(ps[0], '=');
    if |rs| > 1 {
      assert ShowTerms(rs[1..]) == ts[1..];
      PiecesParse(rs[1..], false);
      assert ps[1..] == Pieces(ts[1..], false);
      assert ParseAll(ps) == Success([rs[0]] + rs[1..]);
      forall i, j | 1 <= i < |rs| && 0 <= j < |ps[i]|
        ensures ps[i][j] != ',' && ps[i][j] != '='
      {
        assert ps[i] == Pieces(ts[1..], false)[i - 1];
      }
    } else {
      assert ps == [ps[0]];
    }
    assert rs == [rs[0]] + rs[1..];
  }

  lemma JoinAvoids(parts: seq<string>, sep: string, c: char)
    requires forall i :: 0 <= i < |parts| ==> Avoids(parts[i], c)
    requires Avoids(sep, c)
    ensures Avoids(Join(parts, sep), c)
    decreases |parts|
  {
    if |parts| > 1 {
      JoinAvoids(parts[1..], sep, c);
    }
  }

  predicate AllRenderable(rs: seq<Reagent>) {
    forall i :: 0 <= i < |rs| ==> Renderable(rs[i])
  }

  /** The arrow splits a rendered line into the ingredient list (with the
      blank before the arrow) and the product (with the blank after it). */
  lemma ArrowSplitsShowLine(lhs: seq<Reagent>, rhs: Reagent)
    requires AllRenderable(lhs) && Renderable(rhs)
    ensures Split(ShowLine(lhs, rhs), "=>") == [Join(ShowTerms(lhs), ", ") + " ", " " + ShowReagent(rhs)]
  {
    var ts := ShowTerms(lhs);
    var left := Join(ts, ", ") + " ";
    var right := " " + ShowReagent(rhs);
    assert ShowLine(lhs, rhs) == left + "=>" + right;
    assert Join([left, right], "=>") == left + "=>" + right by {
      assert [left, right][1..] == [right];
    }
    forall i | 0 <= i < |ts|
      ensures Avoids(ts[i], '=')
    {
      ShowReagentAvoids(lhs[i]);
    }
    JoinAvoids(ts, ", ", '=');
    ShowReagentAvoids(rhs);
    assert Avoids(left, '=') && Avoids(right, '=');
    forall i, j | 0 <= i < 2 && 0 <= j < |[left, right][i]|
      ensures [left, right][i][j] != "=>"[0]
    {
    }
    SplitJoin([left, right], "=>");
  }

  /** The commas split the ingredient list into the padded terms, which parse
      back to the ingredients. */
  lemma CommasSplitIngredients(lhs: seq<Reagent>)
    requires |lhs| > 0 && AllRenderable(lhs)
    ensures ParseAll(Split(Join(ShowTerms(lhs), ", ") + " ", ",")) == Success(lhs)
  {
    var ts := ShowTerms(lhs);
    JoinPieces(ts, true);
    assert "" + Join(ts, ", ") + " " == Join(ts, ", ") + " ";
    PiecesParse(lhs, true);
    SplitJoin(Pieces(ts, true), ",");
  }

  /** A rendered line reads back as the reaction it came from. */
  lemma ParseLineShow(lhs: seq<Reagent>, rhs: Reagent)
    requires |lhs| > 0 && AllRenderable(lhs) && Renderable(rhs)
    ensures ParseLine(ShowLine(lhs, rhs)) == Success((lhs, rhs))
  {
    ArrowSplitsShowLine(lhs, rhs);
    CommasSplitIngredients(lhs);
    ParseReagentShow(rhs);
    ParseReagentPadded(ShowReagent(rhs), true, false);
    assert " " + ShowReagent(rhs) == " " + ShowReagent(rhs) + "";
  }

  // ----- The recipe book -----

  /** How a chemical is made: `amount` units per batch from the ingredients.
      The code keeps the product term and the ingredient list in two maps
      with the same keys; one map of recipes stands for both. */
  datatype Recipe = Recipe(amount: nat, ingredients: seq<Reagent>)

  /** The recipe book built from parsed lines: one recipe per product. */
  function RecipeBook(lines: seq<(seq<Reagent>, Reagent)>): (book: map<string, Recipe>)
    ensures forall c :: c in book <==> exists i :: 0 <= i < |lines| && lines[i].1.chemical == c
    decreases |lines|
  {
    if lines == [] then map[]
    else
      var k := |lines| - 1;
      var earlier := lines[..k];
      assert forall i :: 0 <= i < k ==> earlier[i] == lines[i];
      RecipeBook(earlier)[lines[k].1.chemical := Recipe(lines[k].1.quantity, lines[k].0)]
  }

  /** A later line for the same product replaces an earlier one: the book
      holds the recipe of the last line for each product. */
  lemma {:induction false} RecipeBookLastLineWins(lines: seq<(seq<Reagent>, Reagent)>, i: nat)
    requires i < |lines|
    requires forall j :: i < j < |lines| ==> lines[j].1.chemical != lines[i].1.chemical
    ensures RecipeBook(lines)[lines[i].1.chemical] == Recipe(lines[i].1.quantity, lines[i].0)
    decreases |lines|
  {
    var k := |lines| - 1;
    if i < k {
      var earlier := lines[..k];
      assert forall j :: i < j < k ==> earlier[j] == lines[j];
      RecipeBookLastLineWins(earlier, i);
    }
  }

  /** No chemical of the book, product or ingredient, is named "". */
  predicate WellNamed(book: map<string, Recipe>) {
    forall c :: c in book ==> c != [] && forall i :: 0 <= i < |book[c].ingredients| ==> book[c].ingredients[i].chemical != []
  }

  /** Parsed lines never name the empty chemical, so neither does their book. */
  lemma {:induction false} RecipeBookWellNamed(lines: seq<(seq<Reagent>, Reagent)>)
    requires forall i :: 0 <= i < |lines| ==> WellNamedLine(lines[i])
    ensures WellNamed(RecipeBook(lines))
    decreases |lines|
  {
    if lines != [] {
      var k := |lines| - 1;
      var earlier := lines[..k];
      assert forall i :: 0 <= i < k ==> earlier[i] == lines[i];
      RecipeBookWellNamed(earlier);
      assert WellNamedLine(lines[k]);
    }
  }

  // ----- Choosing the next chemical -----

  /** math.MaxInt on a 64-bit platform, the starting "best order so far". */
  const MaxInt: int := 0x7FFF_FFFF_FFFF_FFFF

  /** Go's read of an int-valued map: an absent chemical reads as 0 (the
      order of a chemical, and in the topological sort its in-degree). */
  function GetInt(m: map<string, int>, c: string): int {
    if c in m then m[c] else 0
  }

  /** A needed chemical getNonOre may pick: not ORE, and ordered below MaxInt. */
  predicate Candidate(needed: map<string, nat>, order: map<string, int>, c: string) {
    c in needed && c != "ORE" && GetInt(order, c) < MaxInt
  }

  /** The needed chemical to expand next: one of least order (which one among
      equals is up to map iteration order), or "" when only ORE or nothing is
      left. */
  method GetNonOre(needed: map<string, nat>, order: map<string, int>) returns (choice: string)
    ensures (exists c :: Candidate(needed, order, c)) ==> Candidate(needed, order, choice)
    ensures forall c :: Candidate(needed, order, c) ==> GetInt(order, choice) <= GetInt(order, c)
    ensures (forall c :: !Candidate(needed, order, c)) ==> choice == ""
  {
    if |needed| == 0 {
      return "";
    }
    var best := MaxInt;
    choice := "";
    var rest := needed.Keys;
    while rest != {}
      invariant rest <= needed.Keys
      invariant forall c :: c in needed && c !in rest && Candidate(needed, order, c) ==> best <= GetInt(order, c)
      invariant (choice == "" && best == MaxInt) || (Candidate(needed, order, choice) && best == GetInt(order, choice))
      decreases |rest|
    {
      var r :| r in rest;
      if r != "ORE" && GetInt(order, r) < best {
        best := GetInt(order, r);
        choice := r;
      }
      rest := rest - {r};
    }
  }

  // ----- One expansion -----

  /** The needed and surplus tables of the calculation. */
  datatype Inventory = Inventory(needed: map<string, nat>, surplus: map<string, nat>)

  /** Go's map read: an absent chemical reads as 0. */
  function Get(m: map<string, nat>, c: string): nat {
    if c in m then m[c] else 0
  }

  /** Total quantity of chemical c among the ingredients. */
  function QtyOf(ingredients: seq<Reagent>, c: string): nat
    decreases |ingredients|
  {
    if ingredients == [] then 0
    else (if ingredients[0].chemical == c then ingredients[0].quantity else 0) + QtyOf(ingredients[1..], c)
  }

  function Names(ingredients: seq<Reagent>): set<string> {
    set i | 0 <= i < |ingredients| :: ingredients[i].chemical
  }

  /** Number of whole batches of size amount that cover need: the ceiling of need / amount. */
  function BatchCount(need: nat, amount: nat): (times: nat)
    requires amount > 0
    ensures amount * times >= need
    ensures amount * times - need < amount
  {
    var times := need / amount;
    if need % amount != 0 then times + 1 else times
  }

  /** The first term's share of the names and of every quantity. */
  lemma AddNeedsHead(ingredients: seq<Reagent>, times: nat)
    requires ingredients != []
    ensures Names(ingredients) == {ingredients[0].chemical} + Names(ingredients[1..])
    ensures forall c :: (QtyOf(ingredients, c) * times ==
      (if ingredients[0].chemical == c then ingredients[0].quantity * times else 0) + QtyOf(ingredients[1..], c) * times)
  {
    var e := ingredients[0];
    assert Names(ingredients) == {ingredients[0].chemical} + Names(ingredients[1..]) by {
      assert forall i :: 1 <= i < |ingredients| ==> ingredients[i] == ingredients[1..][i - 1];
    }
    forall c ensures QtyOf(ingredients, c) * times ==
      (if e.chemical == c then e.quantity * times else 0) + QtyOf(ingredients[1..], c) * times
    {
      QtyOfHeadScaled(ingredients, times, c);
    }
  }

  /** The first term's share of one chemical's quantity, scaled by the batch count. */
  lemma QtyOfHeadScaled(ingredients: seq<Reagent>, times: nat, c: string)
    requires ingredients != []
    ensures QtyOf(ingredients, c) * times ==
      (if ingredients[0].chemical == c then ingredients[0].quantity * times else 0) + QtyOf(ingredients[1..], c) * times
  {
    var e := ingredients[0];
    var q := QtyOf(ingredients[1..], c);
    if e.chemical == c {
      Arith.MulAddRight(e.quantity, q, times);
    }
  }

  /** Adds quantity * times to the need of every ingredient, one after the other. */
  function AddNeeds(needed: map<string, nat>, ingredients: seq<Reagent>, times: nat): (r: map<string, nat>)
    ensures forall c :: Get(r, c) == Get(needed, c) + QtyOf(ingredients, c) * times
    ensures r.Keys == needed.Keys + Names(ingredients)
    decreases |ingredients|
  {
    if ingredients == [] then needed
    else
      var e := ingredients[0];
      var r := AddNeeds(needed[e.chemical := Get(needed, e.chemical) + e.quantity * times], ingredients[1..], times);
      AddNeedsHead(ingredients, times);
      r
  }

  /** Why an ore calculation stops without an answer: Go's division by a zero
      batch size (a chemical with no recipe, or one making 0 units), and the
      step budget of the model running out. */
  datatype OreError = ZeroBatch(chemical: string) | OutOfSteps

  /** One iteration of the calculation loop for chemical c, with the number of
      batches it made. When the surplus covers the need, the need is paid from
      the surplus; otherwise enough whole batches are made and their
      ingredients become new needs. */
  function ExpandStep(inv: Inventory, c: string, recipes: map<string, Recipe>): (r: Result<(Inventory, nat), OreError>)
    ensures var need, have := Get(inv.needed, c), Get(inv.surplus, c);
      have >= need ==>
        && r.Success? && r.value.1 == 0
        && r.value.0.needed == inv.needed - {c}
        && Get(r.value.0.surplus, c) == have - need
    ensures var need, have := Get(inv.needed, c), Get(inv.surplus, c);
      have < need && (c !in recipes || recipes[c].amount == 0) ==> r == Failure(ZeroBatch(c))
    ensures var need, have := Get(inv.needed, c), Get(inv.surplus, c);
      have < need && c in recipes && recipes[c].amount > 0 ==>
        r.Success? &&
        var rc, t := recipes[c], r.value.1;
        && t > 0
        && rc.amount * t >= need && rc.amount * t - need < rc.amount
        && Get(r.value.0.surplus, c) == have + (rc.amount * t - need)
        && r.value.0.needed.Keys == (inv.needed.Keys - {c}) + Names(rc.ingredients)
        && forall x :: Get(r.value.0.needed, x) == (if x == c then 0 else Get(inv.needed, x)) + QtyOf(rc.ingredients, x) * t
    ensures r.Success? ==> forall x :: x != c ==> Get(r.value.0.surplus, x) == Get(inv.surplus, x)
  {
    var need := Get(inv.needed, c);
    var have := Get(inv.surplus, c);
    if have >= need then
      Success((Inventory(inv.needed - {c}, inv.surplus[c := have - need]), 0))
    else if c !in recipes || recipes[c].amount == 0 then
      Failure(ZeroBatch(c))
    else
      var rc := recipes[c];
      var t := BatchCount(need, rc.amount);
      var remaining := inv.needed - {c};
      assert forall x :: Get(remaining, x) == if x == c then 0 else Get(inv.needed, x);
      Success((Inventory(AddNeeds(remaining, rc.ingredients, t), inv.surplus[c := have + (rc.amount * t - need)]), t))
  }

  // ----- The production ledger -----

  /** A record of `times` batches of chemical made by its recipe. */
  datatype Batch = Batch(chemical: string, times: nat)

  /** Units of x the batches of the plan made. */
  function Produced(plan: seq<Batch>, recipes: map<string, Recipe>, x: string): nat
    decreases |plan|
  {
    if plan == [] then 0
    else
      var b := plan[|plan| - 1];
      Produced(plan[..|plan| - 1], recipes, x) + (if b.chemical == x && x in recipes then recipes[x].amount * b.times else 0)
  }

  /** Units of x the batches of the plan used up as ingredient. */
  function Consumed(plan: seq<Batch>, recipes: map<string, Recipe>, x: string): nat
    decreases |plan|
  {
    if plan == [] then 0
    else
      var b := plan[|plan| - 1];
      Consumed(plan[..|plan| - 1], recipes, x) + (if b.chemical in recipes then QtyOf(recipes[b.chemical].ingredients, x) * b.times else 0)
  }

  /** Everything the order and the plan's batches ask for of x. */
  function Demand(fuelAmount: nat, plan: seq<Batch>, recipes: map<string, Recipe>, x: string): nat {
    (if x == "FUEL" then fuelAmount else 0) + Consumed(plan, recipes, x)
  }

  /** The conservation law of the calculation: for every chemical, what is
      still needed plus what was made equals what was asked for plus what is
      left over. */
  ghost predicate Balanced(inv: Inventory, fuelAmount: nat, plan: seq<Batch>, recipes: map<string, Recipe>) {
    forall x :: Get(inv.needed, x) + Produced(plan, recipes, x) == Demand(fuelAmount, plan, recipes, x) + Get(inv.surplus, x)
  }

  /** The plan after an expansion that made `times` batches of c. */
  function Record(plan: seq<Batch>, c: string, times: nat): seq<Batch> {
    if times == 0 then plan else plan + [Batch(c, times)]
  }

  /** Appending a batch adds its output to Produced and its inputs to Consumed. */
  lemma LedgerAppend(plan: seq<Batch>, b: Batch, recipes: map<string, Recipe>, x: string)
    ensures Produced(plan + [b], recipes, x) ==
      Produced(plan, recipes, x) + (if b.chemical == x && x in recipes then recipes[x].amount * b.times else 0)
    ensures Consumed(plan + [b], recipes, x) ==
      Consumed(plan, recipes, x) + (if b.chemical in recipes then QtyOf(recipes[b.chemical].ingredients, x) * b.times else 0)
  {
    assert (plan + [b])[..|plan|] == plan;
  }

  /** Making t batches of c: c's need turns into surplus, its ingredients'
      needs grow, and the ledger stays balanced. */
  lemma BatchesKeepBalance(inv: Inventory, inv': Inventory, c: string, t: nat, recipes: map<string, Recipe>,
                           fuelAmount: nat, plan: seq<Batch>)
    requires Balanced(inv, fuelAmount, plan, recipes)
    requires c in recipes && recipes[c].amount * t >= Get(inv.needed, c)
    requires forall x :: Get(inv'.needed, x) == (if x == c then 0 else Get(inv.needed, x)) + QtyOf(recipes[c].ingredients, x) * t
    requires Get(inv'.surplus, c) == Get(inv.surplus, c) + (recipes[c].amount * t - Get(inv.needed, c))
    requires forall x :: x != c ==> Get(inv'.surplus, x) == Get(inv.surplus, x)
    ensures Balanced(inv', fuelAmount, plan + [Batch(c, t)], recipes)
  {
    var plan' := plan + [Batch(c, t)];
    forall x
      ensures Get(inv'.needed, x) + Produced(plan', recipes, x) == Demand(fuelAmount, plan', recipes, x) + Get(inv'.surplus, x)
    {
      LedgerAppend(plan, Batch(c, t), recipes, x);
      assert Get(inv.needed, x) + Produced(plan, recipes, x) == Demand(fuelAmount, plan, recipes, x) + Get(inv.surplus, x);
    }
  }

  /** Covering c's need from surplus moves units from surplus to nothing
      needed, and the ledger stays balanced. */
  lemma CoverKeepsBalance(inv: Inventory, inv': Inventory, c: string, recipes: map<string, Recipe>,
                          fuelAmount: nat, plan: seq<Batch>)
    requires Balanced(inv, fuelAmount, plan, recipes)
    requires Get(inv.surplus, c) >= Get(inv.needed, c)
    requires inv'.needed == inv.needed - {c}
    requires Get(inv'.surplus, c) == Get(inv.surplus, c) - Get(inv.needed, c)
    requires forall x :: x != c ==> Get(inv'.surplus, x) == Get(inv.surplus, x)
    ensures Balanced(inv', fuelAmount, plan, recipes)
  {
    forall x
      ensures Get(inv'.needed, x) + Produced(plan, recipes, x) == Demand(fuelAmount, plan, recipes, x) + Get(inv'.surplus, x)
    {
      assert Get(inv.needed, x) + Produced(plan, recipes, x) == Demand(fuelAmount, plan, recipes, x) + Get(inv.surplus, x);
    }
  }

  /** Every expansion keeps the ledger balanced. */
  lemma ExpandKeepsBalance(inv: Inventory, c: string, recipes: map<string, Recipe>, fuelAmount: nat, plan: seq<Batch>)
    requires Balanced(inv, fuelAmount, plan, recipes)
    requires ExpandStep(inv, c, recipes).Success?
    ensures var (inv', t) := ExpandStep(inv, c, recipes).value;
      Balanced(inv', fuelAmount, Record(plan, c, t), recipes)
  {
    var (inv', t) := ExpandStep(inv, c, recipes).value;
    if t > 0 {
      BatchesKeepBalance(inv, inv', c, t, recipes, fuelAmount, plan);
    } else {
      CoverKeepsBalance(inv, inv', c, recipes, fuelAmount, plan);
    }
  }

  /** A plan in which every batch makes a non-ORE chemical that has a recipe. */
  predicate ValidPlan(plan: seq<Batch>, recipes: map<string, Recipe>) {
    forall i :: 0 <= i < |plan| ==> plan[i].chemical != "ORE" && plan[i].chemical in recipes && plan[i].times > 0
  }

  lemma {:induction false} NoOreProduced(plan: seq<Batch>, recipes: map<string, Recipe>)
    requires ValidPlan(plan, recipes)
    ensures Produced(plan, recipes, "ORE") == 0
    decreases |plan|
  {
    if plan != [] {
      var k := |plan| - 1;
      assert ValidPlan(plan[..k], recipes) by {
        assert forall i :: 0 <= i < k ==> plan[..k][i] == plan[i];
      }
      NoOreProduced(plan[..k], recipes);
    }
  }

  // ----- The calculation -----

  /** The minimum-ore calculation: starting from a need of fuelAmount FUEL,
      repeatedly expand the needed chemical getNonOre picks until only ORE
      is needed, and answer the ORE need. The plan is the batches it made.
      The answer is exactly the ORE that plan consumes, and once every
      chemical is ordered (as the topological order of the book makes it),
      the plan makes at least as much of every other chemical as is asked
      for. A ZeroBatch failure names a chemical other than ORE that is still
      short of its demand and has no usable recipe. Go's loop need not end on
      a cyclic book; maxSteps bounds it. */
  method GetMinimumOreForFuel(fuelAmount: nat, order: map<string, int>, recipes: map<string, Recipe>, maxSteps: nat)
    returns (r: Result<nat, OreError>, plan: seq<Batch>)
    ensures ValidPlan(plan, recipes)
    ensures r.Success? ==> r.value == Demand(fuelAmount, plan, recipes, "ORE")
    ensures r.Success? && WellNamed(recipes) ==>
      forall x :: x != "ORE" && GetInt(order, x) < MaxInt ==> Produced(plan, recipes, x) >= Demand(fuelAmount, plan, recipes, x)
    ensures r.Failure? && r.error.ZeroBatch? ==>
      var c := r.error.chemical;
      && c != "ORE" && c != ""
      && (c !in recipes || recipes[c].amount == 0)
      && Produced(plan, recipes, c) < Demand(fuelAmount, plan, recipes, c)
  {
    var inv := Inventory(map["FUEL" := fuelAmount], map[]);
    plan := [];
    var chemical := "FUEL";
    var steps := 0;
    while chemical != ""
      invariant Balanced(inv, fuelAmount, plan, recipes)
      invariant ValidPlan(plan, recipes)
      invariant chemical != "ORE"
      invariant Get(inv.surplus, "ORE") == 0
      invariant WellNamed(recipes) ==> "" !in inv.needed
      invariant chemical == "" ==> "" in inv.needed || forall x :: !Candidate(inv.needed, order, x)
      decreases maxSteps - steps
    {
      if steps >= maxSteps {
        return Failure(OutOfSteps), plan;
      }
      steps := steps + 1;
      var res := ExpandStep(inv, chemical, recipes);
      if res.Failure? {
        assert Get(inv.needed, chemical) > Get(inv.surplus, chemical);
        assert Get(inv.needed, chemical) + Produced(plan, recipes, chemical) ==
          Demand(fuelAmount, plan, recipes, chemical) + Get(inv.surplus, chemical);
        return Failure(res.error), plan;
      }
      ExpandKeepsBalance(inv, chemical, recipes, fuelAmount, plan);
      var t := res.value.1;
      if t > 0 {
        plan := plan + [Batch(chemical, t)];
      }
      inv := res.value.0;
      chemical := GetNonOre(inv.needed, order);
    }
    NoOreProduced(plan, recipes);
    assert Get(inv.needed, "ORE") + Produced(plan, recipes, "ORE") == Demand(fuelAmount, plan, recipes, "ORE") + Get(inv.surplus, "ORE");
    r := Success(Get(inv.needed, "ORE"));
    if WellNamed(recipes) {
      forall x | x != "ORE" && GetInt(order, x) < MaxInt
        ensures Produced(plan, recipes, x) >= Demand(fuelAmount, plan, recipes, x)
      {
        assert !Candidate(inv.needed, order, x);
        assert Get(inv.needed, x) + Produced(plan, recipes, x) == Demand(fuelAmount, plan, recipes, x) + Get(inv.surplus, x);
      }
    }
  }
}
