/** The small helpers shared by the day solutions: an all-or-nothing parser for
    a list of decimal strings, the factorial-base counter `NextPermutation`
    and `GetPermutation`, which turns such a counter into a permutation by
    successive swaps. Go's in-place slice updates are modelled on values: the
    methods return the updated sequence. */
module Utils {
  import opened Wrappers
  import opened Decimal
  import opened Text
  import Arith

  // ----- ParseNumberList -----

  /** Parses every string as a signed 64-bit decimal. The first string that
      does not parse is returned as the error; no partial list survives. */
  function ParseNumberList(strs: seq<string>): (r: Result<seq<int>, string>)
    ensures r.Success? ==> |r.value| == |strs|
    ensures r.Success? ==> forall i :: 0 <= i < |strs| ==> ParseInt(strs[i]) == Some(r.value[i])
    ensures r.Success? <==> forall i :: 0 <= i < |strs| ==> ParseInt(strs[i]).Some?
    ensures r.Failure? ==> exists i :: 0 <= i < |strs| && strs[i] == r.error && ParseInt(strs[i]).None?
                                       && forall j :: 0 <= j < i ==> ParseInt(strs[j]).Some?
    decreases |strs|
  {
    if strs == [] then Success([])
    else
      match ParseInt(strs[0])
      case None => Failure(strs[0])
      case Some(n) =>
        var rest :- ParseNumberList(strs[1..]);
        assert forall i :: 1 <= i < |strs| ==> strs[i] == strs[1..][i - 1];
        Success([n] + rest)
  }

  /** Decimal renderings of a list of numbers. */
  function ShowAll(xs: seq<int>): (strs: seq<string>)
    ensures |strs| == |xs|
    ensures forall i :: 0 <= i < |xs| ==> strs[i] == ShowInt(xs[i])
  {
    seq(|xs|, i requires 0 <= i < |xs| => ShowInt(xs[i]))
  }

  predicate InInt64(xs: seq<int>) {
    forall i :: 0 <= i < |xs| ==> -(Int64Limit as int) <= xs[i] < Int64Limit
  }

  /** ParseNumberList reads back the rendering of any list of 64-bit values. */
  lemma ParseNumberListShowAll(xs: seq<int>)
    requires InInt64(xs)
    ensures ParseNumberList(ShowAll(xs)) == Success(xs)
  {
    var strs := ShowAll(xs);
    forall i | 0 <= i < |xs|
      ensures ParseInt(strs[i]) == Some(xs[i])
    {
      ParseIntShowInt(xs[i]);
    }
    var r := ParseNumberList(strs);
    assert r.Success?;
    assert |r.value| == |xs|;
    assert forall i :: 0 <= i < |xs| ==> r.value[i] == xs[i];
    assert r.value == xs;
  }

  lemma ShowIntHasNoComma(i: int, j: int)
    requires 0 <= j < |ShowInt(i)|
    ensures ShowInt(i)[j] != ','
  {
    if i >= 0 {
      assert AllDigits(ShowNat(i));
    } else {
      assert AllDigits(ShowNat(-i));
      if j > 0 {
        assert ShowInt(i)[j] == ShowNat(-i)[j - 1];
      }
    }
  }

  /** A comma-separated program line, split on "," and parsed, gives back the
      numbers it was written from: the text path that ParseProgram takes. */
  lemma ProgramLineRoundTrip(xs: seq<int>)
    requires InInt64(xs) && |xs| > 0
    ensures ParseNumberList(Split(Join(ShowAll(xs), ","), ",")) == Success(xs)
  {
    var strs := ShowAll(xs);
    forall i, j | 0 <= i < |strs| && 0 <= j < |strs[i]|
      ensures strs[i][j] != ","[0]
    {
      ShowIntHasNoComma(xs[i], j);
    }
    SplitJoin(strs, ",");
    ParseNumberListShowAll(xs);
  }

  // ----- NextPermutation -----

  function Fact(n: nat): (f: nat)
    ensures f >= 1
  {
    if n == 0 then 1 else n * Fact(n - 1)
  }

  function Zeros(n: nat): (z: seq<int>)
    ensures |z| == n
    ensures forall i :: 0 <= i < n ==> z[i] == 0
  {
    seq(n, i => 0)
  }

  /** Largest value digit i of a length-n counter can hold; digit 0 has no bound in the code. */
  function DigitMax(n: nat, i: nat): int {
    n - i - 1
  }

  /** Every digit after the first lies within its radix. */
  predicate TailBounded(p: seq<int>) {
    forall i :: 1 <= i < |p| ==> 0 <= p[i] <= DigitMax(|p|, i)
  }

  /** Factorial-base value of the counter: digit i weighs (|p|-1-i)!. */
  function Value(p: seq<int>): int
    decreases |p|
  {
    if p == [] then 0 else p[0] * Fact(|p| - 1) + Value(p[1..])
  }

  /** The shape of one increment: digits after k were at (or past) their
      maximum and become 0, digit k grows by one, digits before k stay. */
  predicate IncrementAt(p: seq<int>, q: seq<int>, k: nat) {
    && k < |p|
    && (k == 0 || p[k] < DigitMax(|p|, k))
    && (forall i :: k < i < |p| ==> p[i] >= DigitMax(|p|, i))
    && q == p[..k] + [p[k] + 1] + Zeros(|p| - k - 1)
  }

  /** Advances the counter by one: scanning from the last digit, digits at
      their maximum wrap to 0 and the first that is not (or digit 0) is
      incremented. An empty counter is left alone. */
  method NextPermutation(p: seq<int>) returns (q: seq<int>)
    ensures |q| == |p|
    ensures p == [] ==> q == []
    ensures p != [] ==> exists k :: IncrementAt(p, q, k)
    ensures p != [] && TailBounded(p) ==> TailBounded(q) && Value(q) == Value(p) + 1
  {
    q := p;
    var i := |p| - 1;
    while i >= 0
      invariant -1 <= i < |p|
      invariant p != [] ==> i >= 0
      invariant q == p[..i + 1] + Zeros(|p| - i - 1)
      invariant forall j :: i < j < |p| ==> p[j] >= DigitMax(|p|, j)
      decreases i
    {
      if i == 0 || q[i] < DigitMax(|p|, i) {
        assert q[i] == p[i];
        q := q[i := q[i] + 1];
        assert q == p[..i] + [p[i] + 1] + Zeros(|p| - i - 1);
        assert IncrementAt(p, q, i);
        if TailBounded(p) {
          IncrementKeepsBound(p, q, i);
          IncrementValue(p, q, i);
        }
        return;
      }
      assert q[i] == p[i];
      q := q[i := 0];
      assert q == p[..i] + Zeros(|p| - i);
      i := i - 1;
    }
  }

  lemma IncrementKeepsBound(p: seq<int>, q: seq<int>, k: nat)
    requires IncrementAt(p, q, k) && TailBounded(p)
    ensures TailBounded(q)
  {
    forall i | 1 <= i < |q|
      ensures 0 <= q[i] <= DigitMax(|q|, i)
    {
      if i < k {
        assert q[i] == p[i];
      } else if i == k {
        assert q[i] == p[k] + 1;
      } else {
        assert q[i] == 0;
      }
    }
  }

  /** A counter whose every digit is at its maximum is worth |s|! - 1. */
  lemma {:induction false} ValueOfMaxDigits(s: seq<int>)
    requires forall i :: 0 <= i < |s| ==> s[i] == DigitMax(|s|, i)
    ensures Value(s) == Fact(|s|) - 1
    decreases |s|
  {
    if s != [] {
      var n := |s|;
      assert forall i :: 0 <= i < |s[1..]| ==> s[1..][i] == s[i + 1];
      ValueOfMaxDigits(s[1..]);
      calc {
        Value(s);
        (n - 1) * Fact(n - 1) + Fact(n - 1) - 1;
        n * Fact(n - 1) - 1;
      }
    }
  }

  lemma {:induction false} ValueOfZeros(n: nat)
    ensures Value(Zeros(n)) == 0
    decreases n
  {
    if n > 0 {
      assert Zeros(n)[1..] == Zeros(n - 1);
      ValueOfZeros(n - 1);
    }
  }

  /** The tail of a counter whose tail is within its radices is itself such a counter. */
  lemma TailOfTailBounded(p: seq<int>)
    requires p != [] && TailBounded(p)
    ensures TailBounded(p[1..])
  {
    var t := p[1..];
    forall i | 1 <= i < |t|
      ensures 0 <= t[i] <= DigitMax(|t|, i)
    {
      assert t[i] == p[i + 1];
    }
  }

  /** An increment at digit 0 found every later digit at its maximum. */
  lemma FirstIncrementTail(p: seq<int>, q: seq<int>)
    requires IncrementAt(p, q, 0) && TailBounded(p)
    ensures Value(p[1..]) == Fact(|p| - 1) - 1
  {
    var t := p[1..];
    forall i | 0 <= i < |t|
      ensures t[i] == DigitMax(|t|, i)
    {
      assert t[i] == p[i + 1];
    }
    ValueOfMaxDigits(t);
  }

  /** An increment at digit 0 raises it and clears the rest. */
  lemma FirstIncrementShape(p: seq<int>, q: seq<int>)
    requires IncrementAt(p, q, 0)
    ensures |q| == |p| && q[0] == p[0] + 1 && Value(q[1..]) == 0
  {
    assert q == [p[0] + 1] + Zeros(|p| - 1);
    assert q[1..] == Zeros(|p| - 1);
    ValueOfZeros(|p| - 1);
  }

  lemma IncrementAtFirst(p: seq<int>, q: seq<int>)
    requires IncrementAt(p, q, 0) && TailBounded(p)
    ensures Value(q) == Value(p) + 1
  {
    var f := Fact(|p| - 1);
    FirstIncrementTail(p, q);
    FirstIncrementShape(p, q);
    assert Value(q) == q[0] * f + Value(q[1..]);
    assert Value(p) == p[0] * f + Value(p[1..]);
    Arith.MulAddRight(p[0], 1, f);
  }

  lemma IncrementAtTail(p: seq<int>, q: seq<int>, k: nat)
    requires IncrementAt(p, q, k) && k > 0
    ensures IncrementAt(p[1..], q[1..], k - 1) && q[0] == p[0]
  {
    var p', q' := p[1..], q[1..];
    assert q[..k] == p[..k];
    assert q' == p'[..k - 1] + [p'[k - 1] + 1] + Zeros(|p'| - (k - 1) - 1);
    forall i | k - 1 < i < |p'|
      ensures p'[i] >= DigitMax(|p'|, i)
    {
      assert p'[i] == p[i + 1];
    }
  }

  /** An increment of a counter whose tail is within its radices adds one to its value. */
  lemma {:induction false} IncrementValue(p: seq<int>, q: seq<int>, k: nat)
    requires IncrementAt(p, q, k) && TailBounded(p)
    ensures Value(q) == Value(p) + 1
    decreases k
  {
    if k == 0 {
      IncrementAtFirst(p, q);
    } else {
      IncrementAtTail(p, q, k);
      TailOfTailBounded(p);
      IncrementValue(p[1..], q[1..], k - 1);
      assert |q| == |p|;
    }
  }

  // ----- GetPermutation -----

  /** Every swap the code asks for stays inside the sequence. */
  predicate ValidCode(p: seq<int>, n: nat) {
    forall i :: 0 <= i < |p| ==> i < n && 0 <= i + p[i] < n
  }

  function Swap(s: seq<int>, i: nat, j: nat): (t: seq<int>)
    requires i < |s| && j < |s|
    ensures |t| == |s|
    ensures t[i] == s[j] && t[j] == s[i]
  {
    seq(|s|, k requires 0 <= k < |s| => if k == j then s[i] else if k == i then s[j] else s[k])
  }

  /** A swap leaves every other position alone. */
  lemma SwapFrame(s: seq<int>, i: nat, j: nat, k: nat)
    requires i < |s| && j < |s| && k < |s| && k != i && k != j
    ensures Swap(s, i, j)[k] == s[k]
  {
  }

  /** The first k swaps of the code applied in order: position i is exchanged
      with position i + p[i]. */
  function Swaps(s: seq<int>, p: seq<int>, k: nat): (t: seq<int>)
    requires k <= |p| && ValidCode(p, |s|)
    ensures |t| == |s|
    decreases k
  {
    if k == 0 then s
    else Swap(Swaps(s, p, k - 1), k - 1, k - 1 + p[k - 1])
  }

  lemma SwapPermutes(s: seq<int>, i: nat, j: nat)
    requires i < |s| && j < |s|
    ensures multiset(Swap(s, i, j)) == multiset(s)
  {
    assert Swap(s, i, j) == s[i := s[j]][j := s[i]];
  }

  /** Swapping never loses or duplicates an element. */
  lemma {:induction false} SwapsPermute(s: seq<int>, p: seq<int>, k: nat)
    requires k <= |p| && ValidCode(p, |s|)
    ensures multiset(Swaps(s, p, k)) == multiset(s)
    decreases k
  {
    if k == 0 {
    } else {
      var t := Swaps(s, p, k - 1);
      var j := k - 1 + p[k - 1];
      SwapsPermute(s, p, k - 1);
      SwapPermutes(t, k - 1, j);
    }
  }

  /** Builds the permutation of original selected by the code p; None stands
      for the index-out-of-range panic of a swap that leaves the slice. */
  method GetPermutation(original: seq<int>, p: seq<int>) returns (r: Option<seq<int>>)
    ensures r.Some? <==> ValidCode(p, |original|)
    ensures r.Some? ==> |r.value| == |original| && multiset(r.value) == multiset(original)
    ensures r.Some? ==> r.value == Swaps(original, p, |p|)
  {
    if !ValidCode(p, |original|) {
      return None;
    }
    var result := original;
    var i := 0;
    while i < |p|
      invariant 0 <= i <= |p|
      invariant result == Swaps(original, p, i)
    {
      result := Swap(result, i, i + p[i]);
      i := i + 1;
    }
    SwapsPermute(original, p, |p|);
    return Some(result);
  }

  /** The all-zero code swaps every position with itself: the identity. */
  lemma {:induction false} ZeroCodeIsIdentity(s: seq<int>, n: nat, k: nat)
    requires n <= |s| && k <= n
    ensures ValidCode(Zeros(n), |s|) && Swaps(s, Zeros(n), k) == s
    decreases k
  {
    if k > 0 {
      ZeroCodeIsIdentity(s, n, k - 1);
    }
  }
}
