/** The topological order of the reaction graph that the ore calculation
    expands by: Kahn's algorithm from FUEL, with an edge from each product to
    each of its ingredient terms (a chemical listed twice counts twice). A
    chemical is queued once every reaction using it has been dequeued, and
    is numbered when it leaves the queue. */
module ReactionOrder {
  import opened Reactions

  /** Ingredient lists by product, as the code's `productions` map holds them. */
  type Graph = map<string, seq<Reagent>>

  /** Go's map read: a product without an entry has no ingredients. */
  function Edges(g: Graph, k: string): seq<Reagent> {
    if k in g then g[k] else []
  }

  /** Number of terms naming x. */
  function Count(terms: seq<Reagent>, x: string): nat
    decreases |terms|
  {
    if terms == [] then 0 else (if terms[0].chemical == x then 1 else 0) + Count(terms[1..], x)
  }

  /** x is an ingredient of product p. */
  predicate IsIngredient(g: Graph, p: string, x: string) {
    p in g && Count(g[p], x) > 0
  }

  /** x is an ingredient of nothing. */
  predicate NotIngredient(g: Graph, x: string) {
    forall p :: p in g ==> Count(g[p], x) == 0
  }

  predicate Distinct(s: seq<string>) {
    forall i, j :: 0 <= i < j < |s| ==> s[i] != s[j]
  }

  /** In-degree of x counting only the products not yet done, the products
      being enumerated by ks. */
  function RemDeg(g: Graph, ks: seq<string>, done: set<string>, x: string): nat
    decreases |ks|
  {
    if ks == [] then 0
    else (if ks[0] in done then 0 else Count(Edges(g, ks[0]), x)) + RemDeg(g, ks[1..], done, x)
  }

  /** Adds one to the in-degree of every term's chemical. */
  function AddCounts(deg: map<string, int>, terms: seq<Reagent>): (r: map<string, int>)
    ensures forall x :: GetInt(r, x) == GetInt(deg, x) + Count(terms, x)
    decreases |terms|
  {
    if terms == [] then deg
    else
      var c := terms[0].chemical;
      AddCounts(deg[c := GetInt(deg, c) + 1], terms[1..])
  }

  /** The in-degree table built from every product's ingredient list. */
  function Degrees(g: Graph, ks: seq<string>): (r: map<string, int>)
    ensures forall x :: GetInt(r, x) == RemDeg(g, ks, {}, x)
    decreases |ks|
  {
    if ks == [] then map[] else AddCounts(Degrees(g, ks[1..]), Edges(g, ks[0]))
  }

  /** The products of the graph in some order, each once. */
  method KeysOf(g: Graph) returns (ks: seq<string>)
    ensures forall k :: k in ks <==> k in g
    ensures Distinct(ks)
  {
    ks := [];
    var rest := g.Keys;
    while rest != {}
      invariant rest <= g.Keys
      invariant forall k :: k in ks <==> k in g && k !in rest
      invariant Distinct(ks)
      decreases |rest|
    {
      var k :| k in rest;
      ks := ks + [k];
      rest := rest - {k};
    }
  }

  /** Marking one more product done lowers every in-degree by that product's terms. */
  lemma {:induction false} RemDegAdd(g: Graph, ks: seq<string>, done: set<string>, item: string, x: string)
    requires item !in done && Distinct(ks)
    ensures RemDeg(g, ks, done, x) == RemDeg(g, ks, done + {item}, x) + (if item in ks then Count(Edges(g, item), x) else 0)
    decreases |ks|
  {
    if ks != [] {
      assert Distinct(ks[1..]) by {
        forall i, j | 0 <= i < j < |ks[1..]|
          ensures ks[1..][i] != ks[1..][j]
        {
          assert ks[1..][i] == ks[i + 1] && ks[1..][j] == ks[j + 1];
        }
      }
      RemDegAdd(g, ks[1..], done, item, x);
      if ks[0] == item {
        assert item !in ks[1..] by {
          forall i | 0 <= i < |ks[1..]|
            ensures ks[1..][i] != item
          {
            assert ks[1..][i] == ks[i + 1];
          }
        }
      } else {
        assert item in ks <==> item in ks[1..];
      }
    }
  }

  /** Dequeuing item lowers each in-degree by item's remaining terms; a
      product dequeued before has none left. */
  lemma DequeueLowers(g: Graph, ks: seq<string>, order0: map<string, int>, item: string, n: int,
                      edges: seq<Reagent>, graph: Graph)
    requires Distinct(ks) && forall k :: k in ks <==> k in g
    requires forall k :: Edges(graph, k) == if k in order0 then [] else Edges(g, k)
    requires edges == Edges(graph, item)
    ensures forall x :: RemDeg(g, ks, order0.Keys, x) == RemDeg(g, ks, order0[item := n].Keys, x) + Count(edges, x)
  {
    forall x
      ensures RemDeg(g, ks, order0.Keys, x) == RemDeg(g, ks, order0[item := n].Keys, x) + Count(edges, x)
    {
      if item in order0 {
        assert order0[item := n].Keys == order0.Keys;
      } else {
        assert order0[item := n].Keys == order0.Keys + {item};
        RemDegAdd(g, ks, order0.Keys, item, x);
      }
    }
  }

  /** Marking a product done never raises an in-degree. */
  lemma {:induction false} RemDegShrinks(g: Graph, ks: seq<string>, done: set<string>, more: set<string>, x: string)
    requires done <= more
    ensures RemDeg(g, ks, more, x) <= RemDeg(g, ks, done, x)
    decreases |ks|
  {
    if ks != [] {
      RemDegShrinks(g, ks[1..], done, more, x);
    }
  }

  /** A zero in-degree means every listed product using x is done. */
  lemma {:induction false} RemDegZero(g: Graph, ks: seq<string>, done: set<string>, x: string, p: string)
    requires RemDeg(g, ks, done, x) == 0 && p in ks
    ensures p in done || Count(Edges(g, p), x) == 0
    decreases |ks|
  {
    if ks[0] != p {
      RemDegZero(g, ks[1..], done, x, p);
    }
  }

  lemma {:induction false} RemDegOfNonIngredient(g: Graph, ks: seq<string>, done: set<string>, x: string)
    requires NotIngredient(g, x)
    ensures RemDeg(g, ks, done, x) == 0
    decreases |ks|
  {
    if ks != [] {
      RemDegOfNonIngredient(g, ks[1..], done, x);
    }
  }

  lemma CountSuffix(terms: seq<Reagent>, j: nat, x: string)
    requires j < |terms|
    ensures Count(terms[j..], x) == (if terms[j].chemical == x then 1 else 0) + Count(terms[j + 1..], x)
  {
    assert terms[j..][1..] == terms[j + 1..];
  }

  lemma {:induction false} CountSuffixAtMost(terms: seq<Reagent>, j: nat, x: string)
    requires j <= |terms|
    ensures Count(terms[j..], x) <= Count(terms, x)
    decreases j
  {
    if j > 0 {
      CountSuffixAtMost(terms, j - 1, x);
      CountSuffix(terms, j - 1, x);
    }
  }

  /** Products whose ingredient list has not been consumed yet. */
  function Pending(g: Graph): set<string> {
    set k | k in g.Keys && g[k] != []
  }

  lemma PendingAfterClear(g: Graph, item: string)
    ensures Pending(g[item := []]) == Pending(g) - {item}
    ensures Edges(g, item) != [] ==> |Pending(g[item := []])| < |Pending(g)|
    ensures Edges(g, item) == [] ==> Pending(g[item := []]) == Pending(g)
  {
    assert Pending(g[item := []]) == Pending(g) - {item};
    if Edges(g, item) != [] {
      assert item in Pending(g);
    }
  }

  lemma DistinctConcat(a: seq<string>, b: seq<string>)
    requires Distinct(a) && Distinct(b)
    requires forall y :: y in b ==> y !in a
    ensures Distinct(a + b)
  {
    forall i, j | 0 <= i < j < |a + b|
      ensures (a + b)[i] != (a + b)[j]
    {
      if j < |a| {
        assert (a + b)[i] == a[i] && (a + b)[j] == a[j];
      } else if i < |a| {
        assert (a + b)[j] == b[j - |a|] && b[j - |a|] in b;
        assert (a + b)[i] == a[i];
      } else {
        assert (a + b)[i] == b[i - |a|] && (a + b)[j] == b[j - |a|];
      }
    }
  }

  /** The queue stays free of repeats and of numbered chemicals: what is
      left after the dequeue was fresh already, and what the release adds is
      used by the dequeued product, which no queued or numbered chemical is. */
  lemma QueueStaysFresh(queue0: seq<string>, done0: set<string>, item: string, queue1: seq<string>,
                        queue: seq<string>, done: set<string>, edges: seq<Reagent>)
    requires Distinct(queue0) && forall y :: y in queue0 ==> y !in done0
    requires queue0 == [item] + queue1 && done == done0 + {item}
    requires |queue| >= |queue1| && queue[..|queue1|] == queue1
    requires forall i :: |queue1| <= i < |queue| ==> Count(edges, queue[i]) > 0
    requires Distinct(queue[|queue1|..])
    requires forall y :: y in done || y in queue1 ==> Count(edges, y) == 0
    ensures Distinct(queue) && forall y :: y in queue ==> y !in done
  {
    var appended := queue[|queue1|..];
    assert queue == queue1 + appended;
    assert Distinct(queue1) by {
      forall i, j | 0 <= i < j < |queue1|
        ensures queue1[i] != queue1[j]
      {
        assert queue1[i] == queue0[i + 1] && queue1[j] == queue0[j + 1];
      }
    }
    forall y | y in appended
      ensures y !in done && y !in queue1
    {
      var i :| 0 <= i < |appended| && appended[i] == y;
      assert queue[|queue1| + i] == y;
    }
    DistinctConcat(queue1, appended);
    forall y | y in queue
      ensures y !in done
    {
      if y in queue1 {
        var i :| 0 <= i < |queue1| && queue1[i] == y;
        assert queue0[i + 1] == y && queue0[0] == item;
      }
    }
  }

  /** The inner loop of the ordering: every term of a dequeued product lowers
      its chemical's in-degree by one, and a chemical whose in-degree reaches
      zero is queued. When no in-degree can go negative, each chemical is
      queued at most once, and only chemicals the product actually uses. */
  method Release(inDegree: map<string, int>, edges: seq<Reagent>, queue: seq<string>)
      returns (deg: map<string, int>, out: seq<string>)
    requires forall x :: GetInt(inDegree, x) >= Count(edges, x)
    ensures forall x :: GetInt(deg, x) == GetInt(inDegree, x) - Count(edges, x)
    ensures |out| >= |queue| && out[..|queue|] == queue
    ensures forall i :: |queue| <= i < |out| ==> GetInt(deg, out[i]) == 0 && Count(edges, out[i]) > 0
    ensures Distinct(out[|queue|..])
    ensures forall x :: Count(edges, x) > 0 && GetInt(deg, x) == 0 ==> x in out[|queue|..]
    ensures |out| <= |queue| + |edges|
  {
    deg := inDegree;
    out := queue;
    ghost var appended: seq<string> := [];
    var j := 0;
    assert edges[0..] == edges;
    while j < |edges|
      invariant 0 <= j <= |edges|
      invariant forall x :: GetInt(deg, x) == GetInt(inDegree, x) - Count(edges, x) + Count(edges[j..], x)
      invariant out == queue + appended && |appended| <= j
      invariant Distinct(appended)
      invariant forall y :: y in appended ==> GetInt(deg, y) == 0 && Count(edges[j..], y) == 0 && Count(edges, y) > 0
      invariant forall x :: Count(edges, x) > Count(edges[j..], x) && GetInt(deg, x) == 0 ==> x in appended
    {
      var e := edges[j].chemical;
      forall y ensures Count(edges[j..], y) == (if e == y then 1 else 0) + Count(edges[j + 1..], y) {
        CountSuffix(edges, j, y);
      }
      deg := deg[e := GetInt(deg, e) - 1];
      if deg[e] == 0 {
        CountSuffixAtMost(edges, j, e);
        assert e !in appended;
        DistinctConcat(appended, [e]);
        out := out + [e];
        appended := appended + [e];
      }
      j := j + 1;
    }
    assert edges[|edges|..] == [];
    assert out[|queue|..] == appended;
  }

  /** Every product using a numbered chemical is numbered before it. */
  ghost predicate Topological(g: Graph, order: map<string, int>) {
    forall p, x :: x in order && IsIngredient(g, p, x) ==> p in order && order[p] < order[x]
  }

  /** Numbering item last keeps the order topological when all of item's
      users are numbered already. */
  lemma TopologicalStep(g: Graph, order0: map<string, int>, count0: int, item: string)
    requires Topological(g, order0)
    requires item !in order0 && forall k :: k in order0 ==> order0[k] < count0
    requires forall p :: IsIngredient(g, p, item) ==> p in order0
    ensures Topological(g, order0[item := count0])
  {
    var order := order0[item := count0];
    forall p, x | x in order && IsIngredient(g, p, x)
      ensures p in order && order[p] < order[x]
    {
      if x != item {
        assert x in order0 && p in order0 && p != item;
      }
    }
  }

  /** What the ordering keeps while FUEL is an ingredient of nothing: queued
      and numbered chemicals have no unfinished users, the queue holds no
      repeats and nothing numbered, every product is numbered before its
      ingredients, FUEL is numbered first, and the numbers run 0 .. count-1. */
  ghost predicate Ordered(g: Graph, ks: seq<string>, queue: seq<string>, order: map<string, int>, count: int) {
    && (forall x :: (x in queue || x in order) ==> RemDeg(g, ks, order.Keys, x) == 0)
    && Distinct(queue) && (forall y :: y in queue ==> y !in order)
    && Topological(g, order)
    && (count > 0 ==> "FUEL" in order && order["FUEL"] == 0)
    && count == |order|
  }

  /** What the ordering keeps in every case: the working graph has lost
      exactly the numbered products' ingredient lists, the in-degree table
      counts the unnumbered products' terms, and the numbers handed out are
      distinct and below count. */
  ghost predicate Tracks(g: Graph, ks: seq<string>, graph: Graph, inDegree: map<string, int>,
                         order: map<string, int>, count: int) {
    && (forall k :: Edges(graph, k) == if k in order then [] else Edges(g, k))
    && (forall x :: GetInt(inDegree, x) == RemDeg(g, ks, order.Keys, x))
    && count >= 0 && (forall k :: k in order ==> 0 <= order[k] < count)
    && (forall a, b :: a in order && b in order && a != b ==> order[a] != order[b])
  }

  /** Numbering item leaves each in-degree above what item's terms take off. */
  lemma TracksDequeue(g: Graph, ks: seq<string>, graph: Graph, inDegree: map<string, int>,
                      order0: map<string, int>, count0: int, item: string)
    requires Distinct(ks) && forall k :: k in ks <==> k in g
    requires Tracks(g, ks, graph, inDegree, order0, count0)
    ensures forall x :: GetInt(inDegree, x) == RemDeg(g, ks, order0[item := count0].Keys, x) + Count(Edges(graph, item), x)
  {
    DequeueLowers(g, ks, order0, item, count0, Edges(graph, item), graph);
  }

  /** One round of the ordering keeps Tracks. */
  lemma TracksStep(g: Graph, ks: seq<string>, graph: Graph, inDegree: map<string, int>,
                   order0: map<string, int>, count0: int, item: string, deg: map<string, int>)
    requires Distinct(ks) && forall k :: k in ks <==> k in g
    requires Tracks(g, ks, graph, inDegree, order0, count0)
    requires forall x :: GetInt(deg, x) == GetInt(inDegree, x) - Count(Edges(graph, item), x)
    ensures Tracks(g, ks, graph[item := []], deg, order0[item := count0], count0 + 1)
    ensures forall x :: GetInt(deg, x) == RemDeg(g, ks, order0[item := count0].Keys, x)
  {
    TracksDequeue(g, ks, graph, inDegree, order0, count0, item);
    var order := order0[item := count0];
    forall k ensures Edges(graph[item := []], k) == if k in order then [] else Edges(g, k) {
      if k != item {
        assert Edges(graph[item := []], k) == Edges(graph, k);
      }
    }
    forall a, b | a in order && b in order && a != b
      ensures order[a] != order[b]
    {
      if a != item && b != item {
        assert order[a] == order0[a] && order[b] == order0[b];
      }
    }
  }

  /** One round of the ordering keeps Ordered. */
  lemma OrderedStep(g: Graph, ks: seq<string>, graph0: Graph, inDegree0: map<string, int>,
                    queue0: seq<string>, order0: map<string, int>, count0: int,
                    item: string, queue1: seq<string>, edges: seq<Reagent>, deg: map<string, int>, queue: seq<string>)
    requires Distinct(ks) && forall k :: k in ks <==> k in g
    requires Tracks(g, ks, graph0, inDegree0, order0, count0)
    requires Ordered(g, ks, queue0, order0, count0)
    requires queue0 == [item] + queue1 && (count0 == 0 ==> item == "FUEL")
    requires edges == Edges(graph0, item)
    requires forall x :: GetInt(deg, x) == RemDeg(g, ks, order0[item := count0].Keys, x)
    requires |queue| >= |queue1| && queue[..|queue1|] == queue1
    requires forall i :: |queue1| <= i < |queue| ==> GetInt(deg, queue[i]) == 0 && Count(edges, queue[i]) > 0
    requires Distinct(queue[|queue1|..])
    ensures Ordered(g, ks, queue, order0[item := count0], count0 + 1)
  {
    assert item !in order0 && edges == Edges(g, item);
    DequeueLowers(g, ks, order0, item, count0, edges, graph0);
    var order := order0[item := count0];
    assert item in queue0;
    assert order.Keys == order0.Keys + {item};
    forall y | y in order || y in queue1
      ensures Count(edges, y) == 0
    {
      assert y in queue0 || y in order0;
    }
    QueueStaysFresh(queue0, order0.Keys, item, queue1, queue, order.Keys, edges);
    forall x | x in queue || x in order
      ensures RemDeg(g, ks, order.Keys, x) == 0
    {
      if x !in queue1 && x !in order0 && x != item {
        var i :| 0 <= i < |queue| && queue[i] == x;
      } else {
        assert x in queue0 || x in order0;
      }
    }
    // The dequeued item was numbered after all its users.
    forall p | IsIngredient(g, p, item)
      ensures p in order0
    {
      RemDegZero(g, ks, order0.Keys, item, p);
    }
    TopologicalStep(g, order0, count0, item);
  }

  /** Every product that uses x is numbered. */
  ghost predicate Released(g: Graph, order: map<string, int>, x: string) {
    forall q :: IsIngredient(g, q, x) ==> q in order
  }

  /** An in-degree left at 0 means every user of x is done. */
  lemma {:induction false} RemDegOfReleased(g: Graph, ks: seq<string>, done: set<string>, x: string)
    requires forall k :: k in ks && IsIngredient(g, k, x) ==> k in done
    ensures RemDeg(g, ks, done, x) == 0
    decreases |ks|
  {
    if ks != [] {
      assert ks[0] in ks;
      assert forall k :: k in ks[1..] ==> k in ks;
      RemDegOfReleased(g, ks[1..], done, x);
    }
  }

  /** What the ordering keeps about release: an ingredient of a numbered
      product whose in-degree has dropped to 0 is queued or numbered. */
  ghost predicate Closed(g: Graph, ks: seq<string>, queue: seq<string>, order: map<string, int>) {
    forall p, x :: p in order && IsIngredient(g, p, x) && RemDeg(g, ks, order.Keys, x) == 0 ==> x in queue || x in order
  }

  /** With the queue empty, every ingredient of a numbered product whose
      users are all numbered is numbered itself. */
  lemma ClosedAtEnd(g: Graph, ks: seq<string>, order: map<string, int>)
    requires Closed(g, ks, [], order)
    ensures forall p, x :: p in order && IsIngredient(g, p, x) && Released(g, order, x) ==> x in order
  {
    forall p, x | p in order && IsIngredient(g, p, x) && Released(g, order, x)
      ensures x in order
    {
      RemDegOfReleased(g, ks, order.Keys, x);
    }
  }

  /** One round of the ordering keeps Closed: an ingredient of the dequeued
      product whose in-degree reaches 0 is among the chemicals released. */
  lemma ClosedStep(g: Graph, ks: seq<string>, graph0: Graph, inDegree0: map<string, int>,
                   queue0: seq<string>, order0: map<string, int>, count0: int,
                   item: string, queue1: seq<string>, edges: seq<Reagent>, deg: map<string, int>, queue: seq<string>)
    requires Tracks(g, ks, graph0, inDegree0, order0, count0)
    requires Closed(g, ks, queue0, order0)
    requires queue0 == [item] + queue1
    requires edges == Edges(graph0, item)
    requires forall x :: GetInt(deg, x) == GetInt(inDegree0, x) - Count(edges, x)
    requires forall x :: GetInt(deg, x) == RemDeg(g, ks, order0[item := count0].Keys, x)
    requires |queue| >= |queue1| && queue[..|queue1|] == queue1
    requires forall x :: Count(edges, x) > 0 && GetInt(deg, x) == 0 ==> x in queue[|queue1|..]
    ensures Closed(g, ks, queue, order0[item := count0])
  {
    var order := order0[item := count0];
    forall p, x | p in order && IsIngredient(g, p, x) && RemDeg(g, ks, order.Keys, x) == 0
      ensures x in queue || x in order
    {
      assert GetInt(deg, x) == 0;
      if p in order0 && Count(edges, x) == 0 {
        assert RemDeg(g, ks, order0.Keys, x) == 0;
        if x in queue1 {
          var i :| 0 <= i < |queue1| && queue1[i] == x;
          assert queue[i] == x;
        } else {
          assert x in queue0 || x in order0;
        }
      } else {
        assert Count(edges, x) > 0 by {
          if p !in order0 {
            assert p == item && edges == Edges(g, item);
          }
        }
        var i :| |queue1| <= i < |queue| && queue[i] == x by {
          var k :| 0 <= k < |queue[|queue1|..]| && queue[|queue1|..][k] == x;
          assert queue[|queue1| + k] == x;
        }
      }
    }
  }

  /** x was handed over by the ordering: it is an ingredient of a numbered
      product, and every product using it is numbered. */
  ghost predicate Reached(g: Graph, order: map<string, int>, x: string) {
    Released(g, order, x) && exists p :: p in order && IsIngredient(g, p, x)
  }

  /** Numbering more products keeps a chemical reached. */
  lemma ReachedGrows(g: Graph, order0: map<string, int>, order: map<string, int>, x: string)
    requires order0.Keys <= order.Keys && Reached(g, order0, x)
    ensures Reached(g, order, x)
  {
    var p :| p in order0 && IsIngredient(g, p, x);
    assert p in order;
  }

  /** What the queue and the numbering hold besides FUEL is reached. */
  ghost predicate OnlyReached(g: Graph, queue: seq<string>, order: map<string, int>) {
    forall x :: (x in queue || x in order) && x != "FUEL" ==> Reached(g, order, x)
  }

  /** One round of the ordering keeps OnlyReached: a chemical the release
      queues is an ingredient of the dequeued product, and its in-degree of 0
      means every product using it is numbered. */
  lemma ReachedStep(g: Graph, ks: seq<string>, graph0: Graph, inDegree0: map<string, int>,
                    queue0: seq<string>, order0: map<string, int>, count0: int,
                    item: string, queue1: seq<string>, edges: seq<Reagent>, deg: map<string, int>, queue: seq<string>)
    requires forall k :: k in ks <==> k in g
    requires Tracks(g, ks, graph0, inDegree0, order0, count0)
    requires OnlyReached(g, queue0, order0)
    requires queue0 == [item] + queue1
    requires edges == Edges(graph0, item)
    requires forall x :: GetInt(deg, x) == RemDeg(g, ks, order0[item := count0].Keys, x)
    requires |queue| >= |queue1| && queue[..|queue1|] == queue1
    requires forall i :: |queue1| <= i < |queue| ==> GetInt(deg, queue[i]) == 0 && Count(edges, queue[i]) > 0
    ensures OnlyReached(g, queue, order0[item := count0])
  {
    var order := order0[item := count0];
    forall x | (x in queue || x in order) && x != "FUEL"
      ensures Reached(g, order, x)
    {
      if x in order0 || x in queue1 || x == item {
        assert x in queue0 || x in order0;
        ReachedGrows(g, order0, order, x);
      } else {
        var i :| 0 <= i < |queue| && queue[i] == x;
        assert GetInt(deg, x) == 0 && Count(edges, x) > 0;
        assert item !in order0 && edges == Edges(g, item);
        assert IsIngredient(g, item, x);
        forall q | IsIngredient(g, q, x)
          ensures q in order
        {
          RemDegZero(g, ks, order.Keys, x, q);
        }
      }
    }
  }

  /** Everything the ordering keeps from one round to the next. */
  ghost predicate KahnInv(g: Graph, ks: seq<string>, graph: Graph, inDegree: map<string, int>,
                          queue: seq<string>, order: map<string, int>, count: int, clean: bool) {
    && Distinct(ks) && (forall k :: k in ks <==> k in g)
    && clean == NotIngredient(g, "FUEL")
    && Tracks(g, ks, graph, inDegree, order, count)
    && (count == 0 ==> queue == ["FUEL"] && order == map[])
    && (count > 0 ==> "FUEL" in order)
    && (clean ==> Ordered(g, ks, queue, order, count))
    && Closed(g, ks, queue, order)
    && OnlyReached(g, queue, order)
  }

  /** The state before the first round: only FUEL queued, nothing numbered. */
  lemma KahnStart(g: Graph, ks: seq<string>)
    requires Distinct(ks) && forall k :: k in ks <==> k in g
    ensures KahnInv(g, ks, g, Degrees(g, ks), ["FUEL"], map[], 0, NotIngredient(g, "FUEL"))
  {
    var order: map<string, int> := map[];
    assert order.Keys == {};
    if NotIngredient(g, "FUEL") {
      RemDegOfNonIngredient(g, ks, {}, "FUEL");
    }
  }

  /** Numbering item leaves enough in-degree for the release to take off. */
  lemma KahnDequeue(g: Graph, ks: seq<string>, graph: Graph, inDegree: map<string, int>,
                    queue: seq<string>, order: map<string, int>, count: int, clean: bool, item: string)
    requires KahnInv(g, ks, graph, inDegree, queue, order, count, clean)
    ensures forall x :: GetInt(inDegree, x) >= Count(Edges(graph, item), x)
  {
    TracksDequeue(g, ks, graph, inDegree, order, count, item);
  }

  /** One whole round of the ordering: dequeue, release, clear. */
  lemma RoundStep(g: Graph, ks: seq<string>, graph0: Graph, inDegree0: map<string, int>,
                  queue0: seq<string>, order0: map<string, int>, count0: int, clean: bool,
                  item: string, queue1: seq<string>, edges: seq<Reagent>, deg: map<string, int>, queue: seq<string>)
    requires KahnInv(g, ks, graph0, inDegree0, queue0, order0, count0, clean)
    requires queue0 != [] && item == queue0[0] && queue1 == queue0[1..]
    requires edges == Edges(graph0, item)
    requires forall x :: GetInt(deg, x) == GetInt(inDegree0, x) - Count(edges, x)
    requires |queue| >= |queue1| && queue[..|queue1|] == queue1
    requires forall i :: |queue1| <= i < |queue| ==> GetInt(deg, queue[i]) == 0 && Count(edges, queue[i]) > 0
    requires Distinct(queue[|queue1|..])
    requires forall x :: Count(edges, x) > 0 && GetInt(deg, x) == 0 ==> x in queue[|queue1|..]
    ensures KahnInv(g, ks, graph0[item := []], deg, queue, order0[item := count0], count0 + 1, clean)
  {
    assert queue0 == [item] + queue1;
    TracksStep(g, ks, graph0, inDegree0, order0, count0, item, deg);
    ClosedStep(g, ks, graph0, inDegree0, queue0, order0, count0, item, queue1, edges, deg, queue);
    ReachedStep(g, ks, graph0, inDegree0, queue0, order0, count0, item, queue1, edges, deg, queue);
    if clean {
      OrderedStep(g, ks, graph0, inDegree0, queue0, order0, count0, item, queue1, edges, deg, queue);
    }
  }

  /** What the invariants of the ordering give once the queue is empty. */
  lemma KahnOrderEnd(g: Graph, ks: seq<string>, graph: Graph, inDegree: map<string, int>,
                     order: map<string, int>, count: int, clean: bool)
    requires KahnInv(g, ks, graph, inDegree, [], order, count, clean)
    ensures "FUEL" in order
    ensures forall a :: a in order ==> order[a] >= 0
    ensures forall a, b :: a in order && b in order && a != b ==> order[a] != order[b]
    ensures forall p, x :: p in order && IsIngredient(g, p, x) && Released(g, order, x) ==> x in order
    ensures forall x :: x in order && x != "FUEL" ==>
      Released(g, order, x) && exists p :: p in order && IsIngredient(g, p, x)
    ensures NotIngredient(g, "FUEL") ==> order["FUEL"] == 0
    ensures NotIngredient(g, "FUEL") ==> forall a :: a in order ==> order[a] < |order|
    ensures NotIngredient(g, "FUEL") ==>
      forall p, x :: IsIngredient(g, p, x) && x in order ==> p in order && order[p] < order[x]
  {
    ClosedAtEnd(g, ks, order);
    forall x | x in order && x != "FUEL"
      ensures Reached(g, order, x)
    {
    }
  }

  /** Kahn's algorithm from FUEL. Every number handed out is distinct and
      FUEL is always numbered. When FUEL is an ingredient of nothing (so it
      is never queued a second time), FUEL gets 0, the numbers are exactly
      0 .. |order|-1, and a chemical is numbered only after every product
      that uses it. Besides FUEL, exactly the ingredients of numbered
      products whose users are all numbered get a number. */
  method KahnOrder(productions: Graph) returns (order: map<string, int>)
    ensures "FUEL" in order
    ensures forall a :: a in order ==> order[a] >= 0
    ensures forall a, b :: a in order && b in order && a != b ==> order[a] != order[b]
    ensures forall p, x :: p in order && IsIngredient(productions, p, x) && Released(productions, order, x) ==> x in order
    ensures forall x :: x in order && x != "FUEL" ==>
      Released(productions, order, x) && exists p :: p in order && IsIngredient(productions, p, x)
    ensures NotIngredient(productions, "FUEL") ==> order["FUEL"] == 0
    ensures NotIngredient(productions, "FUEL") ==> forall a :: a in order ==> order[a] < |order|
    ensures NotIngredient(productions, "FUEL") ==>
      forall p, x :: IsIngredient(productions, p, x) && x in order ==> p in order && order[p] < order[x]
  {
    var ks := KeysOf(productions);
    var graph := productions;
    var inDegree := Degrees(productions, ks);
    var queue := ["FUEL"];
    var count := 0;
    order := map[];
    ghost var clean := NotIngredient(productions, "FUEL");
    KahnStart(productions, ks);
    while |queue| > 0
      invariant KahnInv(productions, ks, graph, inDegree, queue, order, count, clean)
      decreases |Pending(graph)|, |queue|
    {
      var item := queue[0];
      ghost var queue0 := queue;
      ghost var graph0 := graph;
      ghost var inDegree0 := inDegree;
      ghost var order0 := order;
      ghost var count0 := count;
      order := order[item := count];
      count := count + 1;
      queue := queue[1..];
      ghost var queue1 := queue;
      var edges := Edges(graph, item);
      KahnDequeue(productions, ks, graph, inDegree0, queue0, order0, count0, clean, item);
      inDegree, queue := Release(inDegree, edges, queue);
      RoundStep(productions, ks, graph0, inDegree0, queue0, order0, count0, clean, item, queue1, edges, inDegree, queue);
      PendingAfterClear(graph, item);
      graph := graph[item := []];
    }
    KahnOrderEnd(productions, ks, graph, inDegree, order, count, clean);
  }
}
