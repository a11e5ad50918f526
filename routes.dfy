/**
 * Route extraction: turning a solved routing model into rows
 * (order key, route label, sequence number).
 *
 * The routing library itself is not modelled. What it hands back is
 * captured by a `Solution`: the start index of every vehicle, the set of end
 * indices, the node each routing index stands for, and the successor that the
 * solution assigns to every index. Walking a vehicle's successors from its
 * start until an end index gives the vehicle's visits; the depot (node 0) is
 * skipped and every other stop is numbered from 1.
 */
module Routes {
  import opened Labels

  /** An entry of order_ids: the depot placeholder at position 0, order identifiers after it. */
  datatype OrderKey = DepotKey | OrderId(id: int)

  /** One output row of a service-area solve: Order_ID, CEE_ID and Sequence. */
  datatype Row = Row(order: OrderKey, cee: string, sequence: nat)

  /**
   * What the solver reports: `start[v]` is Start(v), `ends` the indices for
   * which IsEnd holds, `node[i]` is IndexToNode(i) and `next[i]` the value of
   * NextVar(i) in the solution.
   */
  datatype Solution = Solution(start: seq<nat>, ends: set<nat>, node: seq<nat>, next: seq<nat>)

  /** Following successors from index i reaches an end index within `fuel` steps. */
  predicate Reaches(s: Solution, i: nat, fuel: nat)
    decreases fuel
  {
    i < |s.node| && i < |s.next|
    && (i in s.ends || (fuel > 0 && Reaches(s, s.next[i], fuel - 1)))
  }

  /**
   * A solution over `nodeCount` nodes: every index names a node below
   * nodeCount, and every vehicle's path reaches an end. A path that reaches an
   * end at all does so within as many steps as there are indices, so the
   * bound |node| is no restriction.
   */
  predicate ValidSolution(s: Solution, nodeCount: nat)
  {
    && |s.next| == |s.node|
    && (forall i :: 0 <= i < |s.node| ==> s.node[i] < nodeCount)
    && (forall v :: 0 <= v < |s.start| ==> Reaches(s, s.start[v], |s.node|))
  }

  /** The nodes visited from index i up to (not including) the end index, in order. */
  function Visits(s: Solution, i: nat, fuel: nat): (r: seq<nat>)
    requires Reaches(s, i, fuel)
    ensures |r| <= fuel
    ensures forall x :: x in r ==> x in s.node
    decreases fuel
  {
    if i in s.ends then [] else [s.node[i]] + Visits(s, s.next[i], fuel - 1)
  }

  /** The nodes vehicle v visits, depot included. */
  function Route(s: Solution, nodeCount: nat, v: nat): (r: seq<nat>)
    requires ValidSolution(s, nodeCount) && v < |s.start|
    ensures forall x :: x in r ==> x < nodeCount
  {
    Visits(s, s.start[v], |s.node|)
  }

  /** The stops of a visit sequence: every node except the depot, in visiting order. */
  function Stops(nodes: seq<nat>): (r: seq<nat>)
    ensures |r| <= |nodes|
    ensures forall x :: x in r <==> x in nodes && x != 0
  {
    if nodes == [] then []
    else (if nodes[0] != 0 then [nodes[0]] else []) + Stops(nodes[1..])
  }

  /** The rows of one vehicle: its stops, labelled `cee`, numbered from 1. */
  function Numbered(keys: seq<OrderKey>, stops: seq<nat>, cee: string): seq<Row>
    requires forall x :: x in stops ==> x < |keys|
  {
    seq(|stops|, j requires 0 <= j < |stops| => assert stops[j] in stops; Row(keys[stops[j]], cee, j + 1))
  }

  /** The rows vehicle v emits. */
  function VehicleRows(s: Solution, keys: seq<OrderKey>, v: nat): seq<Row>
    requires ValidSolution(s, |keys|) && v < |s.start|
  {
    Numbered(keys, Stops(Route(s, |keys|, v)), Label(v))
  }

  /** The rows of vehicles 0 .. v-1, in vehicle order. */
  function RowsUpTo(s: Solution, keys: seq<OrderKey>, v: nat): seq<Row>
    requires ValidSolution(s, |keys|) && v <= |s.start|
  {
    if v == 0 then [] else RowsUpTo(s, keys, v - 1) + VehicleRows(s, keys, v - 1)
  }

  /** Everything extraction emits for a solution: all vehicles' rows. */
  function Extraction(s: Solution, keys: seq<OrderKey>): seq<Row>
    requires ValidSolution(s, |keys|)
  {
    RowsUpTo(s, keys, |s.start|)
  }

  /** The stops of vehicles 0 .. v-1, in vehicle order. */
  function StopsUpTo(s: Solution, nodeCount: nat, v: nat): (r: seq<nat>)
    requires ValidSolution(s, nodeCount) && v <= |s.start|
    ensures forall x :: x in r ==> 0 < x < nodeCount
  {
    if v == 0 then [] else StopsUpTo(s, nodeCount, v - 1) + Stops(Route(s, nodeCount, v - 1))
  }

  /** The rows among `rows` that carry label `cee`. */
  function RowsLabelled(rows: seq<Row>, cee: string): (r: seq<Row>)
    ensures forall x :: x in r <==> x in rows && x.cee == cee
  {
    if rows == [] then []
    else (if rows[0].cee == cee then [rows[0]] else []) + RowsLabelled(rows[1..], cee)
  }

  /** The order keys of rows, in row order. */
  function OrdersOf(rows: seq<Row>): seq<OrderKey>
  {
    seq(|rows|, i requires 0 <= i < |rows| => rows[i].order)
  }

  /** The keys at a sequence of nodes. */
  function KeysAt(keys: seq<OrderKey>, nodes: seq<nat>): seq<OrderKey>
    requires forall x :: x in nodes ==> x < |keys|
  {
    seq(|nodes|, i requires 0 <= i < |nodes| => assert nodes[i] in nodes; keys[nodes[i]])
  }

  /**
   * The extraction loop. For every vehicle slot in turn, walk from its start
   * index to an end index, skip the depot, and append one row per stop with a
   * sequence number that counts from 1.
   */
  method ExtractRoutes(s: Solution, keys: seq<OrderKey>) returns (rows: seq<Row>)
    requires ValidSolution(s, |keys|)
    ensures rows == Extraction(s, keys)
  {
    rows := [];
    for v := 0 to |s.start|
      invariant rows == RowsUpTo(s, keys, v)
    {
      var block := WalkVehicle(s, keys, v);
      rows := rows + block;
    }
  }

  /** The body of the extraction loop for vehicle slot v: the rows it appends. */
  method WalkVehicle(s: Solution, keys: seq<OrderKey>, v: nat) returns (block: seq<Row>)
    requires ValidSolution(s, |keys|) && v < |s.start|
    ensures block == VehicleRows(s, keys, v)
  {
    var cee := Label(v);
    var index := s.start[v];
    var sequence := 1;
    ghost var route := Route(s, |keys|, v);
    ghost var fuel: nat := |s.node|;
    ghost var walked: seq<nat> := [];
    block := [];
    while index !in s.ends
      invariant Reaches(s, index, fuel)
      invariant route == walked + Visits(s, index, fuel)
      invariant sequence == |Stops(walked)| + 1
      invariant forall x :: x in Stops(walked) ==> x < |keys|
      invariant block == Numbered(keys, Stops(walked), cee)
      decreases fuel
    {
      var node := s.node[index];
      WalkStep(s, keys, route, walked, index, fuel, cee);
      if node != 0 {
        block := block + [Row(keys[node], cee, sequence)];
        sequence := sequence + 1;
      }
      walked := walked + [node];
      index := s.next[index];
      fuel := fuel - 1;
    }
    assert walked == route;
  }

  /** One step of the walk: what the loop of WalkVehicle needs to keep its invariants. */
  lemma WalkStep(s: Solution, keys: seq<OrderKey>, route: seq<nat>, walked: seq<nat>, index: nat, fuel: nat, cee: string)
    requires Reaches(s, index, fuel) && index !in s.ends
    requires route == walked + Visits(s, index, fuel)
    requires forall x :: x in route ==> x < |keys|
    requires forall x :: x in Stops(walked) ==> x < |keys|
    ensures fuel > 0 && Reaches(s, s.next[index], fuel - 1)
    ensures route == (walked + [s.node[index]]) + Visits(s, s.next[index], fuel - 1)
    ensures s.node[index] < |keys|
    ensures forall x :: x in Stops(walked + [s.node[index]]) ==> x < |keys|
    ensures |Stops(walked + [s.node[index]])| == |Stops(walked)| + (if s.node[index] != 0 then 1 else 0)
    ensures Numbered(keys, Stops(walked + [s.node[index]]), cee)
         == Numbered(keys, Stops(walked), cee)
            + (if s.node[index] != 0 then [Row(keys[s.node[index]], cee, |Stops(walked)| + 1)] else [])
  {
    var node := s.node[index];
    assert node in route;
    StopsSnoc(walked, node);
    NumberedSnoc(keys, Stops(walked), node, cee);
  }

  lemma {:induction false} StopsSnoc(nodes: seq<nat>, x: nat)
    ensures Stops(nodes + [x]) == Stops(nodes) + (if x != 0 then [x] else [])
    decreases |nodes|
  {
    if nodes == [] {
      assert nodes + [x] == [x];
    } else {
      assert (nodes + [x])[1..] == nodes[1..] + [x];
      StopsSnoc(nodes[1..], x);
    }
  }

  lemma NumberedSnoc(keys: seq<OrderKey>, stops: seq<nat>, x: nat, cee: string)
    requires forall y :: y in stops ==> y < |keys|
    requires x < |keys|
    ensures Numbered(keys, stops + (if x != 0 then [x] else []), cee)
         == Numbered(keys, stops, cee) + (if x != 0 then [Row(keys[x], cee, |stops| + 1)] else [])
  {
    if x == 0 {
      assert stops + [] == stops;
    }
  }

  lemma {:induction false} RowsLabelledAppend(a: seq<Row>, b: seq<Row>, cee: string)
    ensures RowsLabelled(a + b, cee) == RowsLabelled(a, cee) + RowsLabelled(b, cee)
    decreases |a|
  {
    if a == [] {
      assert a + b == b;
    } else {
      assert (a + b)[1..] == a[1..] + b;
      RowsLabelledAppend(a[1..], b, cee);
    }
  }

  /** The rows vehicle v emits are exactly its stops in visiting order, labelled CEE_{v+1} and numbered 1..k. */
  lemma VehicleRowsMeaning(s: Solution, keys: seq<OrderKey>, v: nat)
    requires ValidSolution(s, |keys|) && v < |s.start|
    ensures var stops := Stops(Route(s, |keys|, v));
            var rows := VehicleRows(s, keys, v);
            && |rows| == |stops|
            && forall j :: 0 <= j < |rows| ==>
                 0 < stops[j] < |keys| && rows[j] == Row(keys[stops[j]], Label(v), j + 1)
  {
    var stops := Stops(Route(s, |keys|, v));
    forall j | 0 <= j < |stops| ensures 0 < stops[j] < |keys| {
      assert stops[j] in stops;
    }
  }

  /** Every row carries the label of a vehicle slot below v. */
  predicate LabelsBelow(rows: seq<Row>, v: nat) {
    forall j :: 0 <= j < |rows| ==> VehicleOf(rows[j].cee).Some? && VehicleOf(rows[j].cee).value < v
  }

  /**
   * Rows come grouped by increasing vehicle slot, and a row's sequence number
   * is 1 when it opens its vehicle's block and its predecessor's plus one
   * otherwise.
   */
  predicate GroupedAndNumbered(rows: seq<Row>) {
    forall j :: 0 <= j < |rows| ==>
      && VehicleOf(rows[j].cee).Some?
      && (j > 0 ==> VehicleOf(rows[j - 1].cee).Some? && VehicleOf(rows[j - 1].cee).value <= VehicleOf(rows[j].cee).value)
      && rows[j].sequence == if j > 0 && rows[j - 1].cee == rows[j].cee then rows[j - 1].sequence + 1 else 1
  }

  /**
   * The labels, grouping and sequence numbers of the first v vehicles' rows:
   * every row names a vehicle slot below v by its label, blocks come in
   * increasing slot order, and numbering restarts at 1 with every block.
   */
  lemma {:induction false} RowsUpToNumbering(s: Solution, keys: seq<OrderKey>, v: nat)
    requires ValidSolution(s, |keys|) && v <= |s.start|
    ensures LabelsBelow(RowsUpTo(s, keys, v), v)
    ensures GroupedAndNumbered(RowsUpTo(s, keys, v))
    decreases v
  {
    if v > 0 {
      RowsUpToNumbering(s, keys, v - 1);
      VehicleRowsMeaning(s, keys, v - 1);
      AppendBlock(RowsUpTo(s, keys, v - 1), VehicleRows(s, keys, v - 1), v - 1);
    }
  }

  /** Appending the block of vehicle slot w, numbered 1..k, to rows of lower slots keeps them grouped and numbered. */
  lemma AppendBlock(before: seq<Row>, block: seq<Row>, w: nat)
    requires LabelsBelow(before, w) && GroupedAndNumbered(before)
    requires forall j :: 0 <= j < |block| ==> block[j].cee == Label(w) && block[j].sequence == j + 1
    ensures LabelsBelow(before + block, w + 1) && GroupedAndNumbered(before + block)
  {
    var rows := before + block;
    LabelRoundTrip(w, "");
    forall j | 0 <= j < |rows|
      ensures VehicleOf(rows[j].cee).Some? && VehicleOf(rows[j].cee).value < w + 1
    {
      if j >= |before| {
        assert rows[j] == block[j - |before|];
      }
    }
    forall j | 0 < j < |rows|
      ensures VehicleOf(rows[j - 1].cee).value <= VehicleOf(rows[j].cee).value
      ensures rows[j].sequence == if rows[j - 1].cee == rows[j].cee then rows[j - 1].sequence + 1 else 1
    {
      if j > |before| {
        assert rows[j] == block[j - |before|] && rows[j - 1] == block[j - 1 - |before|];
      } else if j == |before| {
        assert rows[j] == block[0] && rows[j - 1] == before[j - 1];
        assert VehicleOf(rows[j - 1].cee).value < w;
      }
    }
    if |before| == 0 && |rows| > 0 {
      assert rows[0] == block[0];
    }
  }

  /** The rows labelled CEE_{u+1} among the first v vehicles' rows: vehicle u's rows when u < v, none otherwise. */
  lemma {:induction false} RowsUpToLabelled(s: Solution, keys: seq<OrderKey>, v: nat, u: nat)
    requires ValidSolution(s, |keys|) && v <= |s.start| && u < |s.start|
    ensures RowsLabelled(RowsUpTo(s, keys, v), Label(u)) == if u < v then VehicleRows(s, keys, u) else []
    decreases v
  {
    if v > 0 {
      var before := RowsUpTo(s, keys, v - 1);
      var block := VehicleRows(s, keys, v - 1);
      assert RowsUpTo(s, keys, v) == before + block;
      RowsUpToLabelled(s, keys, v - 1, u);
      RowsLabelledAppend(before, block, Label(u));
      BlockLabelled(s, keys, v - 1, u);
    }
  }

  /** Filtering one vehicle's rows by a label keeps them all when it is that vehicle's label and none otherwise. */
  lemma BlockLabelled(s: Solution, keys: seq<OrderKey>, v: nat, u: nat)
    requires ValidSolution(s, |keys|) && v < |s.start|
    ensures RowsLabelled(VehicleRows(s, keys, v), Label(u)) == if u == v then VehicleRows(s, keys, v) else []
  {
    var block := VehicleRows(s, keys, v);
    VehicleRowsMeaning(s, keys, v);
    assert forall x :: x in block ==> x.cee == Label(v);
    LabelInjective(u, v);
    if u == v {
      AllLabelled(block, Label(u));
    } else {
      NoneLabelled(block, Label(u));
    }
  }

  lemma {:induction false} NoneLabelled(rows: seq<Row>, cee: string)
    requires forall x :: x in rows ==> x.cee != cee
    ensures RowsLabelled(rows, cee) == []
    decreases |rows|
  {
    if rows != [] {
      assert rows[0] in rows;
      NoneLabelled(rows[1..], cee);
    }
  }

  lemma {:induction false} AllLabelled(rows: seq<Row>, cee: string)
    requires forall x :: x in rows ==> x.cee == cee
    ensures RowsLabelled(rows, cee) == rows
    decreases |rows|
  {
    if rows != [] {
      AllLabelled(rows[1..], cee);
    }
  }

  /**
   * Per vehicle: the rows labelled CEE_{v+1} in the whole extraction are
   * exactly vehicle v's stops, keyed by order_ids[node], numbered 1..k in
   * visiting order; a vehicle that visits no order emits no row.
   */
  lemma ExtractionPerVehicle(s: Solution, keys: seq<OrderKey>, v: nat)
    requires ValidSolution(s, |keys|) && v < |s.start|
    ensures var mine := RowsLabelled(Extraction(s, keys), Label(v));
            var stops := Stops(Route(s, |keys|, v));
            && |mine| == |stops|
            && (forall j :: 0 <= j < |mine| ==>
                  0 < stops[j] < |keys| && mine[j] == Row(keys[stops[j]], Label(v), j + 1))
            && (stops == [] <==> forall x :: x in Extraction(s, keys) ==> x.cee != Label(v))
  {
    RowsUpToLabelled(s, keys, |s.start|, v);
    VehicleRowsMeaning(s, keys, v);
    var mine := RowsLabelled(Extraction(s, keys), Label(v));
    if Stops(Route(s, |keys|, v)) != [] {
      assert mine[0] in mine;
    }
  }

  /** The depot is never emitted: every row's order key is order_ids[node] for a node of at least 1. */
  lemma ExtractionKeys(s: Solution, keys: seq<OrderKey>)
    requires ValidSolution(s, |keys|)
    ensures forall x :: x in Extraction(s, keys) ==>
              exists node :: 1 <= node < |keys| && x.order == keys[node]
  {
    OrdersOfExtraction(s, keys, |s.start|);
    var rows := Extraction(s, keys);
    var stops := StopsUpTo(s, |keys|, |s.start|);
    forall x | x in rows
      ensures exists node :: 1 <= node < |keys| && x.order == keys[node]
    {
      var j :| 0 <= j < |rows| && rows[j] == x;
      assert OrdersOf(rows)[j] == KeysAt(keys, stops)[j];
      assert stops[j] in stops;
    }
  }

  lemma OrdersOfAppend(a: seq<Row>, b: seq<Row>)
    ensures OrdersOf(a + b) == OrdersOf(a) + OrdersOf(b)
  {
  }

  lemma KeysAtAppend(keys: seq<OrderKey>, a: seq<nat>, b: seq<nat>)
    requires forall x :: x in a ==> x < |keys|
    requires forall x :: x in b ==> x < |keys|
    ensures KeysAt(keys, a + b) == KeysAt(keys, a) + KeysAt(keys, b)
  {
  }

  /** The order keys of the first v vehicles' rows are the keys of their stops, in the same order. */
  lemma {:induction false} OrdersOfExtraction(s: Solution, keys: seq<OrderKey>, v: nat)
    requires ValidSolution(s, |keys|) && v <= |s.start|
    ensures OrdersOf(RowsUpTo(s, keys, v)) == KeysAt(keys, StopsUpTo(s, |keys|, v))
    decreases v
  {
    if v > 0 {
      OrdersOfExtraction(s, keys, v - 1);
      var stops := Stops(Route(s, |keys|, v - 1));
      OrdersOfAppend(RowsUpTo(s, keys, v - 1), VehicleRows(s, keys, v - 1));
      KeysAtAppend(keys, StopsUpTo(s, |keys|, v - 1), stops);
      assert OrdersOf(VehicleRows(s, keys, v - 1)) == KeysAt(keys, stops);
    }
  }

  /** Applying f to every element of a sequence. */
  function MapSeq<A, B>(f: A -> B, a: seq<A>): (r: seq<B>)
    ensures |r| == |a|
    ensures forall i :: 0 <= i < |a| ==> r[i] == f(a[i])
  {
    if a == [] then [] else [f(a[0])] + MapSeq(f, a[1..])
  }

  lemma MapSeqAppend<A, B>(f: A -> B, a: seq<A>, b: seq<A>)
    ensures MapSeq(f, a + b) == MapSeq(f, a) + MapSeq(f, b)
  {
  }

  /** Removing the same element from two permutations of each other leaves permutations of each other. */
  lemma RemoveMatching<A>(a: seq<A>, b: seq<A>, k: nat)
    requires multiset(a) == multiset(b) && a != [] && k < |b| && b[k] == a[0]
    ensures multiset(a[1..]) == multiset(b[..k] + b[k + 1..])
  {
    assert a == [a[0]] + a[1..];
    assert b == b[..k] + [b[k]] + b[k + 1..];
    assert multiset(a[1..]) == multiset(a) - multiset{a[0]};
    assert multiset(b[..k] + b[k + 1..]) == multiset(b) - multiset{b[k]};
  }

  lemma MapSeqSplit<A, B>(f: A -> B, left: seq<A>, x: A, right: seq<A>)
    ensures multiset(MapSeq(f, left + [x] + right)) == multiset(MapSeq(f, left + right)) + multiset{f(x)}
  {
    MapSeqAppend(f, left + [x], right);
    MapSeqAppend(f, left, [x]);
    MapSeqAppend(f, left, right);
  }

  /** Mapping two sequences that are permutations of each other gives sequences that are permutations of each other. */
  lemma {:induction false} MapSeqPermutation<A, B>(f: A -> B, a: seq<A>, b: seq<A>)
    requires multiset(a) == multiset(b)
    ensures multiset(MapSeq(f, a)) == multiset(MapSeq(f, b))
    decreases |a|
  {
    if a == [] {
      assert |b| == |multiset(b)| == 0;
    } else {
      var x, tail := a[0], a[1..];
      assert x in multiset(b);
      var k :| 0 <= k < |b| && b[k] == x;
      var left, right := b[..k], b[k + 1..];
      assert left + [x] + right == b;
      assert [] + [x] + tail == a;
      assert [] + tail == tail;
      RemoveMatching(a, b, k);
      MapSeqPermutation(f, tail, left + right);
      MapSeqSplit(f, [], x, tail);
      MapSeqSplit(f, left, x, right);
    }
  }

  /** The key of node x, for x below |keys|. */
  function KeyOf(keys: seq<OrderKey>): nat -> OrderKey
  {
    (x: nat) => if x < |keys| then keys[x] else DepotKey
  }

  lemma KeysAtIsMap(keys: seq<OrderKey>, nodes: seq<nat>)
    requires forall x :: x in nodes ==> x < |keys|
    ensures KeysAt(keys, nodes) == MapSeq(KeyOf(keys), nodes)
  {
    forall i | 0 <= i < |nodes| ensures KeysAt(keys, nodes)[i] == MapSeq(KeyOf(keys), nodes)[i] {
      assert nodes[i] in nodes;
    }
  }

  /** The node sequence 1, 2, ..., n - 1: every order node once. */
  function OrderNodes(n: nat): (r: seq<nat>)
    ensures |r| == if n == 0 then 0 else n - 1
    ensures forall i :: 0 <= i < |r| ==> r[i] == i + 1
  {
    if n <= 1 then [] else OrderNodes(n - 1) + [n - 1]
  }

  /**
   * When the solution visits every order node exactly once, the extraction
   * emits every order key exactly once: its order keys are a permutation of
   * order_ids without the depot.
   */
  lemma ExtractionComplete(s: Solution, keys: seq<OrderKey>)
    requires ValidSolution(s, |keys|)
    requires multiset(StopsUpTo(s, |keys|, |s.start|)) == multiset(OrderNodes(|keys|))
    ensures |keys| >= 1 ==> multiset(OrdersOf(Extraction(s, keys))) == multiset(keys[1..])
  {
    var stops := StopsUpTo(s, |keys|, |s.start|);
    var all := OrderNodes(|keys|);
    OrdersOfExtraction(s, keys, |s.start|);
    assert OrdersOf(Extraction(s, keys)) == KeysAt(keys, stops);
    KeysAtIsMap(keys, stops);
    MapSeqPermutation(KeyOf(keys), stops, all);
    if |keys| >= 1 {
      OrderNodesKeys(keys);
      KeysAtIsMap(keys, all);
    }
  }

  lemma OrderNodesKeys(keys: seq<OrderKey>)
    requires |keys| >= 1
    ensures forall x :: x in OrderNodes(|keys|) ==> x < |keys|
    ensures KeysAt(keys, OrderNodes(|keys|)) == keys[1..]
  {
    var all := OrderNodes(|keys|);
    assert forall x :: x in all ==> x < |keys|;
    var ks := KeysAt(keys, all);
    assert |ks| == |keys[1..]|;
    forall i | 0 <= i < |ks| ensures ks[i] == keys[1..][i] {
      assert all[i] == i + 1;
    }
  }
}
