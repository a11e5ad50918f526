/**
 * One service-area solve (solve_vrp): drop cancelled orders, stop early on an
 * empty group, build the depot-plus-orders problem in integer units (demands,
 * vehicle capacity, fleet-size estimate, distance matrix), hand it to the
 * routing solver and extract the routes of whatever solution comes back.
 *
 * Weights are counted in tenths of a kilogram, the unit the source converts
 * to with int(x * 10): the defaults are 15 per order and 400 per vehicle.
 * The coordinate derivation, the centroid depot, the metric and the solver
 * are the injected `Collaborators`.
 */
module Planning {
  import opened Wrappers
  import opened Labels
  import opened Routes

  /** The fields of an input row that a solve reads. */
  datatype Order = Order(orderId: int, pincode: int, status: string)

  predicate Cancelled(o: Order) {
    o.status == "cancelled"
  }

  /** The orders whose status is not "cancelled", in input order. */
  function Active(orders: seq<Order>): (r: seq<Order>)
    ensures |r| <= |orders|
    ensures forall o :: o in r <==> o in orders && !Cancelled(o)
  {
    if orders == [] then []
    else (if Cancelled(orders[0]) then [] else [orders[0]]) + Active(orders[1..])
  }

  /** Every active order is kept as often as it occurs in the input, every cancelled one never. */
  lemma {:induction false} ActiveCounts(orders: seq<Order>)
    ensures forall o :: multiset(Active(orders))[o] == if Cancelled(o) then 0 else multiset(orders)[o]
    decreases |orders|
  {
    if orders != [] {
      assert orders == [orders[0]] + orders[1..];
      ActiveCounts(orders[1..]);
    }
  }

  /** Filtering distributes over concatenation, so the kept orders keep their input order. */
  lemma {:induction false} ActiveAppend(a: seq<Order>, b: seq<Order>)
    ensures Active(a + b) == Active(a) + Active(b)
    decreases |a|
  {
    if a == [] {
      assert a + b == b;
    } else {
      assert (a + b)[1..] == a[1..] + b;
      ActiveAppend(a[1..], b);
    }
  }

  /** Filtering twice is filtering once: every kept order is active. */
  lemma {:induction false} ActiveIdempotent(orders: seq<Order>)
    ensures Active(Active(orders)) == Active(orders)
    decreases |orders|
  {
    if orders != [] {
      var head := if Cancelled(orders[0]) then [] else [orders[0]];
      ActiveAppend(head, Active(orders[1..]));
      ActiveIdempotent(orders[1..]);
      if !Cancelled(orders[0]) {
        assert head[1..] == [];
      }
    }
  }

  /** capacity_kg and weight_per_order, in tenths of a kilogram. */
  datatype Params = Params(capacityTenths: nat, weightPerOrderTenths: nat)

  /** capacity_kg = 40, weight_per_order = 1.5. */
  const Defaults: Params := Params(400, 15)

  /** The demand vector: 0 for the depot, then the per-order weight for each of n orders. */
  function Demands(n: nat, weight: nat): (r: seq<nat>)
    ensures |r| == n + 1 && r[0] == 0
    ensures forall i :: 1 <= i <= n ==> r[i] == weight
  {
    [0] + seq(n, _ => weight)
  }

  function Sum(xs: seq<nat>): nat
  {
    if xs == [] then 0 else xs[0] + Sum(xs[1..])
  }

  /** The total demand of a group of n orders is n times the per-order weight. */
  lemma {:induction false} DemandsTotal(n: nat, weight: nat)
    ensures Sum(Demands(n, weight)) == n * weight
  {
    if n > 0 {
      DemandsTotal(n - 1, weight);
      var d := Demands(n, weight);
      assert d[1..] == [weight] + Demands(n - 1, weight)[1..];
    }
  }

  /** ceil(a / b) for a non-negative a and a positive b. */
  function CeilDiv(a: nat, b: nat): (q: nat)
    requires b > 0
    ensures q * b >= a
    ensures q == 0 || (q - 1) * b < a
  {
    var r := (a + b - 1) / b;
    assert (a + b - 1) == r * b + (a + b - 1) % b;
    r
  }

  /**
   * The fleet-size estimate: the fewest vehicles whose capacities add up to
   * the group's demand, plus a slack of two.
   */
  function FleetEstimate(n: nat, weight: nat, capacity: nat): (k: nat)
    requires capacity > 0
    ensures k >= 2
    ensures (k - 2) * capacity >= n * weight
    ensures k == 2 || (k - 3) * capacity < n * weight
  {
    CeilDiv(n * weight, capacity) + 2
  }

  /** The offered fleet always covers the group's demand: vehicles times capacity is at least the summed demand vector. */
  lemma FleetCoversDemand(n: nat, weight: nat, capacity: nat)
    requires capacity > 0
    ensures FleetEstimate(n, weight, capacity) * capacity >= Sum(Demands(n, weight))
  {
    DemandsTotal(n, weight);
    var k := FleetEstimate(n, weight, capacity);
    assert k * capacity == (k - 2) * capacity + 2 * capacity;
  }

  /** The matrix of pairwise distances between locations, row i from location i. */
  function DistanceMatrix<P>(locations: seq<P>, dist: (P, P) -> int): seq<seq<int>>
  {
    seq(|locations|, i requires 0 <= i < |locations| =>
      seq(|locations|, j requires 0 <= j < |locations| => dist(locations[i], locations[j])))
  }

  predicate Square(m: seq<seq<int>>, n: nat) {
    |m| == n && forall i :: 0 <= i < n ==> |m[i]| == n
  }

  /**
   * For a metric that is symmetric and zero between a point and itself, the
   * matrix is square over the locations, symmetric, zero on the diagonal and
   * holds the metric at every cell.
   */
  lemma MatrixProperties<P>(locations: seq<P>, dist: (P, P) -> int)
    requires forall a, b :: dist(a, b) == dist(b, a)
    requires forall a :: dist(a, a) == 0
    ensures var m := DistanceMatrix(locations, dist);
            && Square(m, |locations|)
            && (forall i, j :: 0 <= i < |m| && 0 <= j < |m| ==> m[i][j] == m[j][i] == dist(locations[i], locations[j]))
            && (forall i :: 0 <= i < |m| ==> m[i][i] == 0)
  {
  }

  /** What the solver is given: the routing model over |matrix| nodes with the depot at node 0. */
  datatype Problem = Problem(matrix: seq<seq<int>>, demands: seq<nat>, vehicleCapacity: nat,
                             numVehicles: nat, depot: nat)

  /** A group ready for the solver: order_ids (depot first) and the problem. */
  datatype Prepared = Prepared(keys: seq<OrderKey>, problem: Problem)

  /**
   * The components a solve depends on but that are not part of this model:
   * the position of an order, the centroid of positions (the depot), the
   * integer metric between positions, and the routing solver.
   */
  datatype Collaborators<!P> = Collaborators(locate: Order -> P, centroid: seq<P> -> P,
                                            dist: (P, P) -> int, solver: Problem -> Option<Solution>)

  /** What the routing library promises: no solution, or a well-formed one over the problem's nodes with one start per vehicle. */
  predicate Answers(p: Problem, answer: Option<Solution>) {
    answer.Some? ==> ValidSolution(answer.value, |p.matrix|) && |answer.value.start| == p.numVehicles
  }

  ghost predicate WellBehaved(solver: Problem -> Option<Solution>) {
    forall p :: Answers(p, solver(p))
  }

  function OrderKeys(active: seq<Order>): (keys: seq<OrderKey>)
    ensures |keys| == |active|
    ensures forall i :: 0 <= i < |active| ==> keys[i] == OrderId(active[i].orderId)
  {
    seq(|active|, i requires 0 <= i < |active| => OrderId(active[i].orderId))
  }

  /**
   * The locations list of a group: the depot (the centroid of the orders'
   * positions) first, then the position of every given order, in order.
   */
  function Locations<P>(active: seq<Order>, c: Collaborators<P>): (r: seq<P>)
    ensures |r| == |active| + 1
    ensures forall i :: 1 <= i < |r| ==> r[i] == c.locate(active[i - 1])
    ensures r[0] == c.centroid(r[1..])
  {
    var positions := seq(|active|, i requires 0 <= i < |active| => c.locate(active[i]));
    [c.centroid(positions)] + positions
  }

  /**
   * Everything built before the solver is called, or None when no order of
   * the group is active (the solver is then never reached).
   */
  function Prepare<P>(orders: seq<Order>, params: Params, c: Collaborators<P>): (r: Option<Prepared>)
    requires params.capacityTenths > 0
    ensures r.None? <==> Active(orders) == []
    ensures r.Some? ==>
              var n := |Active(orders)|;
              && |r.value.keys| == |r.value.problem.matrix| == |r.value.problem.demands| == n + 1
              && r.value.problem.depot == 0
  {
    var active := Active(orders);
    if |active| == 0 then None
    else
      var locations := Locations(active, c);
      var keys := [DepotKey] + OrderKeys(active);
      var weight := params.weightPerOrderTenths;
      var capacity := params.capacityTenths;
      Some(Prepared(keys, Problem(DistanceMatrix(locations, c.dist), Demands(|active|, weight), capacity,
                                  FleetEstimate(|active|, weight, capacity), 0)))
  }

  /** The rows of one service-area solve. */
  function SolveRows<P>(orders: seq<Order>, params: Params, c: Collaborators<P>): seq<Row>
    requires params.capacityTenths > 0 && WellBehaved(c.solver)
  {
    match Prepare(orders, params, c)
    case None => []
    case Some(prepared) =>
      assert Answers(prepared.problem, c.solver(prepared.problem));
      match c.solver(prepared.problem)
      case None => []
      case Some(solution) => Extraction(solution, prepared.keys)
  }

  /** solve_vrp: build the problem, call the solver and extract the rows of its solution. */
  method SolveVrp<P>(orders: seq<Order>, params: Params, c: Collaborators<P>) returns (rows: seq<Row>)
    requires params.capacityTenths > 0 && WellBehaved(c.solver)
    ensures rows == SolveRows(orders, params, c)
  {
    var prepared := Prepare(orders, params, c);
    if prepared.None? {
      return [];
    }
    var answer := c.solver(prepared.value.problem);
    assert Answers(prepared.value.problem, answer);
    rows := [];
    if answer.Some? {
      rows := ExtractRoutes(answer.value, prepared.value.keys);
    }
  }

  /** A group without active orders yields no rows, and nothing is prepared for the solver. */
  lemma EmptyGroup<P>(orders: seq<Order>, params: Params, c: Collaborators<P>)
    requires params.capacityTenths > 0 && WellBehaved(c.solver)
    requires forall o :: o in orders ==> Cancelled(o)
    ensures Prepare(orders, params, c).None?
    ensures SolveRows(orders, params, c) == []
  {
    NoneActive(orders);
  }

  lemma {:induction false} NoneActive(orders: seq<Order>)
    requires forall o :: o in orders ==> Cancelled(o)
    ensures Active(orders) == []
  {
    if orders != [] {
      assert forall o :: o in orders[1..] ==> o in orders;
      NoneActive(orders[1..]);
    }
  }

  /**
   * What is handed to the solver for a group with n active orders: order_ids
   * is the depot followed by the active orders' identifiers in input order;
   * the demand vector is 0 for the depot and the per-order weight for every
   * order; every vehicle gets the configured capacity; the fleet has at least
   * two vehicles and covers the total demand; and the matrix is square over
   * the n + 1 locations, symmetric with a zero diagonal when the metric is.
   */
  lemma PrepareMeaning<P>(orders: seq<Order>, params: Params, c: Collaborators<P>)
    requires params.capacityTenths > 0
    requires Active(orders) != []
    ensures var active := Active(orders);
            var p := Prepare(orders, params, c).value.problem;
            var keys := Prepare(orders, params, c).value.keys;
            && |keys| == |active| + 1 && keys[0] == DepotKey
            && (forall k :: 1 <= k < |keys| ==> keys[k] == OrderId(active[k - 1].orderId))
            && |p.demands| == |active| + 1 && p.demands[0] == 0
            && (forall k :: 1 <= k < |p.demands| ==> p.demands[k] == params.weightPerOrderTenths)
            && p.vehicleCapacity == params.capacityTenths
            && p.numVehicles == FleetEstimate(|active|, params.weightPerOrderTenths, params.capacityTenths)
            && p.numVehicles >= 2
            && p.numVehicles * p.vehicleCapacity >= Sum(p.demands)
            && p.matrix == DistanceMatrix(Locations(active, c), c.dist)
            && Square(p.matrix, |active| + 1)
            && ((forall a, b :: c.dist(a, b) == c.dist(b, a)) && (forall a :: c.dist(a, a) == 0) ==>
                  && (forall i, j :: 0 <= i < |p.matrix| && 0 <= j < |p.matrix| ==> p.matrix[i][j] == p.matrix[j][i])
                  && (forall i :: 0 <= i < |p.matrix| ==> p.matrix[i][i] == 0))
  {
    var active := Active(orders);
    var locations := Locations(active, c);
    FleetCoversDemand(|active|, params.weightPerOrderTenths, params.capacityTenths);
    if (forall a, b :: c.dist(a, b) == c.dist(b, a)) && (forall a :: c.dist(a, a) == 0) {
      MatrixProperties(locations, c.dist);
    }
  }

  /**
   * Cancelled orders never reach the solver: a group prepares exactly what
   * its active orders alone prepare (the same order_ids, the same centroid
   * and matrix, the same demands and fleet), and so yields the same rows.
   */
  lemma PrepareIgnoresCancelled<P>(orders: seq<Order>, params: Params, c: Collaborators<P>)
    requires params.capacityTenths > 0
    ensures Prepare(orders, params, c) == Prepare(Active(orders), params, c)
    ensures WellBehaved(c.solver) ==> SolveRows(orders, params, c) == SolveRows(Active(orders), params, c)
  {
    ActiveIdempotent(orders);
  }

  /**
   * No emitted row is the depot or a cancelled order: every row's Order_ID is
   * the identifier of an active order of the group.
   */
  lemma SolveRowsFromActive<P>(orders: seq<Order>, params: Params, c: Collaborators<P>)
    requires params.capacityTenths > 0 && WellBehaved(c.solver)
    ensures forall row :: row in SolveRows(orders, params, c) ==>
              exists o :: o in orders && !Cancelled(o) && row.order == OrderId(o.orderId)
  {
    var prepared := Prepare(orders, params, c);
    if prepared.Some? {
      var active := Active(orders);
      assert Answers(prepared.value.problem, c.solver(prepared.value.problem));
      var answer := c.solver(prepared.value.problem);
      if answer.Some? {
        var keys := prepared.value.keys;
        PrepareMeaning(orders, params, c);
        ExtractionKeys(answer.value, keys);
        forall row | row in SolveRows(orders, params, c)
          ensures exists o :: o in orders && !Cancelled(o) && row.order == OrderId(o.orderId)
        {
          var node :| 1 <= node < |keys| && row.order == keys[node];
          assert active[node - 1] in active;
        }
      }
    }
  }

  /**
   * Whatever the solver returns, the rows of a solve come grouped by vehicle
   * slot in increasing order, each labelled CEE_{v+1} for a slot v of the
   * offered fleet, and numbered 1, 2, ... within each vehicle.
   */
  lemma SolveRowsNumbering<P>(orders: seq<Order>, params: Params, c: Collaborators<P>)
    requires params.capacityTenths > 0 && WellBehaved(c.solver)
    ensures GroupedAndNumbered(SolveRows(orders, params, c))
    ensures forall row :: row in SolveRows(orders, params, c) ==>
              && Prepare(orders, params, c).Some?
              && VehicleOf(row.cee).Some?
              && VehicleOf(row.cee).value < Prepare(orders, params, c).value.problem.numVehicles
  {
    var prepared := Prepare(orders, params, c);
    if prepared.Some? {
      assert Answers(prepared.value.problem, c.solver(prepared.value.problem));
      var answer := c.solver(prepared.value.problem);
      if answer.Some? {
        var rows := SolveRows(orders, params, c);
        RowsUpToNumbering(answer.value, prepared.value.keys, |answer.value.start|);
        forall row | row in rows
          ensures VehicleOf(row.cee).Some? && VehicleOf(row.cee).value < prepared.value.problem.numVehicles
        {
          var j :| 0 <= j < |rows| && rows[j] == row;
        }
      }
    }
  }

  /**
   * When the solver's answer visits every order node exactly once, every
   * active order is emitted exactly once: the emitted Order_IDs are a
   * permutation of the active orders' identifiers.
   */
  lemma SolveRowsComplete<P>(orders: seq<Order>, params: Params, c: Collaborators<P>, s: Solution)
    requires params.capacityTenths > 0 && WellBehaved(c.solver)
    requires Prepare(orders, params, c).Some?
    requires c.solver(Prepare(orders, params, c).value.problem) == Some(s)
    requires var n := |Prepare(orders, params, c).value.keys|;
             ValidSolution(s, n) && multiset(StopsUpTo(s, n, |s.start|)) == multiset(OrderNodes(n))
    ensures multiset(OrdersOf(SolveRows(orders, params, c))) == multiset(OrderKeys(Active(orders)))
  {
    var keys := Prepare(orders, params, c).value.keys;
    PrepareMeaning(orders, params, c);
    ExtractionComplete(s, keys);
    assert keys[1..] == OrderKeys(Active(orders));
  }

  /** The demand carried along a sequence of visited nodes. */
  function Load(demands: seq<nat>, nodes: seq<nat>): nat
    requires forall x :: x in nodes ==> x < |demands|
  {
    if nodes == [] then 0
    else
      assert nodes[0] in nodes && forall x :: x in nodes[1..] ==> x in nodes;
      demands[nodes[0]] + Load(demands, nodes[1..])
  }

  /** With the depot at 0 and every order weighing `weight`, a route carries weight times its number of stops. */
  lemma {:induction false} LoadOfStops(n: nat, weight: nat, nodes: seq<nat>)
    requires forall x :: x in nodes ==> x <= n
    ensures Load(Demands(n, weight), nodes) == weight * |Stops(nodes)|
  {
    if nodes != [] {
      var d := Demands(n, weight);
      var tail := nodes[1..];
      assert forall x :: x in tail ==> x in nodes;
      assert nodes[0] in nodes;
      LoadOfStops(n, weight, tail);
      var k := |Stops(tail)|;
      assert Load(d, nodes) == d[nodes[0]] + Load(d, tail);
      if nodes[0] != 0 {
        assert |Stops(nodes)| == k + 1;
        MulSucc(weight, k);
      } else {
        assert |Stops(nodes)| == k;
      }
    }
  }

  lemma MulSucc(a: nat, k: nat)
    ensures a * (k + 1) == a + a * k
  {
  }

  /** The solver's capacity dimension: no vehicle's route carries more than the vehicle capacity. */
  predicate RespectsCapacity(p: Problem, s: Solution)
    requires ValidSolution(s, |p.demands|)
  {
    forall v :: 0 <= v < |s.start| ==> Load(p.demands, Route(s, |p.demands|, v)) <= p.vehicleCapacity
  }

  /**
   * When the solver's answer respects the capacity dimension, each vehicle's
   * rows weigh at most the vehicle capacity: its number of rows times the
   * per-order weight is within capacity_kg.
   */
  lemma SolveRowsWithinCapacity<P>(orders: seq<Order>, params: Params, c: Collaborators<P>, s: Solution, v: nat)
    requires params.capacityTenths > 0 && WellBehaved(c.solver)
    requires Prepare(orders, params, c).Some?
    requires var p := Prepare(orders, params, c).value.problem;
             c.solver(p) == Some(s) && ValidSolution(s, |p.demands|) && RespectsCapacity(p, s)
    requires v < |s.start|
    ensures |RowsLabelled(SolveRows(orders, params, c), Label(v))| * params.weightPerOrderTenths
            <= params.capacityTenths
  {
    var prepared := Prepare(orders, params, c).value;
    var n := |Active(orders)|;
    var w := params.weightPerOrderTenths;
    PrepareMeaning(orders, params, c);
    assert prepared.problem.demands == Demands(n, w);
    var route := Route(s, n + 1, v);
    assert SolveRows(orders, params, c) == Extraction(s, prepared.keys);
    ExtractionPerVehicle(s, prepared.keys, v);
    assert |RowsLabelled(Extraction(s, prepared.keys), Label(v))| == |Stops(route)|;
    LoadOfStops(n, w, route);
    assert Load(prepared.problem.demands, route) <= params.capacityTenths;
  }
}
