# City & store delivery router — a Dafny model of the routing engine

This project models the routing engine of a Streamlit delivery planner. The
planner splits one store's delivery orders by service area (`sa_name`) and runs
`solve_vrp` on each area:

- it drops cancelled orders, and an area with no orders left yields no rows;
- it builds a depot-plus-orders problem in integer units: the demands, the
  vehicle capacity, a fleet-size estimate and a distance matrix;
- it passes that problem to a capacitated vehicle-routing solver;
- it walks each vehicle of the solution and emits `(Order_ID, CEE_ID, Sequence)`
  rows.

The store loop keeps the non-empty area plans, tags each of their rows with
the area's `sa_name`, and concatenates them in the order it saw the areas.

Modules:

- `Wrappers` (wrappers.dfy): `Option`.
- `Labels` (labels.dfy): the route label `CEE_{v+1}` and how it is written in
  decimal. It proves that a label can be read back to its vehicle slot, and
  that only a real label reads back as one.
- `Routes` (routes.dfy): the solver's answer as a value (`Solution`: each
  vehicle's start index, the end indices, the node of every index, and the
  successor of every index). It has the extraction loop (`ExtractRoutes`),
  proved against the specification function `Extraction`, and lemmas about
  labels, grouping, numbering, depot skipping and completeness.
- `Planning` (planning.dfy): `solve_vrp`. This covers filtering, the empty
  short-circuit, demand and capacity scaling, the fleet estimate, the matrix,
  and the call to the solver. The method `SolveVrp` is proved against
  `SolveRows`.
- `Store` (store.dfy): the per-`sa_name` loop (`PlanStore`), proved against
  `KeptPlans`/`Concat`.

Units: weights are counted in tenths of a kilogram, which is what
`int(x * 10)` produces. The defaults are 15 per order (`weight_per_order = 1.5`)
and 400 per vehicle (`capacity_kg = 40`). The fleet estimate
`ceil(n * w / cap) + 2` is therefore computed exactly, as `ceil(15n / 400) + 2`
for the defaults.

Injected collaborators (`Planning.Collaborators`) replace what cannot be
modelled directly:

- `locate` gives an order's position (the synthetic pincode/order-id
  coordinates);
- `centroid` gives the depot position (the mean of the positions);
- `dist` is the integer metric (`int(hypot(...) * 100000)`);
- `solver` is the routing library. It returns either no solution or a
  `Solution`. `WellBehaved` is the assumption made about it: every answer it
  gives is well formed for the problem, and every vehicle's successor path
  reaches an end index.

Three facts about the code that the model keeps as they are:

- The code does not renumber routes across a store: labels restart at
  `CEE_1` in every service area.
- An infeasible area and an empty area both yield no rows. No error type tells
  them apart.
- The customer join does no one-to-one checking.

## Model

| member | source | states |
|---|---|---|
| `Labels.Decimal` | streamlit_app.py:58 | the decimal text of a number has at least one character, is all digits, has no leading zero, and has one digit exactly when the number is below 10 |
| `Labels.DecimalThenValue` | streamlit_app.py:58 | reading back the decimal text of n gives n |
| `Labels.ValueThenDecimal` | streamlit_app.py:58 | a digit string with no leading zero is the decimal text of its own value (the reverse round trip) |
| `Labels.Label` | streamlit_app.py:58 | the label of slot v is `CEE_` followed by a canonical decimal number |
| `Labels.LabelRoundTrip` | streamlit_app.py:58 | `VehicleOf(Label(v)) == Some(v)`, and any string that reads back as slot v is `Label(v)`: label and reader are exact inverses |
| `Labels.LabelInjective` | streamlit_app.py:52-58 | two vehicle slots of one solve have the same label exactly when they are the same slot |
| `Routes.Visits` | streamlit_app.py:55-60 | the nodes met on the way from an index to the end index are nodes of the solution, and there are no more of them than the step bound |
| `Routes.Route` | streamlit_app.py:53-60 | every node a vehicle visits is below the node count of the problem |
| `Routes.Stops` | streamlit_app.py:57 | the stops are exactly the visited nodes other than the depot (node 0) |
| `Routes.ExtractRoutes` | streamlit_app.py:50-61 | the loop over vehicle slots, walking successors from Start(v) to an end index, returns exactly `Extraction`: each vehicle's non-depot stops in visiting order, numbered from 1, vehicle after vehicle |
| `Routes.WalkVehicle` | streamlit_app.py:53-60 | the walk of one vehicle from Start(v) to an end index appends exactly `VehicleRows(v)`: its non-depot stops in visiting order, labelled `CEE_{v+1}`, numbered from 1 |
| `Routes.VehicleRowsMeaning` | streamlit_app.py:54-59 | vehicle v emits one row per stop; row j holds `order_ids[stop j]` with a node of at least 1, label `CEE_{v+1}` and sequence j+1 |
| `Routes.RowsUpToNumbering` | streamlit_app.py:52-60 | every row's label names a vehicle slot of the fleet; rows are grouped by increasing slot; a row's sequence is 1 when it opens its vehicle's block and otherwise its predecessor's plus one |
| `Routes.ExtractionPerVehicle` | streamlit_app.py:52-60 | in the whole output, the rows labelled `CEE_{v+1}` are exactly vehicle v's stops numbered 1..k in visiting order; a vehicle emits no row exactly when it visits no order |
| `Routes.ExtractionKeys` | streamlit_app.py:56-58 | the depot is never emitted: every row's key is `order_ids[node]` for some node of at least 1 |
| `Routes.ExtractionComplete` | streamlit_app.py:50-60 | if the solution visits every order node exactly once, the emitted keys are a permutation of `order_ids` without the depot |
| `Planning.Active` | streamlit_app.py:12 | the kept orders are exactly the input orders whose status is not `cancelled`, and there are no more of them than inputs |
| `Planning.ActiveCounts` | streamlit_app.py:12 | every non-cancelled order is kept exactly as many times as it occurs in the input, and every cancelled order is kept zero times |
| `Planning.ActiveAppend` | streamlit_app.py:12 | filtering a concatenation is concatenating the filtered parts, so the kept orders stay in input order |
| `Planning.ActiveIdempotent` | streamlit_app.py:12 | filtering the kept orders again changes nothing: all of them are active |
| `Planning.Locations` | streamlit_app.py:16-20 | the locations list is the depot first, at the centroid of the order positions that follow it, then the position of every given order in order |
| `Planning.Demands` | streamlit_app.py:23 | the demand vector has n+1 entries: 0 for the depot, then the per-order weight for every order |
| `Planning.DemandsTotal` | streamlit_app.py:23 | the total demand of n orders is n times the per-order weight |
| `Planning.CeilDiv` | streamlit_app.py:27 | the result is the least q with q * b >= a, which is ceil(a / b) |
| `Planning.FleetEstimate` | streamlit_app.py:27 | the estimate is at least 2; without the slack of 2 it covers n * weight; and it is the least count that does |
| `Planning.FleetCoversDemand` | streamlit_app.py:23-27 | number of vehicles times vehicle capacity is at least the sum of the demand vector |
| `Planning.MatrixProperties` | streamlit_app.py:28 | for a metric that is symmetric and zero from a point to itself, the matrix is square over the locations, symmetric, zero on the diagonal, and holds the metric in every cell |
| `Planning.Prepare` | streamlit_app.py:12-28 | nothing is prepared (the solver is not reached) exactly when no order is active; otherwise order_ids, matrix and demands all have n+1 entries and the depot is node 0 |
| `Planning.PrepareMeaning` | streamlit_app.py:16-28 | order_ids is the depot followed by the active ids in input order; demands are 0 then the per-order weight; every vehicle has the configured capacity; num_vehicles is the fleet estimate for the active orders, at least 2, and covers total demand; the matrix is the metric over the centroid of the active orders' positions followed by those positions, (n+1)×(n+1), symmetric with a zero diagonal when the metric is |
| `Planning.PrepareIgnoresCancelled` | streamlit_app.py:12-28 | cancelled orders never reach the solver: a group prepares exactly what its active orders alone prepare (order_ids, centroid, matrix, demands, fleet) and yields the same rows |
| `Planning.SolveVrp` | streamlit_app.py:10-61 | returns exactly `SolveRows`: no rows for an empty group or when there is no solution, otherwise the extraction of the solver's answer |
| `Planning.EmptyGroup` | streamlit_app.py:12-13 | a group whose orders are all cancelled yields no rows, and no problem is built for it |
| `Planning.SolveRowsFromActive` | streamlit_app.py:12-21 | every emitted Order_ID is the id of a non-cancelled order of the group, so it is never a cancelled order and never the depot |
| `Planning.SolveRowsNumbering` | streamlit_app.py:52-60 | for any solver answer, rows are grouped by increasing vehicle slot below `num_vehicles` and numbered 1, 2, … within each vehicle |
| `Planning.SolveRowsComplete` | streamlit_app.py:50-60 | if the answer visits every order node once, the emitted Order_IDs are a permutation of the active orders' ids |
| `Planning.LoadOfStops` | streamlit_app.py:23 | with the depot weighing 0 and each order weighing w, a route carries w times its number of stops |
| `Planning.SolveRowsWithinCapacity` | streamlit_app.py:39-43 | if the answer respects the capacity dimension, each vehicle's rows times the per-order weight are within the vehicle capacity |
| `Store.Tagged` | streamlit_app.py:88 | tagging keeps every row and sets its sa_name |
| `Store.PlanStore` | streamlit_app.py:84-92 | the loop returns the non-empty area plans in area order (`KeptPlans`) and their concatenation |
| `Store.KeptPlansNonEmpty` | streamlit_app.py:86-89 | every kept plan is non-empty and is the tagged plan of one of the areas |
| `Store.FinalPlanIsAllAreas` | streamlit_app.py:87-92 | dropping empty plans does not change the final table: it is every area's plan concatenated in the order the areas were seen |
| `Store.StoreRowsOrigin` | streamlit_app.py:85-89 | every store row carries the sa_name of an area and the id of a non-cancelled order of that same area |
| `Store.AreaRowsUnchanged` | streamlit_app.py:85-92 | when sa_names are distinct, the store rows tagged with an area's name are exactly that area's own solve, with the same keys, labels (restarting at CEE_1) and sequence numbers, in the same order |

## Left out

- The OR-tools solver is not modelled. This covers the index manager, the
  routing model, the transit and demand callbacks, the capacity dimension, the
  cheapest-arc first solution, the 1-second limit and `SolveWithParameters`.
  It is a foreign library. Its answer is a parameter (`Collaborators.solver`),
  and its well-formedness is assumed (`WellBehaved`).
- Planning.SolveRowsWithinCapacity: the capacity limit per route can only be
  assumed (`RespectsCapacity`), because it is the solver's promise. For the
  same reason, `Routes.ExtractionComplete` and
  `Planning.SolveRowsComplete` assume that each order node is visited exactly
  once.
- The coordinates are not modelled: the pincode/order-id formulas, the
  centroid depot, `np.hypot` and `int(... * 100000)`. They are floating-point
  numerics. They appear as the injected `locate`, `centroid` and `dist`; the
  matrix properties are stated for any symmetric metric that is zero from a
  point to itself.
- Planning.FleetEstimate: float division and `np.ceil` are computed exactly.
  Parameters are taken in tenths of a kilogram, so `int(x * 10)` loses nothing.
  Parameters with more decimal places, where `int` truncates, are not modelled.
- A `capacity_kg` of 0 makes the source divide by zero, but only for a group
  with active orders, because the empty group returns before the division.
  `Planning.Prepare` and the members that use it require a positive capacity
  for every group, the empty one included. The store loop always passes the
  default of 40 kg.
- `groupby('sa_name')` (sorting the keys and partitioning the rows) is pandas
  behaviour. The store loop takes the areas as a sequence in the order groupby
  yields them. Their distinct names are a precondition of
  `Store.AreaRowsUnchanged` only.
- The `pd.merge` join of `fullName`/`address` onto the plan is not modelled.
  It is library merge semantics.
- The Streamlit UI is not modelled: page setup, CSV upload and parsing, the
  city and store select boxes, the button, the success and warning messages,
  the table display and the CSV download. This is I/O. The store loop's result
  is the table before the customer join; an empty result is the case where
  the UI warns.
- Order columns that the engine does not read (city, store, customer name,
  address) are not modelled.
