/**
 * The store plan: the orders of one store are solved service area by service
 * area, in the order groupby('sa_name') yields the areas; a non-empty area
 * plan has every row tagged with its area's name and is kept, and the kept
 * plans are concatenated. Route labels are those of each area's own solve:
 * CEE_1, CEE_2, ... start again in every area.
 */
module Store {
  import opened Labels
  import opened Routes
  import opened Planning

  /** One service area of the store: its sa_name and its rows. */
  datatype Area = Area(saName: string, orders: seq<Order>)

  /** A row of the store plan: a solve's row with the sa_name column added. */
  datatype PlanRow = PlanRow(order: OrderKey, cee: string, sequence: nat, saName: string)

  /** The rows of a solve with the sa_name column set to `sa`. */
  function Tagged(rows: seq<Row>, sa: string): (r: seq<PlanRow>)
    ensures |r| == |rows|
    ensures forall i :: 0 <= i < |rows| ==>
              r[i] == PlanRow(rows[i].order, rows[i].cee, rows[i].sequence, sa)
  {
    seq(|rows|, i requires 0 <= i < |rows| => PlanRow(rows[i].order, rows[i].cee, rows[i].sequence, sa))
  }

  /** The plan of one area: its solve with the default parameters, tagged with the area's name. */
  function AreaPlan<P>(area: Area, c: Collaborators<P>): seq<PlanRow>
    requires WellBehaved(c.solver)
  {
    Tagged(SolveRows(area.orders, Defaults, c), area.saName)
  }

  /** all_store_routes once the areas have been processed: the non-empty area plans, in area order. */
  function KeptPlans<P>(areas: seq<Area>, c: Collaborators<P>): seq<seq<PlanRow>>
    requires WellBehaved(c.solver)
  {
    if areas == [] then []
    else
      var plan := AreaPlan(areas[|areas| - 1], c);
      KeptPlans(areas[..|areas| - 1], c) + (if plan == [] then [] else [plan])
  }

  /** pd.concat: the plans' rows one after the other. */
  function Concat(plans: seq<seq<PlanRow>>): seq<PlanRow>
  {
    if plans == [] then [] else Concat(plans[..|plans| - 1]) + plans[|plans| - 1]
  }

  /** Every area's plan, empty or not, one after the other in area order. */
  function StoreRows<P>(areas: seq<Area>, c: Collaborators<P>): seq<PlanRow>
    requires WellBehaved(c.solver)
  {
    if areas == [] then [] else StoreRows(areas[..|areas| - 1], c) + AreaPlan(areas[|areas| - 1], c)
  }

  /**
   * The per-area loop: solve each area, keep the non-empty plans tagged with
   * their sa_name, and concatenate what was kept.
   */
  method PlanStore<P>(areas: seq<Area>, c: Collaborators<P>) returns (plans: seq<seq<PlanRow>>, finalPlan: seq<PlanRow>)
    requires WellBehaved(c.solver)
    ensures plans == KeptPlans(areas, c)
    ensures finalPlan == Concat(plans)
  {
    plans := [];
    for k := 0 to |areas|
      invariant plans == KeptPlans(areas[..k], c)
    {
      assert areas[..k + 1][..k] == areas[..k];
      var rows := SolveVrp(areas[k].orders, Defaults, c);
      if rows != [] {
        plans := plans + [Tagged(rows, areas[k].saName)];
      }
    }
    assert areas[..|areas|] == areas;
    finalPlan := Concat(plans);
  }

  /** Every kept plan is non-empty and is the tagged plan of one of the areas. */
  lemma {:induction false} KeptPlansNonEmpty<P>(areas: seq<Area>, c: Collaborators<P>)
    requires WellBehaved(c.solver)
    ensures forall plan :: plan in KeptPlans(areas, c) ==>
              plan != [] && exists area :: area in areas && plan == AreaPlan(area, c)
  {
    if areas != [] {
      var init := areas[..|areas| - 1];
      KeptPlansNonEmpty(init, c);
      assert forall area :: area in init ==> area in areas;
      assert areas[|areas| - 1] in areas;
    }
  }

  lemma {:induction false} ConcatAppend(a: seq<seq<PlanRow>>, b: seq<seq<PlanRow>>)
    ensures Concat(a + b) == Concat(a) + Concat(b)
    decreases |b|
  {
    if b == [] {
      assert a + b == a;
    } else {
      var init := b[..|b| - 1];
      assert (a + b)[..|a + b| - 1] == a + init;
      ConcatAppend(a, init);
    }
  }

  /**
   * Dropping the empty plans changes nothing in the final table: it is every
   * area's plan concatenated in area order.
   */
  lemma {:induction false} FinalPlanIsAllAreas<P>(areas: seq<Area>, c: Collaborators<P>)
    requires WellBehaved(c.solver)
    ensures Concat(KeptPlans(areas, c)) == StoreRows(areas, c)
  {
    if areas != [] {
      var init := areas[..|areas| - 1];
      var plan := AreaPlan(areas[|areas| - 1], c);
      FinalPlanIsAllAreas(init, c);
      ConcatAppend(KeptPlans(init, c), if plan == [] then [] else [plan]);
      assert Concat([plan]) == Concat([]) + plan;
    }
  }

  /**
   * Every row of the store plan is tagged with the sa_name of an area and
   * names an active order of that very area: never the depot and never a
   * cancelled order.
   */
  lemma {:induction false} StoreRowsOrigin<P>(areas: seq<Area>, c: Collaborators<P>)
    requires WellBehaved(c.solver)
    ensures forall row :: row in StoreRows(areas, c) ==>
              exists area :: area in areas && row.saName == area.saName
                && exists o :: o in area.orders && !Cancelled(o) && row.order == OrderId(o.orderId)
  {
    if areas != [] {
      var init := areas[..|areas| - 1];
      var last := areas[|areas| - 1];
      StoreRowsOrigin(init, c);
      assert forall area :: area in init ==> area in areas;
      assert last in areas;
      var rows := SolveRows(last.orders, Defaults, c);
      SolveRowsFromActive(last.orders, Defaults, c);
      forall row | row in AreaPlan(last, c)
        ensures row.saName == last.saName
        ensures exists o :: o in last.orders && !Cancelled(o) && row.order == OrderId(o.orderId)
      {
        var i :| 0 <= i < |AreaPlan(last, c)| && AreaPlan(last, c)[i] == row;
        assert rows[i] in rows;
      }
    }
  }

  /** The rows of the store plan tagged with sa_name `sa`. */
  function RowsOfArea(rows: seq<PlanRow>, sa: string): (r: seq<PlanRow>)
    ensures forall x :: x in r <==> x in rows && x.saName == sa
  {
    if rows == [] then []
    else (if rows[0].saName == sa then [rows[0]] else []) + RowsOfArea(rows[1..], sa)
  }

  lemma {:induction false} RowsOfAreaAppend(a: seq<PlanRow>, b: seq<PlanRow>, sa: string)
    ensures RowsOfArea(a + b, sa) == RowsOfArea(a, sa) + RowsOfArea(b, sa)
    decreases |a|
  {
    if a == [] {
      assert a + b == b;
    } else {
      assert (a + b)[1..] == a[1..] + b;
      RowsOfAreaAppend(a[1..], b, sa);
    }
  }

  lemma {:induction false} RowsOfAreaAll(rows: seq<PlanRow>, sa: string)
    requires forall x :: x in rows ==> x.saName == sa
    ensures RowsOfArea(rows, sa) == rows
    decreases |rows|
  {
    if rows != [] {
      RowsOfAreaAll(rows[1..], sa);
    }
  }

  lemma {:induction false} RowsOfAreaNone(rows: seq<PlanRow>, sa: string)
    requires forall x :: x in rows ==> x.saName != sa
    ensures RowsOfArea(rows, sa) == []
    decreases |rows|
  {
    if rows != [] {
      assert rows[0] in rows;
      RowsOfAreaNone(rows[1..], sa);
    }
  }

  predicate DistinctNames(areas: seq<Area>) {
    forall i, j :: 0 <= i < j < |areas| ==> areas[i].saName != areas[j].saName
  }

  /**
   * With distinct sa_names, as groupby gives them, the rows of the store plan
   * tagged with an area's name are exactly that area's own solve, unchanged:
   * same order keys, same CEE labels (restarting at CEE_1 in every area), same
   * sequence numbers, in the same order.
   */
  lemma {:induction false} AreaRowsUnchanged<P>(areas: seq<Area>, c: Collaborators<P>, k: nat)
    requires WellBehaved(c.solver) && DistinctNames(areas) && k < |areas|
    ensures RowsOfArea(StoreRows(areas, c), areas[k].saName) == AreaPlan(areas[k], c)
    decreases |areas|
  {
    var init := areas[..|areas| - 1];
    var last := areas[|areas| - 1];
    var sa := areas[k].saName;
    RowsOfAreaAppend(StoreRows(init, c), AreaPlan(last, c), sa);
    StoreRowsOrigin(init, c);
    if k == |areas| - 1 {
      forall x | x in StoreRows(init, c) ensures x.saName != sa {
        var area :| area in init && x.saName == area.saName
                    && exists o :: o in area.orders && !Cancelled(o) && x.order == OrderId(o.orderId);
        var i :| 0 <= i < |init| && init[i] == area;
        assert areas[i] == area;
      }
      RowsOfAreaNone(StoreRows(init, c), sa);
      RowsOfAreaAll(AreaPlan(last, c), sa);
    } else {
      assert init[k] == areas[k];
      AreaRowsUnchanged(init, c, k);
      assert last.saName != sa;
      RowsOfAreaNone(AreaPlan(last, c), sa);
    }
  }
}
