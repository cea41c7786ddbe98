/**
 * Route assembly (build_route_tsp in aviram.py): pick the selected
 * institute's addresses, geocode the start and every waypoint (failing on the
 * first one that does not resolve), order them with the nearest-neighbour
 * solver from the start, and pin the destination last.
 */
module RouteBuilder {
  import opened Wrappers
  import opened Sheet
  import opened TspSolver

  /** A resolved coordinate pair, in degrees. */
  datatype LatLon = LatLon(lat: real, lon: real)

  /** The itinerary handed to the renderer: addresses and their coordinates, in visiting order. */
  datatype Route = Route(addresses: seq<string>, coords: seq<LatLon>)

  /** Which lookup aborted the build, and for which address. */
  datatype RouteError =
    | StartNotFound(address: string)
    | AddressNotFound(address: string)
    | DestinationNotFound(address: string)

  /** The destination is used when it is given and non-empty (Python truthiness). */
  predicate HasDestination(dest: Option<string>) {
    dest.Some? && dest.value != ""
  }

  /**
   * A row contributes a waypoint: its institute text passes the selection
   * filter, its address is present, and the address is neither the start nor
   * the destination.
   */
  predicate IsWaypointRow(row: Row, belongs: string -> bool, start: string, dest: Option<string>) {
    belongs(CellText(row.institute)) && row.address.Text? &&
    row.address.s != start && dest != Some(row.address.s)
  }

  /** The waypoint addresses, in sheet order. */
  function CandidateAddresses(rows: seq<Row>, belongs: string -> bool, start: string, dest: Option<string>): (ws: seq<string>)
    ensures |ws| <= |rows|
    ensures forall a :: a in ws ==> a != start && dest != Some(a)
    ensures forall i :: 0 <= i < |rows| && IsWaypointRow(rows[i], belongs, start, dest) ==> rows[i].address.s in ws
    ensures forall a :: a in ws ==> exists i :: 0 <= i < |rows| && IsWaypointRow(rows[i], belongs, start, dest) && rows[i].address == Text(a)
  {
    if rows == [] then []
    else
      var init := rows[..|rows| - 1];
      var row := rows[|rows| - 1];
      var ws := CandidateAddresses(init, belongs, start, dest);
      assert forall i :: 0 <= i < |init| ==> init[i] == rows[i];
      if IsWaypointRow(row, belongs, start, dest) then ws + [row.address.s] else ws
  }

  /**
   * Waypoints keep sheet order and repetitions: the waypoints of two
   * consecutive blocks of rows are those of the first block followed by
   * those of the second, and a single row contributes its own address
   * exactly when it is a waypoint row.
   */
  lemma {:induction false} CandidateAddressesInSheetOrder(a: seq<Row>, b: seq<Row>, belongs: string -> bool, start: string, dest: Option<string>)
    ensures CandidateAddresses(a + b, belongs, start, dest) ==
      CandidateAddresses(a, belongs, start, dest) + CandidateAddresses(b, belongs, start, dest)
    ensures |a| == 1 ==>
      (CandidateAddresses(a, belongs, start, dest) ==
       if IsWaypointRow(a[0], belongs, start, dest) then [a[0].address.s] else [])
    decreases |b|
  {
    if |a| == 1 {
      assert a[..0] == [];
    }
    if b == [] {
      assert a + b == a;
    } else {
      var init := b[..|b| - 1];
      assert (a + b)[..|a + b| - 1] == a + init;
      assert (a + b)[|a + b| - 1] == b[|b| - 1];
      CandidateAddressesInSheetOrder(a, init, belongs, start, dest);
    }
  }

  /** Position `i` holds the first address of `addrs` that does not resolve. */
  predicate FirstUnresolved(addrs: seq<string>, geocode: string -> Option<LatLon>, i: int) {
    0 <= i < |addrs| && geocode(addrs[i]).None? &&
    forall j :: 0 <= j < i ==> geocode(addrs[j]).Some?
  }

  /**
   * Geocode each address in turn: all coordinates when every lookup
   * resolves, otherwise the first address that does not.
   */
  function GeocodeAll(addrs: seq<string>, geocode: string -> Option<LatLon>): (r: Result<seq<LatLon>, string>)
    ensures r.Success? <==> forall i :: 0 <= i < |addrs| ==> geocode(addrs[i]).Some?
    ensures r.Success? ==> |r.value| == |addrs|
    ensures r.Success? ==> forall i :: 0 <= i < |addrs| ==> geocode(addrs[i]) == Some(r.value[i])
    ensures r.Failure? ==> exists i :: FirstUnresolved(addrs, geocode, i) && r.error == addrs[i]
  {
    if addrs == [] then Success([])
    else
      var init := addrs[..|addrs| - 1];
      var last := addrs[|addrs| - 1];
      assert forall i :: 0 <= i < |init| ==> init[i] == addrs[i];
      match GeocodeAll(init, geocode)
      case Failure(a) => Failure(a)
      case Success(points) =>
        match geocode(last)
        case None => assert FirstUnresolved(addrs, geocode, |addrs| - 1); Failure(last)
        case Some(p) => Success(points + [p])
  }

  /** Once the first unresolved address is known, it is the one GeocodeAll reports. */
  lemma GeocodeAllFailsAt(addrs: seq<string>, geocode: string -> Option<LatLon>, i: int)
    requires FirstUnresolved(addrs, geocode, i)
    ensures GeocodeAll(addrs, geocode) == Failure(addrs[i])
  {
    var r := GeocodeAll(addrs, geocode);
    var i' :| FirstUnresolved(addrs, geocode, i') && r.error == addrs[i'];
    assert i' == i;
  }

  /** `xs` listed in the order of the indices in `order`. */
  function Reorder<T>(xs: seq<T>, order: seq<nat>): (r: seq<T>)
    requires InRange(order, |xs|)
    ensures |r| == |order| && forall k :: 0 <= k < |order| ==> r[k] == xs[order[k]]
  {
    seq(|order|, k requires 0 <= k < |order| => xs[order[k]])
  }

  /** Every address the build looks up, in the order it looks them up. */
  function Lookups(start: string, waypoints: seq<string>, dest: Option<string>): seq<string> {
    [start] + waypoints + (if HasDestination(dest) then [dest.value] else [])
  }

  /** What build_route_tsp returns or raises. */
  function BuildRoute(rows: seq<Row>, belongs: string -> bool, start: string, dest: Option<string>,
                      geocode: string -> Option<LatLon>, dist: (LatLon, LatLon) -> real): (r: Result<Route, RouteError>)
    ensures geocode(start).None? <==> r == Failure(StartNotFound(start))
    ensures r.Success? ==> |r.value.addresses| == |r.value.coords| > 0 && r.value.addresses[0] == start
    ensures r.Success? ==> HasDestination(dest) == (|r.value.addresses| == 2 + |CandidateAddresses(rows, belongs, start, dest)|)
  {
    var waypoints := CandidateAddresses(rows, belongs, start, dest);
    match geocode(start)
    case None => Failure(StartNotFound(start))
    case Some(startPoint) =>
      match GeocodeAll(waypoints, geocode)
      case Failure(a) => Failure(AddressNotFound(a))
      case Success(points) =>
        var coords := [startPoint] + points;
        var order := Tour(coords, dist);
        var addresses := Reorder([start] + waypoints, order);
        var sorted := Reorder(coords, order);
        if !HasDestination(dest) then Success(Route(addresses, sorted))
        else
          match geocode(dest.value)
          case None => Failure(DestinationNotFound(dest.value))
          case Some(p) => Success(Route(addresses + [dest.value], sorted + [p]))
  }

  /**
   * build_route_tsp: geocode the start, then each waypoint in turn, raising
   * on the first failure; solve; reorder; geocode and append the destination.
   */
  method BuildRouteTsp(rows: seq<Row>, belongs: string -> bool, start: string, dest: Option<string>,
                       geocode: string -> Option<LatLon>, dist: (LatLon, LatLon) -> real)
    returns (result: Result<Route, RouteError>)
    ensures result == BuildRoute(rows, belongs, start, dest, geocode, dist)
  {
    var waypoints := CandidateAddresses(rows, belongs, start, dest);
    var startPoint := geocode(start);
    if startPoint.None? {
      return Failure(StartNotFound(start));
    }
    var coords := [startPoint.value];
    var validAddresses := [start];
    for i := 0 to |waypoints|
      invariant forall j :: 0 <= j < i ==> geocode(waypoints[j]).Some?
      invariant |coords| == i + 1 && coords[0] == startPoint.value
      invariant forall j :: 0 <= j < i ==> geocode(waypoints[j]) == Some(coords[j + 1])
      invariant validAddresses == [start] + waypoints[..i]
    {
      var point := geocode(waypoints[i]);
      if point.None? {
        GeocodeAllFailsAt(waypoints, geocode, i);
        return Failure(AddressNotFound(waypoints[i]));
      }
      coords := coords + [point.value];
      validAddresses := validAddresses + [waypoints[i]];
    }
    assert validAddresses == [start] + waypoints;
    ghost var points := GeocodeAll(waypoints, geocode);
    assert points.Success? && coords == [startPoint.value] + points.value;
    var order := SolveNearestNeighbor(coords, dist);
    var sortedAddresses := Reorder(validAddresses, order);
    var sortedCoords := Reorder(coords, order);
    if HasDestination(dest) {
      var destPoint := geocode(dest.value);
      if destPoint.None? {
        return Failure(DestinationNotFound(dest.value));
      }
      sortedAddresses := sortedAddresses + [dest.value];
      sortedCoords := sortedCoords + [destPoint.value];
    }
    result := Success(Route(sortedAddresses, sortedCoords));
  }

  lemma ReorderConcat<T>(xs: seq<T>, a: seq<nat>, b: seq<nat>)
    requires InRange(a, |xs|) && InRange(b, |xs|)
    ensures InRange(a + b, |xs|)
    ensures Reorder(xs, a + b) == Reorder(xs, a) + Reorder(xs, b)
  {
  }

  lemma ReorderPrefix<T>(xs: seq<T>, n: nat, order: seq<nat>)
    requires n <= |xs| && InRange(order, n)
    ensures Reorder(xs[..n], order) == Reorder(xs, order)
  {
  }

  /** Taking the largest index out of a permutation leaves a permutation of the rest. */
  lemma RemoveLargest(order: seq<nat>, n: nat, m: nat)
    requires n > 0 && IsIndexPermutation(order, n) && m < |order| && order[m] == n - 1
    ensures IsIndexPermutation(order[..m] + order[m + 1..], n - 1)
  {
    var rest := order[..m] + order[m + 1..];
    assert forall k :: 0 <= k < |rest| ==> rest[k] == (if k < m then order[k] else order[k + 1]);
  }

  lemma SpliceMultiset<T>(left: seq<T>, right: seq<T>, init: seq<T>, x: T)
    requires multiset(left + right) == multiset(init)
    ensures multiset(left + [x] + right) == multiset(init + [x])
  {
  }

  lemma ReorderSplit<T>(xs: seq<T>, before: seq<nat>, i: nat, after: seq<nat>)
    requires InRange(before, |xs|) && i < |xs| && InRange(after, |xs|)
    ensures InRange(before + [i] + after, |xs|)
    ensures Reorder(xs, before + [i] + after) == Reorder(xs, before) + [xs[i]] + Reorder(xs, after)
  {
    ReorderConcat(xs, before, [i]);
    ReorderConcat(xs, before + [i], after);
  }

  lemma PositionOfLargest(order: seq<nat>, n: nat) returns (m: nat)
    requires n > 0 && IsIndexPermutation(order, n)
    ensures m < |order| && order[m] == n - 1
  {
    PermutationCovers(order, n);
    assert n - 1 in order;
    m :| 0 <= m < |order| && order[m] == n - 1;
  }

  lemma ReorderAround<T>(xs: seq<T>, order: seq<nat>, m: nat)
    requires InRange(order, |xs|) && m < |order|
    ensures InRange(order[..m], |xs|) && InRange(order[m + 1..], |xs|)
    ensures Reorder(xs, order) == Reorder(xs, order[..m]) + [xs[order[m]]] + Reorder(xs, order[m + 1..])
  {
    assert order == order[..m] + [order[m]] + order[m + 1..];
    ReorderSplit(xs, order[..m], order[m], order[m + 1..]);
  }

  lemma ReorderWithout<T>(xs: seq<T>, order: seq<nat>, m: nat)
    requires |xs| > 0 && IsIndexPermutation(order, |xs|) && m < |order| && order[m] == |xs| - 1
    ensures IsIndexPermutation(order[..m] + order[m + 1..], |xs| - 1)
    ensures Reorder(xs[..|xs| - 1], order[..m] + order[m + 1..]) == Reorder(xs, order[..m]) + Reorder(xs, order[m + 1..])
  {
    var rest := order[..m] + order[m + 1..];
    RemoveLargest(order, |xs|, m);
    ReorderPrefix(xs, |xs| - 1, rest);
    ReorderConcat(xs, order[..m], order[m + 1..]);
  }

  /** Listing `xs` in the order of a permutation of its indices keeps every element, with its multiplicity. */
  lemma {:induction false} ReorderMultiset<T>(xs: seq<T>, order: seq<nat>)
    requires IsIndexPermutation(order, |xs|)
    ensures multiset(Reorder(xs, order)) == multiset(xs)
    decreases |xs|
  {
    var n := |xs|;
    if n > 0 {
      var m := PositionOfLargest(order, n);
      var init := xs[..n - 1];
      assert InRange(order[..m], n) && InRange(order[m + 1..], n) by {
        ReorderAround(xs, order, m);
      }
      var left, right := Reorder(xs, order[..m]), Reorder(xs, order[m + 1..]);
      assert multiset(left + right) == multiset(init) by {
        ReorderWithout(xs, order, m);
        ReorderMultiset(init, order[..m] + order[m + 1..]);
      }
      assert Reorder(xs, order) == left + [xs[n - 1]] + right by {
        ReorderAround(xs, order, m);
      }
      SpliceMultiset(left, right, init, xs[n - 1]);
      assert xs == init + [xs[n - 1]];
    }
  }

  /** Every address in `addrs` resolves. */
  predicate AllResolve(addrs: seq<string>, geocode: string -> Option<LatLon>) {
    forall i :: 0 <= i < |addrs| ==> geocode(addrs[i]).Some?
  }

  lemma LookupsResolve(start: string, waypoints: seq<string>, dest: Option<string>, geocode: string -> Option<LatLon>)
    ensures AllResolve(Lookups(start, waypoints, dest), geocode) <==>
      geocode(start).Some? && AllResolve(waypoints, geocode) && (HasDestination(dest) ==> geocode(dest.value).Some?)
  {
    var lookups, w := Lookups(start, waypoints, dest), |waypoints|;
    assert lookups[0] == start;
    assert forall i :: 0 <= i < w ==> lookups[i + 1] == waypoints[i];
    assert HasDestination(dest) ==> |lookups| == w + 2 && lookups[w + 1] == dest.value;
    assert !HasDestination(dest) ==> |lookups| == w + 1;
    if geocode(start).Some? && AllResolve(waypoints, geocode) && (HasDestination(dest) ==> geocode(dest.value).Some?) {
      forall i | 0 <= i < |lookups|
        ensures geocode(lookups[i]).Some?
      {
        if 1 <= i <= w {
          assert lookups[i] == waypoints[i - 1];
        }
      }
    }
  }

  lemma FirstUnresolvedWaypoint(start: string, waypoints: seq<string>, dest: Option<string>,
                                geocode: string -> Option<LatLon>, i: int)
    requires geocode(start).Some? && FirstUnresolved(waypoints, geocode, i)
    ensures FirstUnresolved(Lookups(start, waypoints, dest), geocode, i + 1)
    ensures Lookups(start, waypoints, dest)[i + 1] == waypoints[i]
  {
    var lookups := Lookups(start, waypoints, dest);
    assert forall j :: 0 <= j < |waypoints| ==> lookups[j + 1] == waypoints[j];
  }

  lemma FirstUnresolvedDestination(start: string, waypoints: seq<string>, dest: Option<string>,
                                   geocode: string -> Option<LatLon>)
    requires geocode(start).Some? && AllResolve(waypoints, geocode)
    requires HasDestination(dest) && geocode(dest.value).None?
    ensures FirstUnresolved(Lookups(start, waypoints, dest), geocode, |waypoints| + 1)
    ensures Lookups(start, waypoints, dest)[|waypoints| + 1] == dest.value
  {
    var lookups := Lookups(start, waypoints, dest);
    assert forall j :: 0 <= j < |waypoints| ==> lookups[j + 1] == waypoints[j];
  }

  /**
   * The build fails exactly when some lookup (start, then each waypoint in
   * sheet order, then the destination) does not resolve; it then names the
   * first such address, and blames the start exactly when the start does not
   * resolve.
   */
  lemma BuildRouteFailsFast(rows: seq<Row>, belongs: string -> bool, start: string, dest: Option<string>,
                            geocode: string -> Option<LatLon>, dist: (LatLon, LatLon) -> real)
    ensures var r := BuildRoute(rows, belongs, start, dest, geocode, dist);
      var lookups := Lookups(start, CandidateAddresses(rows, belongs, start, dest), dest);
      (r.Success? <==> AllResolve(lookups, geocode)) &&
      (r.Failure? ==> exists i :: FirstUnresolved(lookups, geocode, i) && r.error.address == lookups[i]) &&
      (r.Failure? ==> (r.error.StartNotFound? <==> geocode(start).None?))
  {
    var waypoints := CandidateAddresses(rows, belongs, start, dest);
    var lookups := Lookups(start, waypoints, dest);
    LookupsResolve(start, waypoints, dest, geocode);
    if geocode(start).None? {
      assert FirstUnresolved(lookups, geocode, 0);
    } else {
      var all := GeocodeAll(waypoints, geocode);
      if all.Failure? {
        var i :| FirstUnresolved(waypoints, geocode, i) && all.error == waypoints[i];
        FirstUnresolvedWaypoint(start, waypoints, dest, geocode, i);
      } else if HasDestination(dest) && geocode(dest.value).None? {
        FirstUnresolvedDestination(start, waypoints, dest, geocode);
      }
    }
  }

  /**
   * A built route starts at the start address, ends at the destination when
   * one is given, has one stop per lookup, and pairs every address with its
   * own geocode.
   */
  lemma BuildRouteShape(rows: seq<Row>, belongs: string -> bool, start: string, dest: Option<string>,
                        geocode: string -> Option<LatLon>, dist: (LatLon, LatLon) -> real)
    ensures var r := BuildRoute(rows, belongs, start, dest, geocode, dist);
      var waypoints := CandidateAddresses(rows, belongs, start, dest);
      r.Success? ==>
        var route := r.value;
        |route.addresses| == |route.coords| == 1 + |waypoints| + (if HasDestination(dest) then 1 else 0) &&
        route.addresses[0] == start &&
        (HasDestination(dest) ==> route.addresses[|route.addresses| - 1] == dest.value) &&
        forall k :: 0 <= k < |route.addresses| ==> geocode(route.addresses[k]) == Some(route.coords[k])
  {
    var r := BuildRoute(rows, belongs, start, dest, geocode, dist);
    var waypoints := CandidateAddresses(rows, belongs, start, dest);
    if r.Success? {
      var startPoint := geocode(start).value;
      var points := GeocodeAll(waypoints, geocode).value;
      var coords := [startPoint] + points;
      var addrs := [start] + waypoints;
      assert forall i :: 0 <= i < |addrs| ==> geocode(addrs[i]) == Some(coords[i]);
    }
  }

  /** A built route visits every looked-up address exactly as often as it was looked up. */
  lemma BuildRouteVisitsEveryStop(rows: seq<Row>, belongs: string -> bool, start: string, dest: Option<string>,
                                  geocode: string -> Option<LatLon>, dist: (LatLon, LatLon) -> real)
    ensures var r := BuildRoute(rows, belongs, start, dest, geocode, dist);
      r.Success? ==>
        multiset(r.value.addresses) == multiset(Lookups(start, CandidateAddresses(rows, belongs, start, dest), dest))
  {
    var r := BuildRoute(rows, belongs, start, dest, geocode, dist);
    var waypoints := CandidateAddresses(rows, belongs, start, dest);
    if r.Success? {
      var coords := [geocode(start).value] + GeocodeAll(waypoints, geocode).value;
      ReorderMultiset([start] + waypoints, Tour(coords, dist));
    }
  }

  /**
   * Up to the destination, each stop of a built route is at least as close
   * to the stop before it as every stop that comes later.
   */
  lemma BuildRouteIsNearestNeighbour(rows: seq<Row>, belongs: string -> bool, start: string, dest: Option<string>,
                                     geocode: string -> Option<LatLon>, dist: (LatLon, LatLon) -> real)
    ensures var r := BuildRoute(rows, belongs, start, dest, geocode, dist);
      var m := 1 + |CandidateAddresses(rows, belongs, start, dest)|;
      r.Success? ==> (|r.value.coords| >= m &&
        forall k, j :: 1 <= k <= j < m ==>
          dist(r.value.coords[k - 1], r.value.coords[k]) <= dist(r.value.coords[k - 1], r.value.coords[j]))
  {
    var r := BuildRoute(rows, belongs, start, dest, geocode, dist);
    var waypoints := CandidateAddresses(rows, belongs, start, dest);
    var m := 1 + |waypoints|;
    if r.Success? {
      var coords := [geocode(start).value] + GeocodeAll(waypoints, geocode).value;
      var t := Tour(coords, dist);
      var sorted := Reorder(coords, t);
      TourIsGreedy(coords, dist);
      assert forall k :: 0 <= k < m ==> r.value.coords[k] == sorted[k];
      forall k, j | 1 <= k <= j < m
        ensures dist(sorted[k - 1], sorted[k]) <= dist(sorted[k - 1], sorted[j])
      {
        assert IsFirstNearest(coords, dist, t[k - 1], t[..k], m, t[k]);
        assert t[j] !in t[..k];
      }
    }
  }
}
