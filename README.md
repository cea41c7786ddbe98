# Route planner core, modelled in Dafny

`aviram.py` is a small web application. It reads a spreadsheet of addresses
and institutes. For one selected institute it fills in a missing city on
every address, using the city of that institute's own address. It then
geocodes a start address, the institute's addresses and an optional
destination. It orders the stops with a greedy nearest-neighbour tour from
the start and appends the destination at the end.

This project models the three parts of that pipeline that carry the logic:

- `TspSolver`: `solve_tsp_nearest_neighbor`. The method
  `SolveNearestNeighbor` keeps the source's `visited` flags as a
  `bool` array and its `order` list as a sequence. It is proved equal to
  `Tour`, a recursive specification built from the one-step scan
  `Nearest`. `Tour` is then characterised declaratively by `IsGreedyTour`:
  - the tour is a permutation of the indices that starts at 0;
  - each step goes to the closest unvisited point;
  - ties go to the lowest index, because the source's comparison is strict.
  The point type and the distance are parameters.
- `AddressNormalizer`: `add_default_city_to_addresses` and its inner
  `ensure_city_in_address`, as pure functions over a sheet of `Row`s.
  `Strip` models Python's `str.strip()` with the full `str.isspace`
  character set.
- `RouteBuilder`: `build_route_tsp`. The imperative method `BuildRouteTsp`
  follows the source loop. It geocodes the start, then each waypoint in
  sheet order, and stops at the first failed lookup. It is proved equal to
  the specification function `BuildRoute`. The lemmas about `BuildRoute`
  cover:
  - fail-fast, with the error naming the first address that does not resolve;
  - the shape of the route, with the start first and the destination last;
  - every looked-up address visited exactly once;
  - the nearest-neighbour property of the returned coordinates.

Three things the source gets from outside are parameters of the model:
- the geocoder (`string -> Option<LatLon>`, where `None` stands for `(None, None)`);
- the distance;
- the case-insensitive institute filter (`belongs`).

Spreadsheet cells are `Missing` (a NaN) or `Text`. `str()` of a missing cell
is `"nan"`.

Three behaviours of the code are worth stating on their own:
- The normaliser is idempotent only when the default city is a usable
  locality: a non-empty string with no comma that is not all digits. With an
  empty default city, each pass appends another `", "`.
  `AddressNormalizer.EnsureCityNotIdempotentForEmptyCity` proves this.
- `build_route_tsp` raises no error when no row passes the institute filter.
  It returns a route of the start alone, or the start and the destination.
  `RouteBuilder.BuildRouteShape` covers this with zero waypoints.
- The normaliser runs over the whole sheet in `show_route`, before the build
  and outside it. The model keeps the two operations separate.

## Model

| member | source | states |
|---|---|---|
| TspSolver.SolveNearestNeighbor | aviram.py:50-72 | the order returned by the visited-array loop is exactly the greedy tour `Tour`, and it satisfies `IsGreedyTour`: a permutation of `0..n-1` starting at 0 (empty for no points), each step to the nearest unvisited point, ties to the lowest index |
| TspSolver.Nearest | aviram.py:61-68 | the inner scan finds an unvisited index below the bound exactly when one exists; what it finds is unvisited and in range |
| TspSolver.NearestCharacterization | aviram.py:61-68 | the scan returns `b` if and only if `b` is unvisited, no farther than any other unvisited point, and strictly closer than every unvisited point before it |
| TspSolver.NearestFindsOne | aviram.py:63-70 | while fewer than `n` points are visited, the scan always finds a next point, so `visited[next_idx]` is never indexed with `None` |
| TspSolver.TourPrefix | aviram.py:55-70 | after `m` steps the order has length `m`, has no repeated index, stays in range and starts at 0 |
| TspSolver.Tour | aviram.py:50-72 | the full tour is a permutation of the point indices and starts at 0 when there are points |
| TspSolver.TourIsGreedy | aviram.py:59-70 | every step of the tour goes to the first nearest point not yet visited |
| TspSolver.TourCharacterization | aviram.py:50-72 | a sequence is a greedy tour (permutation from 0, every step first-nearest) if and only if it equals the solver's tour |
| TspSolver.TourVisitsEveryPoint | aviram.py:51-72 | the tour visits every point index exactly once, beginning with the start point |
| TspSolver.Pigeonhole | aviram.py:59-70 | a repetition-free order within `0..n-1` has at most `n` entries, and fewer than `n` exactly when some index is still unvisited |
| AddressNormalizer.LastSegment | aviram.py:133 | the last comma-separated part is a suffix with no comma, preceded by a comma whenever it is not the whole string |
| AddressNormalizer.Strip | aviram.py:133 | the stripped text is a contiguous slice of the input with only whitespace before and after it, and it neither starts nor ends with whitespace; already-stripped text is unchanged |
| AddressNormalizer.DefaultCity | aviram.py:132-133 | the default city is the stripped text after the last comma of the institute's address, or the whole address stripped when it has no comma; it contains no comma and is stripped |
| AddressNormalizer.EnsureCityInAddress | aviram.py:135-143 | a missing value passes through; an address with no comma, or whose stripped last part is empty or all digits, gets `", " + city` appended; every other address is returned unchanged |
| AddressNormalizer.AppendedCityIsRecognised | aviram.py:138-142 | after `", " + city` is appended, the stripped last part of the result is that city |
| AddressNormalizer.EnsureCityProvidesLocality | aviram.py:135-143 | with a usable city, every present address names a locality after normalisation |
| AddressNormalizer.EnsureCityIdempotent | aviram.py:135-143 | with a usable city, normalising an address twice gives the same result as normalising it once |
| AddressNormalizer.EnsureCityNotIdempotentForEmptyCity | aviram.py:138-142 | with an empty default city, a comma-free address gains `", "` on the first pass and another `", "` on the second |
| AddressNormalizer.FirstExactMatch | aviram.py:131 | finds the first row whose institute cell equals the selection exactly; it is absent only when no row matches |
| AddressNormalizer.AddDefaultCityToAddresses | aviram.py:127-146 | fails (the source's `IndexError`) exactly when no institute cell equals the selection; otherwise every row keeps its institute, and each address is the result of `EnsureCityInAddress` with the selected institute's default city: kept, or extended by `", "` and that city |
| AddressNormalizer.AddDefaultCityProvidesLocality | aviram.py:127-146 | with a usable default city, every present address in the normalised sheet names a locality |
| AddressNormalizer.SchoolCity | aviram.py:131-133 | absent exactly when no institute cell equals the selection; otherwise the default city of the address on the first row whose institute equals it, with a missing address read as `"nan"` |
| AddressNormalizer.NormalizeColumn | aviram.py:145 | the institute column is untouched and every address cell is replaced by its `EnsureCityInAddress` result |
| AddressNormalizer.NormalizeColumnIdempotent | aviram.py:135-145 | with a usable city, applying the column rewrite twice equals applying it once |
| AddressNormalizer.SchoolCityStable | aviram.py:131-133 | normalising the sheet does not change the default city it derives |
| AddressNormalizer.AddDefaultCityIdempotent | aviram.py:127-146 | with a usable default city, normalising the sheet twice equals normalising it once |
| RouteBuilder.CandidateAddresses | aviram.py:151-155 | an address is a waypoint if and only if it comes from a row that passes the institute filter, has a present address, and is neither the start nor the destination |
| RouteBuilder.CandidateAddressesInSheetOrder | aviram.py:154-155 | the waypoints of two consecutive blocks of rows are the first block's followed by the second's, and one row contributes its address exactly when it is a waypoint row, so sheet order and repeated addresses are kept |
| RouteBuilder.GeocodeAll | aviram.py:164-169 | the waypoints all resolve exactly when the loop completes; their points are aligned with the addresses; a failure names the first address that does not resolve |
| RouteBuilder.GeocodeAllFailsAt | aviram.py:164-167 | when position `i` is the first waypoint that does not resolve, the build reports that waypoint |
| RouteBuilder.HasDestination | aviram.py:178 | the destination is used only when it is given and non-empty, as Python's truthiness test does |
| RouteBuilder.BuildRoute | aviram.py:150-185 | the build fails with a start error exactly when the start does not resolve; a built route has as many addresses as coordinates, starts at the start address, and has one extra stop exactly when a destination is used |
| RouteBuilder.Reorder | aviram.py:174-175 | the reordered list has one entry per index of the order, and entry `k` is the element at index `order[k]` |
| RouteBuilder.BuildRouteTsp | aviram.py:150-185 | the imperative build, with its fail-fast loop, the solver and the destination append, returns exactly the specified route or error |
| Sheet.CellText | aviram.py:132 | the text `str()` gives a cell: its string, or `"nan"` for a missing value |
| RouteBuilder.LookupsResolve | aviram.py:157-181 | all lookups resolve if and only if the start, every waypoint and (when given) the destination resolve |
| RouteBuilder.BuildRouteFailsFast | aviram.py:157-181 | the build succeeds if and only if every lookup resolves; a failure names the first lookup in start, waypoints, destination order that does not resolve; it is a start failure exactly when the start does not resolve |
| RouteBuilder.BuildRouteShape | aviram.py:161-185 | a built route has one stop per lookup, addresses and coordinates of equal length, the start first, the destination last when given, and each address paired with its own geocode |
| RouteBuilder.ReorderMultiset | aviram.py:174-175 | reordering by a permutation of the indices keeps every element exactly as often as before |
| RouteBuilder.BuildRouteVisitsEveryStop | aviram.py:172-183 | the route's addresses are exactly the looked-up addresses, each as often as it was looked up |
| RouteBuilder.BuildRouteIsNearestNeighbour | aviram.py:172-175 | before the destination, each stop is at least as close to the previous stop as every later stop |

## Left out

- The web routes (`upload_file`, `select_school`, `input_start`, `input_destination`, `show_route`) and their templates: request handling and HTML rendering, not logic.
- Reading the workbook with pandas, and the keyword-based detection of the address and institute columns: I/O and heuristics on column titles.
- `show_route` (aviram.py:97-101) only calls the normaliser and then the build. The model keeps the two operations separate.
- `geocode_address` (aviram.py:15-32) is an HTTP call to Nominatim. It sends a user agent header, sets no timeout and catches no exception. It is a deterministic parameter `string -> Option<LatLon>`: each address is assumed to get the same answer every time it is looked up.
- Exceptions raised inside `geocode_address` are not modelled. A connection error, a response body that is not JSON, or a result without a `lat` key propagates out of `build_route_tsp` (aviram.py:157, 165, 179). The total parameter `geocode` cannot express that failure, so the model only distinguishes a point from `(None, None)`.
- `haversine_distance` is floating-point trigonometry. It is a parameter `dist` with real results. NaN and infinite distances are not modelled. With an infinite distance, `dist < min_dist` would fail and the source would crash on `visited[None]`.
- The institute filter is a parameter `belongs`, applied to the institute cell's `str()` text. `str.contains` (aviram.py:151) compiles the selected name as a case-insensitive regular expression. Metacharacters in the name therefore change which rows match, and a name such as one with an unbalanced `(` raises `re.error`. The total predicate `belongs` hides both.
- AddressNormalizer.IsDigits: models `str.isdigit()` for the ASCII digits only. Other Unicode digit characters are not modelled.
- Non-string, non-missing cell values (numbers, dates) in the address column are not modelled. On such a value the source's `',' not in address` would raise.
- A missing start address (`None` from the form) is not modelled. The start is always a string.
