# Cheapest flight and hotel search — a Dafny model

The service answers two travel searches from a document store. Each handler
sends a query and gets back documents sorted ascending by price. It then keeps
every document tied at the lowest price.

- **Flight search** (`getFlight`). Two exact-match finds on the `flights`
  collection. The outbound find is from `"Singapore"` to the destination on the
  departure day. The return find swaps the two cities and uses the return day.
  If either leg finds nothing, the response is an empty list. Otherwise the
  handler keeps the leading run of each leg tied at the first (lowest) price.
  It answers with every pairing of the two runs, outbound-major. Each row
  carries the destination, both days, both airlines and both prices.
- **Hotel search** (`getHotel`). One aggregation on the `hotels` collection.
  It keeps the destination's rates dated from check-in to check-out, both days
  included. It sums the prices per hotel and sorts the sums ascending. The
  handler answers with one row per leading group tied at the lowest sum. Each
  row echoes the destination and the raw check-in and check-out text.

The model is a set of pure functions over immutable records:

- `travel.dfy` (module `Travel`): the documents, the requests, the response
  rows, and the fixed origin.
- `selection.dfy` (module `Selection`): selection shared by both searches.
  It holds filtering, the least price, the reference set of "all cheapest"
  documents, the tie-prefix rule (as a function and as the handlers' loop),
  and a sort that shows every store content has a sorted answer.
- `flights.dfy` (module `Flights`): the two leg queries, the product of the
  tied legs, the handler, and its correctness against the store.
- `hotels.dfy` (module `Hotels`): the match and group stages, the handler,
  and its correctness against the store.
- `scenarios.dfy` (module `Scenarios`): two worked searches for Bangkok.

The store is modelled by its answers. The handler functions take the store's
answer as an argument. The correctness lemmas require that answer to be a
permutation of the matching documents (or, for hotels, of the per-hotel
groups) sorted ascending by price. Documents of equal price may come in any
order, since nothing in the code fixes one. Every result is therefore proved
for every such order.

Dates are `int`s, since any totally ordered encoding of instants serves.
A request's dates are the midnights parsed from its text. Stored dates are
compared against them as they are, so a stored date with a time of day
matches no flight query and falls outside a stay on its check-out day. The
scenarios write dates as `YYYYMMDD` numbers. Prices are `int`s.

The code answers no match with an empty list, returns every price tie, and does not reject a check-in after the check-out:

- No match on either search gives an empty list with status 200 (main.go:91-96, 131-136, 233-237).
- All price ties are returned, for both legs and for hotels.
- A check-in day after the check-out day is not rejected. It simply matches no
  rate, so the answer is empty (`Hotels.InvertedStay`).

## Model

| member | source | states |
|---|---|---|
| Selection.TiePrefix | main.go:138-148 | the kept records form the longest prefix of the results whose prices all equal the first result's; the record just after it, if any, has a different price; the selection is non-empty exactly when the results are |
| Selection.SelectTies | main.go:98-108 | the loop that appends while the price equals the first result's and breaks at the first difference keeps a non-empty prefix of equal-priced results that cannot be extended, and that prefix is `TiePrefix` |
| Selection.TiePrefixOfSorted | main.go:102-107 | on price-sorted results the first price is no greater than any result's price, and a position is kept exactly when its price equals the first price |
| Selection.TiesOfSortedAnswer | main.go:78-108 | for any sorted permutation of the matching records, the kept records are, as a multiset, exactly the matching records of least price (the reference `AllCheapest`); the first answer's price is the least matching price |
| Selection.AllCheapest | main.go:98-108 | the reference selection: a record is chosen exactly when it is in the input and no input record is cheaper, and then every copy of it is chosen; a non-empty input gives a non-empty choice |
| Selection.MinKey | main.go:98 | the least price of a non-empty list is no greater than any element's price and is the price of some element |
| Selection.SortByKey | main.go:78 | every list of matching records has a permutation sorted ascending by price, so the sorted-answer precondition rules out no store contents |
| Flights.ReturnQueryMirrorsDeparture | main.go:112-116 | the departure query runs from `"Singapore"` to the destination on the departure day; the return query is the same with the cities swapped and the return day in place of the departure day |
| Flights.Matching | main.go:71-79 | a flight is found exactly when it is in the store and matches the query's source city, destination city and day; every copy of a matching document is found, and no copy of any other |
| Flights.Product | main.go:150-165 | the number of rows is the number of outbound flights times the number of return flights; every pairing of an outbound and a return flight is a row, and every row is such a pairing |
| Flights.ProductIndex | main.go:152-165 | with n return flights, row i·n + j pairs the i-th outbound flight with the j-th return flight (outbound-major order) |
| Flights.SearchFlights | main.go:91-171 | the answer is empty exactly when either store answer is empty; every row echoes the destination and both days; every row carries the first (lowest) price of each leg |
| Flights.SearchFlightsLayout | main.go:150-165 | the answer is the product of the two tied prefixes, and with n tied return flights row i·n + j pairs the i-th tied outbound flight with the j-th tied return flight |
| Flights.CheapestLeg | main.go:98-108 | for either leg, the tied prefix of the store's answer holds exactly the cheapest matching flights, and as many of them as there are |
| Flights.SearchFlightsEmpty | main.go:91-96 | the answer is empty exactly when no flight matches the outbound query or none matches the return query |
| Flights.SearchFlightsCount | main.go:131-165 | the number of rows is the number of cheapest matching outbound flights times the number of cheapest matching return flights |
| Flights.SearchFlightsComplete | main.go:150-165 | every pairing of a cheapest matching outbound flight with a cheapest matching return flight appears as a row |
| Flights.SearchFlightsSound | main.go:138-165 | every row pairs a cheapest matching outbound flight with a cheapest matching return flight; no matching flight of either leg is cheaper than the row's price for that leg |
| Hotels.MatchingRates | main.go:209-212 | a rate is kept exactly when it is in the store, in the destination city, and dated from check-in to check-out inclusive; every copy of a matching document is kept, and no copy of any other |
| Hotels.SameDayStay | main.go:211 | when check-in equals check-out, a rate matches exactly when it is in the destination and dated that very day |
| Hotels.InvertedStay | main.go:211 | a check-in day after the check-out day matches no rate, so the answer is empty |
| Hotels.AddRateLookup | main.go:216 | grouping one more rate adds its price to its own hotel's sum and leaves every other hotel's sum unchanged |
| Hotels.AddRateNames | main.go:215 | grouping one more rate keeps the existing hotels and adds the rate's hotel |
| Hotels.AddRateDistinct | main.go:215 | grouping one more rate keeps at most one group per hotel |
| Hotels.GroupSum | main.go:214-217 | the group stage gives at most one group per hotel, a group exactly for each hotel with a matching rate, and each hotel's sum is the sum of the prices of its matching rates |
| Hotels.PermutationKeepsDistinct | main.go:219 | sorting the groups into any order keeps at most one group per hotel |
| Hotels.SearchHotels | main.go:233-258 | the answer is empty exactly when the aggregation is; the rows are those of the leading groups whose sum equals the first group's, stopping at the first that differs; every row echoes the destination and the raw check-in and check-out text |
| Hotels.SearchHotelsEmpty | main.go:233-237 | the answer is empty exactly when no rate of the destination falls within the stay |
| Hotels.SearchHotelsSound | main.go:239-256 | every row names a hotel with a matching rate; its price is the sum of that hotel's matching rates; no hotel with a matching rate has a smaller sum |
| Hotels.SearchHotelsComplete | main.go:243-256 | every hotel whose summed price is least among the matching hotels has a row carrying that sum |
| Hotels.SearchHotelsDistinct | main.go:243-252 | no hotel appears in two rows |
| Scenarios.BangkokRoundTrip | main.go:150-171 | one outbound flight priced 100 and one return flight priced 80 give exactly one row carrying both prices |
| Scenarios.BangkokTwoNights | main.go:207-258 | two nights at one hotel priced 50 each give exactly one row for that hotel priced 100 |

## Left out

- HTTP routing, the index handler, JSON rendering and the console messages (main.go:19-33, 92, 94, 132, 134, 171, 235, 258) are framework glue. The model returns row sequences, and an empty sequence stands for the empty JSON array.
- Loading `.env`, reading `MONGODB_URI`, `log.Fatal`, and connecting to and disconnecting from the store (main.go:37-57, 176-196) are I/O and process lifecycle.
- The store calls `Find`, `Aggregate` and `cursor.All`, and their `panic` error paths (main.go:79-89, 119-129, 222-231), are foreign calls. Their answers are inputs, constrained by the sorted-permutation precondition. The check at main.go:167-169 is on an error that is always nil there, so it is omitted.
- Date parsing with `time.Parse` (main.go:63-64, 203-204) is library behaviour, and its errors are ignored. Days are taken as already-parsed `int`s. Any value is allowed, which also covers the zero date that a failed parse yields. The hotel request carries the raw text beside the parsed day, and the model does not relate the two.
- Prices are `int`. Go's `==` on the interface-typed BSON values (main.go:103, 143, 244) also compares the dynamic type, so an `int32` price and an `int64` price of the same value would not tie. The model assumes every price has the same type.
- `$sum` skips non-numeric prices, and numbers can overflow or be floating point. The model sums unbounded integers.
- Mongo's `$group` emits groups in no fixed order. `Hotels.GroupSum` uses first-appearance order, and only the sorted answer (any permutation of it) is relied on.
- Repeating a search against an unchanged store gives the same rows only if the store returns tied documents in the same order. The model fixes no such order, so repeatability is not stated.
- Rejecting a malformed date or a missing destination is not done by the code and is not modelled. An empty destination is queried like any other.
