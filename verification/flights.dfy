/**
 The flight search: find the cheapest outbound legs from the fixed origin to
 the destination on the departure day, the cheapest return legs back on the
 return day, and answer with every pairing of the two.
 */
module Flights {
  import opened Travel
  import opened Selection

  /** The outbound filter: origin to destination on the departure day. */
  function DepartureQuery(req: FlightRequest): LegQuery {
    LegQuery(Origin, req.destination, req.departureDate)
  }

  /** The return filter: destination back to origin on the return day. */
  function ReturnQuery(req: FlightRequest): LegQuery {
    LegQuery(req.destination, Origin, req.returnDate)
  }

  /** The return query is the departure query with its endpoints swapped and the return day in place of the departure day. */
  lemma ReturnQueryMirrorsDeparture(req: FlightRequest)
    ensures DepartureQuery(req).src == Origin && DepartureQuery(req).dest == req.destination
    ensures DepartureQuery(req).date == req.departureDate
    ensures ReturnQuery(req) == LegQuery(DepartureQuery(req).dest, DepartureQuery(req).src, req.returnDate)
  {
  }

  /** Exact match on source city, destination city and day. */
  predicate Matches(q: LegQuery, f: Flight) {
    f.src == q.src && f.dest == q.dest && f.date == q.date
  }

  /** The flights of `store` that the query selects, in store order, every copy of a matching document included. */
  function Matching(store: seq<Flight>, q: LegQuery): (r: seq<Flight>)
    ensures forall f :: f in r ==> f in store && Matches(q, f)
    ensures forall f :: f in store && Matches(q, f) ==> f in r
    ensures forall f :: multiset(r)[f] == if Matches(q, f) then multiset(store)[f] else 0
  {
    var r := Filter(store, LegTest(q));
    assert forall f :: multiset(r)[f] == if Matches(q, f) then multiset(store)[f] else 0 by {
      forall f
        ensures multiset(r)[f] == if Matches(q, f) then multiset(store)[f] else 0
      {
        FilterCount(store, LegTest(q), f);
      }
    }
    r
  }

  /** The exact-match filter as a test on one flight. */
  function LegTest(q: LegQuery): Flight -> bool {
    f => Matches(q, f)
  }

  /** What the store returns for one leg: the matching flights sorted ascending by price. */
  ghost predicate IsLegAnswer(answer: seq<Flight>, store: seq<Flight>, q: LegQuery) {
    IsSortedAnswer(answer, Matching(store, q), Price)
  }

  /** The response entry for one outbound leg and one return leg. */
  function MakeRow(req: FlightRequest, dep: Flight, ret: Flight): FlightRow {
    FlightRow(req.destination, req.departureDate, dep.airline, dep.price, req.returnDate, ret.airline, ret.price)
  }

  /** The rows pairing `dep` with each return leg in turn. */
  function PairRows(req: FlightRequest, dep: Flight, rets: seq<Flight>): seq<FlightRow> {
    seq(|rets|, j requires 0 <= j < |rets| => MakeRow(req, dep, rets[j]))
  }

  /**
   The nested loops of the handler: for each outbound leg in order, for each
   return leg in order, one row. Every pair appears and nothing else does.
   */
  function Product(req: FlightRequest, deps: seq<Flight>, rets: seq<Flight>): (rows: seq<FlightRow>)
    ensures |rows| == |deps| * |rets|
    ensures forall d, r :: d in deps && r in rets ==> MakeRow(req, d, r) in rows
    ensures forall row :: row in rows ==> exists d, r :: d in deps && r in rets && row == MakeRow(req, d, r)
  {
    if |deps| == 0 then []
    else
      var head := PairRows(req, deps[0], rets);
      var tail := Product(req, deps[1..], rets);
      assert |deps| * |rets| == |rets| + (|deps| - 1) * |rets|;
      assert forall d, r :: d in deps && r in rets ==> MakeRow(req, d, r) in head + tail by {
        forall d, r | d in deps && r in rets
          ensures MakeRow(req, d, r) in head + tail
        {
          if d == deps[0] {
            var j :| 0 <= j < |rets| && rets[j] == r;
            assert head[j] == MakeRow(req, d, r);
          } else {
            assert d in deps[1..];
          }
        }
      }
      assert forall row :: row in head ==> exists d, r :: d in deps && r in rets && row == MakeRow(req, d, r) by {
        forall row | row in head
          ensures exists d, r :: d in deps && r in rets && row == MakeRow(req, d, r)
        {
          var j :| 0 <= j < |head| && head[j] == row;
          assert row == MakeRow(req, deps[0], rets[j]);
        }
      }
      head + tail
  }

  /** Row `i * |rets| + j` of the product pairs the i-th outbound leg with the j-th return leg. */
  lemma {:induction false} ProductIndex(req: FlightRequest, deps: seq<Flight>, rets: seq<Flight>, i: int, j: int)
    requires 0 <= i < |deps| && 0 <= j < |rets|
    ensures i * |rets| + j < |Product(req, deps, rets)|
    ensures Product(req, deps, rets)[i * |rets| + j] == MakeRow(req, deps[i], rets[j])
  {
    if i == 0 {
      ProductFirst(req, deps, rets, j);
    } else {
      ProductIndex(req, deps[1..], rets, i - 1, j);
      RowOffset(i, |rets|, j);
      ProductShift(req, deps, rets, (i - 1) * |rets| + j);
      assert deps[1..][i - 1] == deps[i];
    }
  }

  /** The first `|rets|` rows pair the first outbound leg with each return leg in turn. */
  lemma ProductFirst(req: FlightRequest, deps: seq<Flight>, rets: seq<Flight>, j: int)
    requires 0 < |deps| && 0 <= j < |rets|
    ensures 0 * |rets| + j < |Product(req, deps, rets)|
    ensures Product(req, deps, rets)[0 * |rets| + j] == MakeRow(req, deps[0], rets[j])
  {
    var head, tail := PairRows(req, deps[0], rets), Product(req, deps[1..], rets);
    assert Product(req, deps, rets) == head + tail;
    assert (head + tail)[j] == head[j];
  }

  /** After the first `|rets|` rows come the rows of the remaining outbound legs. */
  lemma ProductShift(req: FlightRequest, deps: seq<Flight>, rets: seq<Flight>, k: int)
    requires 0 < |deps| && 0 <= k < |Product(req, deps[1..], rets)|
    ensures |rets| + k < |Product(req, deps, rets)|
    ensures Product(req, deps, rets)[|rets| + k] == Product(req, deps[1..], rets)[k]
  {
    var head, tail := PairRows(req, deps[0], rets), Product(req, deps[1..], rets);
    assert Product(req, deps, rets) == head + tail;
    assert (head + tail)[|head| + k] == tail[k];
  }

  /** Row `i * n + j` comes `n` rows after row `(i - 1) * n + j`. */
  lemma RowOffset(i: int, n: int, j: int)
    ensures i * n + j == n + ((i - 1) * n + j)
  {
  }

  /**
   The flight handler after both store queries: no outbound leg or no return
   leg gives an empty list; otherwise every cheapest outbound leg is paired
   with every cheapest return leg, outbound-major.
   */
  function SearchFlights(req: FlightRequest, depAnswer: seq<Flight>, retAnswer: seq<Flight>): (rows: seq<FlightRow>)
    ensures rows == [] <==> depAnswer == [] || retAnswer == []
    ensures forall row :: row in rows ==>
      row.city == req.destination && row.departureDate == req.departureDate && row.returnDate == req.returnDate
    ensures forall row :: row in rows ==> row.departurePrice == depAnswer[0].price && row.returnPrice == retAnswer[0].price
  {
    if |depAnswer| == 0 then []
    else
      var deps := TiePrefix(depAnswer, Price);
      if |retAnswer| == 0 then []
      else
        var rets := TiePrefix(retAnswer, Price);
        var rows := Product(req, deps, rets);
        assert rows != [] by {
          assert MakeRow(req, deps[0], rets[0]) in rows;
        }
        rows
  }

  /** The row layout of a non-empty answer: row `i * |rets| + j` pairs the i-th tied outbound leg with the j-th tied return leg. */
  lemma SearchFlightsLayout(req: FlightRequest, depAnswer: seq<Flight>, retAnswer: seq<Flight>, i: int, j: int)
    requires 0 <= i < |TiePrefix(depAnswer, Price)| && 0 <= j < |TiePrefix(retAnswer, Price)|
    ensures SearchFlights(req, depAnswer, retAnswer) == Product(req, TiePrefix(depAnswer, Price), TiePrefix(retAnswer, Price))
    ensures i * |TiePrefix(retAnswer, Price)| + j < |SearchFlights(req, depAnswer, retAnswer)|
    ensures SearchFlights(req, depAnswer, retAnswer)[i * |TiePrefix(retAnswer, Price)| + j]
      == MakeRow(req, TiePrefix(depAnswer, Price)[i], TiePrefix(retAnswer, Price)[j])
  {
    ProductIndex(req, TiePrefix(depAnswer, Price), TiePrefix(retAnswer, Price), i, j);
  }

  /**
   For one leg: whatever order the store gives to flights of equal price, the
   tied prefix of its answer holds exactly the cheapest matching flights, as
   many of them as there are, and nothing else.
   */
  lemma CheapestLeg(store: seq<Flight>, q: LegQuery, answer: seq<Flight>)
    requires IsLegAnswer(answer, store, q)
    ensures |answer| == |Matching(store, q)|
    ensures |TiePrefix(answer, Price)| == |AllCheapest(Matching(store, q), Price)|
    ensures forall f :: f in TiePrefix(answer, Price) <==> f in AllCheapest(Matching(store, q), Price)
  {
    var ties, cheapest := TiePrefix(answer, Price), AllCheapest(Matching(store, q), Price);
    TiesOfSortedAnswer(answer, Matching(store, q), Price);
    forall f
      ensures f in ties <==> f in cheapest
    {
      assert f in ties <==> f in multiset(ties);
      assert f in cheapest <==> f in multiset(cheapest);
    }
  }

  /** The search answers with no rows exactly when the outbound leg or the return leg has no matching flight. */
  lemma SearchFlightsEmpty(store: seq<Flight>, req: FlightRequest, depAnswer: seq<Flight>, retAnswer: seq<Flight>)
    requires IsLegAnswer(depAnswer, store, DepartureQuery(req))
    requires IsLegAnswer(retAnswer, store, ReturnQuery(req))
    ensures SearchFlights(req, depAnswer, retAnswer) == [] <==>
      Matching(store, DepartureQuery(req)) == [] || Matching(store, ReturnQuery(req)) == []
  {
  }

  /** There is one row per pair of a cheapest matching outbound flight and a cheapest matching return flight. */
  lemma SearchFlightsCount(store: seq<Flight>, req: FlightRequest, depAnswer: seq<Flight>, retAnswer: seq<Flight>)
    requires IsLegAnswer(depAnswer, store, DepartureQuery(req))
    requires IsLegAnswer(retAnswer, store, ReturnQuery(req))
    ensures |SearchFlights(req, depAnswer, retAnswer)| ==
      |AllCheapest(Matching(store, DepartureQuery(req)), Price)| * |AllCheapest(Matching(store, ReturnQuery(req)), Price)|
  {
    CheapestLeg(store, DepartureQuery(req), depAnswer);
    CheapestLeg(store, ReturnQuery(req), retAnswer);
  }

  /** Every pairing of a cheapest outbound flight with a cheapest return flight is a row. */
  lemma SearchFlightsComplete(store: seq<Flight>, req: FlightRequest, depAnswer: seq<Flight>, retAnswer: seq<Flight>, d: Flight, r: Flight)
    requires IsLegAnswer(depAnswer, store, DepartureQuery(req))
    requires IsLegAnswer(retAnswer, store, ReturnQuery(req))
    requires d in AllCheapest(Matching(store, DepartureQuery(req)), Price)
    requires r in AllCheapest(Matching(store, ReturnQuery(req)), Price)
    ensures MakeRow(req, d, r) in SearchFlights(req, depAnswer, retAnswer)
  {
    CheapestLeg(store, DepartureQuery(req), depAnswer);
    CheapestLeg(store, ReturnQuery(req), retAnswer);
  }

  /**
   Every row pairs a cheapest matching outbound flight with a cheapest
   matching return flight, so no matching flight of either leg is cheaper
   than the row's price for that leg.
   */
  lemma SearchFlightsSound(store: seq<Flight>, req: FlightRequest, depAnswer: seq<Flight>, retAnswer: seq<Flight>, row: FlightRow)
    requires IsLegAnswer(depAnswer, store, DepartureQuery(req))
    requires IsLegAnswer(retAnswer, store, ReturnQuery(req))
    requires row in SearchFlights(req, depAnswer, retAnswer)
    ensures exists d, r ::
      d in AllCheapest(Matching(store, DepartureQuery(req)), Price) &&
      r in AllCheapest(Matching(store, ReturnQuery(req)), Price) &&
      row == MakeRow(req, d, r)
    ensures forall f :: f in Matching(store, DepartureQuery(req)) ==> row.departurePrice <= f.price
    ensures forall f :: f in Matching(store, ReturnQuery(req)) ==> row.returnPrice <= f.price
  {
    CheapestLeg(store, DepartureQuery(req), depAnswer);
    CheapestLeg(store, ReturnQuery(req), retAnswer);
    var deps, rets := TiePrefix(depAnswer, Price), TiePrefix(retAnswer, Price);
    assert SearchFlights(req, depAnswer, retAnswer) == Product(req, deps, rets);
    var d, r :| d in deps && r in rets && row == MakeRow(req, d, r);
    assert d in AllCheapest(Matching(store, DepartureQuery(req)), Price);
    assert r in AllCheapest(Matching(store, ReturnQuery(req)), Price);
  }
}
