/**
 Two worked searches. Days are written as `YYYYMMDD` numbers, an encoding
 whose order is the calendar's.
 */
module Scenarios {
  import opened Travel
  import opened Selection
  import opened Flights
  import opened Hotels

  /**
   A store holding one outbound flight to Bangkok priced 100 and one return
   flight priced 80 gives a single row carrying both prices.
   */
  lemma BangkokRoundTrip(depAnswer: seq<Flight>, retAnswer: seq<Flight>)
    requires
      var store := [Flight(Origin, "Bangkok", 20240301, "Outbound Air", 100),
                    Flight("Bangkok", Origin, 20240310, "Return Air", 80)];
      var req := FlightRequest("Bangkok", 20240301, 20240310);
      IsLegAnswer(depAnswer, store, DepartureQuery(req)) && IsLegAnswer(retAnswer, store, ReturnQuery(req))
    ensures SearchFlights(FlightRequest("Bangkok", 20240301, 20240310), depAnswer, retAnswer)
      == [FlightRow("Bangkok", 20240301, "Outbound Air", 100, 20240310, "Return Air", 80)]
  {
    var out := Flight(Origin, "Bangkok", 20240301, "Outbound Air", 100);
    var back := Flight("Bangkok", Origin, 20240310, "Return Air", 80);
    var store := [out, back];
    var req := FlightRequest("Bangkok", 20240301, 20240310);
    var dq, rq := DepartureQuery(req), ReturnQuery(req);
    assert store[1..] == [back] && [back][1..] == [];
    assert LegTest(dq)(out) && !LegTest(dq)(back);
    assert Filter([back], LegTest(dq)) == [];
    assert Matching(store, dq) == [out];
    assert !LegTest(rq)(out) && LegTest(rq)(back);
    assert Filter([back], LegTest(rq)) == [back];
    assert Matching(store, rq) == [back];
    SingletonAnswer(depAnswer, out);
    SingletonAnswer(retAnswer, back);
  }

  /** Two nights at Hotel A priced 50 each give one row for Hotel A priced 100. */
  lemma BangkokTwoNights(answer: seq<HotelGroup>)
    requires IsHotelAnswer(answer, TwoNights(), TwoNightsRequest())
    ensures SearchHotels(TwoNightsRequest(), answer) == [HotelRow("Bangkok", "2024-03-01", "2024-03-03", "Hotel A", 100)]
  {
    TwoNightsGroups();
    SingletonAnswer(answer, HotelGroup("Hotel A", 100));
  }

  /** A hotel store holding two consecutive nights at Hotel A in Bangkok, priced 50 each. */
  function TwoNights(): seq<HotelRate> {
    [HotelRate("Bangkok", 20240301, "Hotel A", 50), HotelRate("Bangkok", 20240302, "Hotel A", 50)]
  }

  /** A Bangkok stay from the first of the two nights to the day after the second. */
  function TwoNightsRequest(): HotelRequest {
    HotelRequest("Bangkok", "2024-03-01", "2024-03-03", 20240301, 20240303)
  }

  /** Both nights match the stay, and the group stage sums them into one group for Hotel A. */
  lemma TwoNightsGroups()
    ensures GroupSum(MatchingRates(TwoNights(), TwoNightsRequest())) == [HotelGroup("Hotel A", 100)]
  {
    var store, req := TwoNights(), TwoNightsRequest();
    var night1, night2 := store[0], store[1];
    assert store[1..] == [night2] && [night2][1..] == [];
    assert StayTest(req)(night1) && StayTest(req)(night2);
    assert Filter([night2], StayTest(req)) == [night2];
    assert MatchingRates(store, req) == store;
    assert store[..1] == [night1] && [night1][..0] == [];
    var one := GroupSum([night1]);
    assert one == AddRate([], night1) == [HotelGroup("Hotel A", 50)];
    assert GroupSum(store) == AddRate(one, night2);
    assert AddRate(one, night2) == [HotelGroup("Hotel A", 100)];
  }

  /** A permutation of a one-element sequence is that sequence. */
  lemma SingletonAnswer<T>(answer: seq<T>, x: T)
    requires multiset(answer) == multiset([x])
    ensures answer == [x]
  {
  }
}
