/**
 The hotel search: an aggregation over the hotel rates (keep the destination's
 rates dated within the stay, sum them per hotel, sort the sums ascending),
 followed by the handler's rule that keeps every hotel at the least sum.
 */
module Hotels {
  import opened Travel
  import opened Selection

  /** The match stage: the rate is in the destination and dated from check-in to check-out, both days included. */
  predicate InStay(req: HotelRequest, r: HotelRate) {
    r.city == req.destination && req.checkIn <= r.date <= req.checkOut
  }

  /** When check-in and check-out fall on the same day, exactly that day's rates match. */
  lemma SameDayStay(req: HotelRequest, r: HotelRate)
    requires req.checkIn == req.checkOut
    ensures InStay(req, r) <==> r.city == req.destination && r.date == req.checkIn
  {
  }

  /** The rates of `store` that the match stage keeps, in store order, every copy of a matching document included. */
  function MatchingRates(store: seq<HotelRate>, req: HotelRequest): (rates: seq<HotelRate>)
    ensures forall r :: r in rates ==> r in store && InStay(req, r)
    ensures forall r :: r in store && InStay(req, r) ==> r in rates
    ensures forall r :: multiset(rates)[r] == if InStay(req, r) then multiset(store)[r] else 0
  {
    var rates := Filter(store, StayTest(req));
    assert forall r :: multiset(rates)[r] == if InStay(req, r) then multiset(store)[r] else 0 by {
      forall r
        ensures multiset(rates)[r] == if InStay(req, r) then multiset(store)[r] else 0
      {
        FilterCount(store, StayTest(req), r);
      }
    }
    rates
  }

  /** The match stage as a test on one rate. */
  function StayTest(req: HotelRequest): HotelRate -> bool {
    r => InStay(req, r)
  }

  /** The hotels that have at least one rate in `rates`. */
  function RateNames(rates: seq<HotelRate>): set<string> {
    set r | r in rates :: r.hotelName
  }

  /** The stay price of hotel `name`: the sum of the prices of its rates in `rates`. */
  function SumFor(rates: seq<HotelRate>, name: string): int {
    if |rates| == 0 then 0
    else
      var last := rates[|rates| - 1];
      SumFor(rates[..|rates| - 1], name) + (if last.hotelName == name then last.price else 0)
  }

  /** The hotels that have a group in `gs`. */
  function GroupNames(gs: seq<HotelGroup>): set<string> {
    set g | g in gs :: g.hotel
  }

  /** No hotel has two groups. */
  ghost predicate DistinctHotels(gs: seq<HotelGroup>) {
    forall i, j :: 0 <= i < j < |gs| ==> gs[i].hotel != gs[j].hotel
  }

  /** The summed price of the first group of hotel `name`, or 0 when it has none. */
  function Lookup(gs: seq<HotelGroup>, name: string): int {
    if |gs| == 0 then 0
    else if gs[0].hotel == name then gs[0].total
    else Lookup(gs[1..], name)
  }

  /** One step of the group stage: add the rate's price to its hotel's group, opening the group if it is new. */
  function AddRate(gs: seq<HotelGroup>, r: HotelRate): seq<HotelGroup> {
    if |gs| == 0 then [HotelGroup(r.hotelName, r.price)]
    else if gs[0].hotel == r.hotelName then [HotelGroup(gs[0].hotel, gs[0].total + r.price)] + gs[1..]
    else [gs[0]] + AddRate(gs[1..], r)
  }

  /** Adding a rate leaves the existing hotels and adds the rate's own. */
  lemma {:induction false} AddRateNames(gs: seq<HotelGroup>, r: HotelRate)
    ensures GroupNames(AddRate(gs, r)) == GroupNames(gs) + {r.hotelName}
  {
    if |gs| > 0 {
      var gs' := AddRate(gs, r);
      assert gs == [gs[0]] + gs[1..];
      if gs[0].hotel == r.hotelName {
        assert gs' == [HotelGroup(gs[0].hotel, gs[0].total + r.price)] + gs[1..];
        assert GroupNames(gs') == {gs[0].hotel} + GroupNames(gs[1..]);
        assert GroupNames(gs) == {gs[0].hotel} + GroupNames(gs[1..]);
      } else {
        AddRateNames(gs[1..], r);
        assert gs' == [gs[0]] + AddRate(gs[1..], r);
        assert GroupNames(gs') == {gs[0].hotel} + GroupNames(AddRate(gs[1..], r));
        assert GroupNames(gs) == {gs[0].hotel} + GroupNames(gs[1..]);
      }
    }
  }

  /** Adding a rate raises the sum of the rate's hotel by its price and leaves every other hotel's sum alone. */
  lemma {:induction false} AddRateLookup(gs: seq<HotelGroup>, r: HotelRate, name: string)
    ensures Lookup(AddRate(gs, r), name) == Lookup(gs, name) + (if name == r.hotelName then r.price else 0)
  {
    if |gs| > 0 && gs[0].hotel != r.hotelName {
      AddRateLookup(gs[1..], r, name);
      assert ([gs[0]] + AddRate(gs[1..], r))[1..] == AddRate(gs[1..], r);
    } else if |gs| > 0 {
      assert ([HotelGroup(gs[0].hotel, gs[0].total + r.price)] + gs[1..])[1..] == gs[1..];
    }
  }

  /** Adding a rate keeps one group per hotel. */
  lemma {:induction false} AddRateDistinct(gs: seq<HotelGroup>, r: HotelRate)
    requires DistinctHotels(gs)
    ensures DistinctHotels(AddRate(gs, r))
  {
    if |gs| > 0 {
      var gs' := AddRate(gs, r);
      if gs[0].hotel == r.hotelName {
        assert forall i :: 0 <= i < |gs| ==> gs'[i].hotel == gs[i].hotel;
      } else {
        var rest := AddRate(gs[1..], r);
        AddRateDistinct(gs[1..], r);
        AddRateNames(gs[1..], r);
        HeadNotInTail(gs);
        assert gs' == [gs[0]] + rest;
        forall i, j | 0 <= i < j < |gs'|
          ensures gs'[i].hotel != gs'[j].hotel
        {
          assert gs'[j] == rest[j - 1];
          assert gs'[j].hotel in GroupNames(rest);
          if i > 0 {
            assert gs'[i] == rest[i - 1];
          }
        }
      }
    }
  }

  /** With one group per hotel, the first group's hotel has no group further on. */
  lemma HeadNotInTail(gs: seq<HotelGroup>)
    requires DistinctHotels(gs) && |gs| > 0
    ensures gs[0].hotel !in GroupNames(gs[1..])
  {
  }

  /**
   The group stage: one group per hotel that has a matching rate, holding the
   sum of that hotel's rates. Groups come in order of first appearance; the
   sort stage is what orders them.
   */
  function GroupSum(rates: seq<HotelRate>): (gs: seq<HotelGroup>)
    ensures DistinctHotels(gs)
    ensures GroupNames(gs) == RateNames(rates)
    ensures forall name :: Lookup(gs, name) == SumFor(rates, name)
  {
    if |rates| == 0 then []
    else
      var init := rates[..|rates| - 1];
      var last := rates[|rates| - 1];
      assert rates == init + [last];
      assert RateNames(rates) == RateNames(init) + {last.hotelName};
      var prev := GroupSum(init);
      AddRateNames(prev, last);
      AddRateDistinct(prev, last);
      assert forall name :: Lookup(AddRate(prev, last), name) == SumFor(rates, name) by {
        forall name
          ensures Lookup(AddRate(prev, last), name) == SumFor(rates, name)
        {
          AddRateLookup(prev, last, name);
        }
      }
      AddRate(prev, last)
  }

  /** With one group per hotel, a group's summed price is the one recorded for its hotel. */
  lemma {:induction false} LookupMember(gs: seq<HotelGroup>, i: int)
    requires DistinctHotels(gs)
    requires 0 <= i < |gs|
    ensures Lookup(gs, gs[i].hotel) == gs[i].total
  {
    if i > 0 {
      assert gs[1..][i - 1] == gs[i];
      LookupMember(gs[1..], i - 1);
    }
  }

  /** A hotel that has a group in `gs` has one at some index. */
  lemma GroupIndex(gs: seq<HotelGroup>, name: string) returns (i: int)
    requires name in GroupNames(gs)
    ensures 0 <= i < |gs| && gs[i].hotel == name
  {
    var g :| g in gs && g.hotel == name;
    i :| 0 <= i < |gs| && gs[i] == g;
  }

  /** Reordering the groups keeps one group per hotel. */
  lemma PermutationKeepsDistinct(a: seq<HotelGroup>, b: seq<HotelGroup>)
    requires multiset(a) == multiset(b)
    requires DistinctHotels(b)
    ensures DistinctHotels(a)
  {
    forall i, j | 0 <= i < j < |a|
      ensures a[i].hotel != a[j].hotel
    {
      if a[i].hotel == a[j].hotel {
        assert a[i] in multiset(b) && a[j] in multiset(b);
        var ki :| 0 <= ki < |b| && b[ki] == a[i];
        var kj :| 0 <= kj < |b| && b[kj] == a[j];
        LookupMember(b, ki);
        LookupMember(b, kj);
        assert a[i] == a[j];
        RepeatCount(a, i, j);
        assert NoDuplicates(b) by {
          forall p, q | 0 <= p < q < |b|
            ensures b[p] != b[q]
          {
            assert b[p].hotel != b[q].hotel;
          }
        }
        NoDuplicatesCount(b, a[i]);
        assert false;
      }
    }
  }

  /** What the aggregation returns: the groups of the matching rates, sorted ascending by summed price. */
  ghost predicate IsHotelAnswer(answer: seq<HotelGroup>, store: seq<HotelRate>, req: HotelRequest) {
    IsSortedAnswer(answer, GroupSum(MatchingRates(store, req)), Total)
  }

  /** The response entry for one hotel group: the request's city and raw check-in and check-out text, the hotel, its summed price. */
  function HotelRowOf(req: HotelRequest, g: HotelGroup): HotelRow {
    HotelRow(req.destination, req.checkInText, req.checkOutText, g.hotel, g.total)
  }

  /**
   The hotel handler after the aggregation: an empty answer gives an empty
   list; otherwise one row for each leading group whose sum equals the first
   group's, stopping at the first group whose sum differs.
   */
  function SearchHotels(req: HotelRequest, answer: seq<HotelGroup>): (rows: seq<HotelRow>)
    ensures rows == [] <==> answer == []
    ensures |rows| <= |answer|
    ensures forall i :: 0 <= i < |rows| ==> rows[i] == HotelRowOf(req, answer[i]) && answer[i].total == answer[0].total
    ensures |rows| < |answer| ==> answer[|rows|].total != answer[0].total
    ensures forall row :: row in rows ==>
      row.city == req.destination && row.checkInDate == req.checkInText && row.checkOutDate == req.checkOutText
  {
    if |answer| == 0 then []
    else
      var best := TiePrefix(answer, Total);
      seq(|best|, i requires 0 <= i < |best| => HotelRowOf(req, best[i]))
  }

  /** The search answers with no rows exactly when no rate of the destination falls within the stay. */
  lemma SearchHotelsEmpty(store: seq<HotelRate>, req: HotelRequest, answer: seq<HotelGroup>)
    requires IsHotelAnswer(answer, store, req)
    ensures SearchHotels(req, answer) == [] <==> MatchingRates(store, req) == []
  {
  }

  /** A stay whose check-in day comes after its check-out day matches no rate, so the search answers with no rows. */
  lemma InvertedStay(store: seq<HotelRate>, req: HotelRequest, answer: seq<HotelGroup>)
    requires IsHotelAnswer(answer, store, req)
    requires req.checkIn > req.checkOut
    ensures SearchHotels(req, answer) == []
  {
    SearchHotelsEmpty(store, req, answer);
    FilterNone(store, StayTest(req));
  }

  /**
   Every row names a hotel with a matching rate, its price is that hotel's
   summed stay price, and no hotel with a matching rate has a smaller sum.
   */
  lemma SearchHotelsSound(store: seq<HotelRate>, req: HotelRequest, answer: seq<HotelGroup>, row: HotelRow)
    requires IsHotelAnswer(answer, store, req)
    requires row in SearchHotels(req, answer)
    ensures row.hotel in RateNames(MatchingRates(store, req))
    ensures row.price == SumFor(MatchingRates(store, req), row.hotel)
    ensures forall r :: r in MatchingRates(store, req) ==> row.price <= SumFor(MatchingRates(store, req), r.hotelName)
  {
    var rates := MatchingRates(store, req);
    var gs := GroupSum(rates);
    var rows := SearchHotels(req, answer);
    var k :| 0 <= k < |rows| && rows[k] == row;
    assert answer[k] in multiset(gs);
    var kg :| 0 <= kg < |gs| && gs[kg] == answer[k];
    LookupMember(gs, kg);
    assert answer[k].hotel in GroupNames(gs);
    forall r | r in rates
      ensures row.price <= SumFor(rates, r.hotelName)
    {
      assert r.hotelName in RateNames(rates);
      var i := GroupIndex(gs, r.hotelName);
      LookupMember(gs, i);
      assert gs[i] in multiset(answer);
      var ka :| 0 <= ka < |answer| && answer[ka] == gs[i];
      assert answer[0].total <= answer[ka].total;
    }
  }

  /** Every hotel whose summed stay price is the least among the matching hotels has a row, carrying that price. */
  lemma SearchHotelsComplete(store: seq<HotelRate>, req: HotelRequest, answer: seq<HotelGroup>, name: string)
    requires IsHotelAnswer(answer, store, req)
    requires name in RateNames(MatchingRates(store, req))
    requires forall other :: other in RateNames(MatchingRates(store, req)) ==>
      SumFor(MatchingRates(store, req), name) <= SumFor(MatchingRates(store, req), other)
    ensures HotelRow(req.destination, req.checkInText, req.checkOutText, name, SumFor(MatchingRates(store, req), name))
      in SearchHotels(req, answer)
  {
    var rates := MatchingRates(store, req);
    var gs := GroupSum(rates);
    var i := GroupIndex(gs, name);
    LookupMember(gs, i);
    assert gs[i] in multiset(answer);
    var ka :| 0 <= ka < |answer| && answer[ka] == gs[i];
    assert answer[0] in multiset(gs);
    var k0 :| 0 <= k0 < |gs| && gs[k0] == answer[0];
    LookupMember(gs, k0);
    assert gs[k0].hotel in GroupNames(gs);
    assert answer[0].total == answer[ka].total;
    TiePrefixOfSorted(answer, Total);
    assert SearchHotels(req, answer)[ka] == HotelRowOf(req, answer[ka]);
  }

  /** No hotel appears in two rows. */
  lemma SearchHotelsDistinct(store: seq<HotelRate>, req: HotelRequest, answer: seq<HotelGroup>)
    requires IsHotelAnswer(answer, store, req)
    ensures forall i, j :: 0 <= i < j < |SearchHotels(req, answer)| ==>
      SearchHotels(req, answer)[i].hotel != SearchHotels(req, answer)[j].hotel
  {
    PermutationKeepsDistinct(answer, GroupSum(MatchingRates(store, req)));
  }
}
