/**
 The records the travel-search service reads from its two collections, the
 two search requests, and the rows it answers with.

 Dates are instants that have already been parsed; any totally ordered
 encoding will do, so a date is an `int`. Prices are integers.
 */
module Travel {

  /**
   An instant in any totally ordered encoding. A request's dates are the
   midnights parsed from its `YYYY-MM-DD` text; stored dates are compared
   against them as they are.
   */
  type Date = int

  /** The fixed city every outbound flight leaves from and every return flight flies back to. */
  const Origin: string := "Singapore"

  /** A document of the `flights` collection. */
  datatype Flight = Flight(src: string, dest: string, date: Date, airline: string, price: int)

  /** An exact-match filter on the `flights` collection: source city, destination city and day. */
  datatype LegQuery = LegQuery(src: string, dest: string, date: Date)

  /** The query parameters of a flight search. */
  datatype FlightRequest = FlightRequest(destination: string, departureDate: Date, returnDate: Date)

  /** One entry of a flight-search response: a cheapest outbound leg paired with a cheapest return leg. */
  datatype FlightRow = FlightRow(
    city: string,
    departureDate: Date,
    departureAirline: string,
    departurePrice: int,
    returnDate: Date,
    returnAirline: string,
    returnPrice: int)

  /** A document of the `hotels` collection: the price of one night at one hotel. */
  datatype HotelRate = HotelRate(city: string, date: Date, hotelName: string, price: int)

  /** A document produced by the aggregation's group stage: a hotel and its summed price. */
  datatype HotelGroup = HotelGroup(hotel: string, total: int)

  /**
   The query parameters of a hotel search. The check-in and check-out days
   are kept both as the text the client sent, which the response echoes, and
   as the parsed days the match stage compares against.
   */
  datatype HotelRequest = HotelRequest(
    destination: string,
    checkInText: string,
    checkOutText: string,
    checkIn: Date,
    checkOut: Date)

  /** One entry of a hotel-search response. */
  datatype HotelRow = HotelRow(city: string, checkInDate: string, checkOutDate: string, hotel: string, price: int)

  /** The sort key of a flight: its price. */
  function Price(f: Flight): int { f.price }

  /** The sort key of a hotel group: its summed price. */
  function Total(g: HotelGroup): int { g.total }
}
