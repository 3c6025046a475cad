/**
 * The customer record (customer.h, customer.c): one simulated entity, which
 * is first scheduled as an arrival event and later rewritten in place into a
 * departure event. Its phase is not tagged; it is read off the sentinel
 * `departureTime < 0`.
 */
module Customers {

  /** Sentinel that marks an unset arrival or departure time. */
  const UNSET: real := -1.0

  class Customer {
    var arrivalTime: real
    var startOfServiceTime: real
    var departureTime: real
    /** The heap key: whichever of the arrival or departure time is pending. */
    var pqTime: real
    /** Link used only while the record sits in the wait queue. */
    var nextCust: Customer?

    /**
     * newCustomer(time, arrbool): a nonzero `arrbool` builds the arrival form,
     * zero builds the departure form. Both key the record on `time`.
     */
    constructor (time: real, arrbool: int)
      ensures arrbool != 0 ==> arrivalTime == time && departureTime == UNSET
      ensures arrbool == 0 ==> arrivalTime == UNSET && departureTime == time
      ensures startOfServiceTime == 0.0
      ensures pqTime == time
      ensures nextCust == null
      ensures time >= 0.0 ==> (IsArrival(this) <==> arrbool != 0)
    {
      if arrbool != 0 {
        arrivalTime := time;
        startOfServiceTime := 0.0;
        departureTime := UNSET;
        pqTime := time;
      } else {
        arrivalTime := UNSET;
        startOfServiceTime := 0.0;
        departureTime := time;
        pqTime := time;
      }
      nextCust := null;
    }
  }

  /** The engine's phase test: a record is an arrival while its departure time is unset. */
  predicate IsArrival(c: Customer)
    reads c`departureTime
  {
    c.departureTime < 0.0
  }

  /**
   * A record is well-keyed when its heap key is the time of its pending
   * event: the arrival time of an arrival, the departure time of a departure.
   * All times the engine produces are non-negative.
   */
  ghost predicate WellKeyed(c: Customer)
    reads c`departureTime, c`arrivalTime, c`pqTime
  {
    0.0 <= c.arrivalTime &&
    if IsArrival(c) then c.pqTime == c.arrivalTime else c.pqTime == c.departureTime
  }
}
