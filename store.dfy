/**
 * The `bookings` collection and the `POST /api/book` handler that appends to
 * it. One call of `Book` stands for the whole request including its
 * transaction: either exactly one record is added or nothing changes.
 */
module Store {
  import opened Wrappers
  import opened Booking

  /** Every record has its own document id. */
  predicate DistinctIds(bs: seq<Booking>)
  {
    forall i, j :: 0 <= i < |bs| && 0 <= j < |bs| && i != j ==> bs[i].id != bs[j].id
  }

  /** One more than the largest id in `bs` (0 for an empty store). */
  function IdsBelow(bs: seq<Booking>): (n: nat)
    ensures forall b :: b in bs ==> b.id < n
  {
    if bs == [] then 0
    else var rest := IdsBelow(bs[1..]); if bs[0].id < rest then rest else bs[0].id + 1
  }

  class BookingStore {
    /** The documents of the collection, in insertion order. */
    var bookings: seq<Booking>
    /** The id the next inserted document receives. */
    var nextId: nat

    predicate Valid()
      reads this
    {
      DistinctIds(bookings) && forall b :: b in bookings ==> b.id < nextId
    }

    /** A store holding the given documents. */
    constructor (initial: seq<Booking>)
      requires DistinctIds(initial)
      ensures Valid()
      ensures bookings == initial
    {
      bookings := initial;
      nextId := IdsBelow(initial);
    }

    /** Handle one booking request by `uid` for [start, end) on `ovenId`; `now`
        is the server clock and `userName` the name on the user's document,
        if that document exists. */
    method Book(uid: string, ovenId: string, start: int, end: int, title: string,
                now: int, userName: Option<string>) returns (outcome: Outcome)
      requires Valid()
      modifies this
      ensures Valid()
      ensures outcome == Decide(old(bookings), uid, ovenId, start, end, now)
      ensures outcome != Ok ==> bookings == old(bookings) && nextId == old(nextId)
      ensures outcome == Ok ==>
        && |bookings| == |old(bookings)| + 1
        && bookings[..|old(bookings)|] == old(bookings)
        && bookings[|old(bookings)|].userId == uid
        && bookings[|old(bookings)|].ovenId == ovenId
        && bookings[|old(bookings)|].startTime == start
        && bookings[|old(bookings)|].endTime == end
        && bookings[|old(bookings)|].title == ComposeTitle(title, userName)
        && bookings[|old(bookings)|].createdAt == now
        && bookings[|old(bookings)|].id !in (set b | b in old(bookings) :: b.id)
      ensures outcome == Ok ==> ActiveCount(bookings, uid, now) <= MaxActiveBookings
      ensures old(NoDoubleBooking(bookings)) ==> NoDoubleBooking(bookings)
    {
      if WholeHours(end - start) > MaxBookingDurationHours {
        return TooLong;
      }
      if ActiveCount(bookings, uid, now) >= MaxActiveBookings {
        return QuotaExceeded;
      }
      var candidates := Candidates(bookings, ovenId, start);
      if SomeStartsBefore(candidates, end) {
        return Conflict;
      }
      var record := NewRecord(nextId, uid, ovenId, start, end, title, now, userName);
      AcceptPreservesInvariants(bookings, nextId, uid, ovenId, start, end, title, now, userName);
      bookings := bookings + [record];
      nextId := nextId + 1;
      outcome := Ok;
    }
  }
}
