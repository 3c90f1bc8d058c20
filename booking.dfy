/**
 * The booking rules of the oven-booking API (`POST /api/book`): the duration
 * cap, the per-user quota of active bookings, the two-phase conflict check and
 * the composition of the stored title, as pure functions over the collection
 * of booking records, together with the properties they guarantee.
 *
 * Instants are integer milliseconds since the epoch.
 */
module Booking {
  import opened Wrappers

  /** Largest booking span, in whole hours (seven days). */
  const MaxBookingDurationHours: int := 7 * 24
  /** Largest number of bookings a user may hold that have not yet ended. */
  const MaxActiveBookings: nat := 2
  /** Milliseconds in one hour. */
  const MillisPerHour: int := 3600000

  /** One stored booking document. */
  datatype Booking = Booking(
    id: nat,
    userId: string,
    ovenId: string,
    startTime: int,
    endTime: int,
    title: string,
    createdAt: int)

  /** The terminal outcome of one booking request. */
  datatype Outcome = Ok | TooLong | QuotaExceeded | Conflict

  /** The JSON reply sent back to the client. */
  datatype Reply = Reply(success: bool, status: nat, message: string)

  // ---------------------------------------------------------------------
  // Duration cap
  // ---------------------------------------------------------------------

  /** The span `ms` in whole hours, truncated toward zero (the rounding of a
      moment.js `diff(..., 'hours')`). */
  function WholeHours(ms: int): (h: int)
    ensures ms >= 0 ==> 0 <= h && h * MillisPerHour <= ms < (h + 1) * MillisPerHour
    ensures ms < 0 ==> h <= 0 && -h * MillisPerHour <= -ms < (-h + 1) * MillisPerHour
  {
    if ms >= 0 then ms / MillisPerHour else -((-ms) / MillisPerHour)
  }

  /** The duration check: the truncated whole-hour span exceeds the cap. */
  predicate TooLongSpan(start: int, end: int)
  {
    WholeHours(end - start) > MaxBookingDurationHours
  }

  /** The duration check rejects exactly the spans of at least 169 full hours;
      in particular a negative span never trips it, and 168 h 59 min passes. */
  lemma TooLongSpanIff(start: int, end: int)
    ensures TooLongSpan(start, end) <==> end - start >= (MaxBookingDurationHours + 1) * MillisPerHour
  {
    var h := WholeHours(end - start);
    if end - start >= 0 {
      if h > MaxBookingDurationHours {
        assert h >= MaxBookingDurationHours + 1;
        assert h * MillisPerHour >= (MaxBookingDurationHours + 1) * MillisPerHour;
      } else {
        assert (h + 1) * MillisPerHour <= (MaxBookingDurationHours + 1) * MillisPerHour;
      }
    }
  }

  /** A span of exactly seven days, of seven days plus one millisecond, or of
      seven days plus 59 minutes, passes; one millisecond short of 169 hours
      still passes, a full 169 hours does not. */
  lemma DurationBoundary(start: int)
    ensures !TooLongSpan(start, start + 168 * MillisPerHour)
    ensures !TooLongSpan(start, start + 168 * MillisPerHour + 1)
    ensures !TooLongSpan(start, start + 168 * MillisPerHour + 59 * 60000)
    ensures !TooLongSpan(start, start + 169 * MillisPerHour - 1)
    ensures TooLongSpan(start, start + 169 * MillisPerHour)
  {
    TooLongSpanIff(start, start + 168 * MillisPerHour);
    TooLongSpanIff(start, start + 168 * MillisPerHour + 1);
    TooLongSpanIff(start, start + 168 * MillisPerHour + 59 * 60000);
    TooLongSpanIff(start, start + 169 * MillisPerHour - 1);
    TooLongSpanIff(start, start + 169 * MillisPerHour);
  }

  // ---------------------------------------------------------------------
  // Per-user quota
  // ---------------------------------------------------------------------

  /** A booking of `uid` that has not ended at `now` (end instant inclusive). */
  predicate ActiveFor(b: Booking, uid: string, now: int)
  {
    b.userId == uid && b.endTime >= now
  }

  /** The size of the query "bookings of `uid` with `endTime >= now`". */
  function ActiveCount(bs: seq<Booking>, uid: string, now: int): (n: nat)
    ensures n <= |bs|
    ensures n == 0 <==> forall b :: b in bs ==> !ActiveFor(b, uid, now)
  {
    if bs == [] then 0
    else (if ActiveFor(bs[0], uid, now) then 1 else 0) + ActiveCount(bs[1..], uid, now)
  }

  /** Adding one record raises the count by one exactly when that record is active. */
  lemma {:induction false} ActiveCountAppend(bs: seq<Booking>, b: Booking, uid: string, now: int)
    ensures ActiveCount(bs + [b], uid, now)
            == ActiveCount(bs, uid, now) + (if ActiveFor(b, uid, now) then 1 else 0)
  {
    if bs == [] {
      assert bs + [b] == [b];
    } else {
      assert (bs + [b])[1..] == bs[1..] + [b];
      ActiveCountAppend(bs[1..], b, uid, now);
    }
  }

  /** As time passes the count of active bookings never grows. */
  lemma {:induction false} ActiveCountAntitone(bs: seq<Booking>, uid: string, now1: int, now2: int)
    requires now1 <= now2
    ensures ActiveCount(bs, uid, now2) <= ActiveCount(bs, uid, now1)
  {
    if bs != [] {
      ActiveCountAntitone(bs[1..], uid, now1, now2);
    }
  }

  /** When one of the user's active bookings has ended by the later instant,
      the count at that instant is strictly smaller. */
  lemma {:induction false} ActiveCountDropsWhenEnded(bs: seq<Booking>, b: Booking, uid: string, now1: int, now2: int)
    requires now1 <= now2
    requires b in bs && ActiveFor(b, uid, now1) && b.endTime < now2
    ensures ActiveCount(bs, uid, now2) < ActiveCount(bs, uid, now1)
  {
    if bs[0] == b {
      ActiveCountAntitone(bs[1..], uid, now1, now2);
    } else {
      ActiveCountDropsWhenEnded(bs[1..], b, uid, now1, now2);
    }
  }

  /** Once every booking of `uid` has ended, the user is below the quota. */
  lemma AllEndedAllowsBooking(bs: seq<Booking>, uid: string, now: int)
    requires forall b :: b in bs && b.userId == uid ==> b.endTime < now
    ensures ActiveCount(bs, uid, now) < MaxActiveBookings
  {
  }

  // ---------------------------------------------------------------------
  // Conflict check
  // ---------------------------------------------------------------------

  /** Half-open intervals [s1, e1) and [s2, e2) overlap. */
  predicate Overlaps(s1: int, e1: int, s2: int, e2: int)
  {
    s1 < e2 && s2 < e1
  }

  /** Overlap does not depend on which interval is named first. */
  lemma OverlapsSymmetric(s1: int, e1: int, s2: int, e2: int)
    ensures Overlaps(s1, e1, s2, e2) <==> Overlaps(s2, e2, s1, e1)
  {
  }

  /** The broad query: bookings on `ovenId` ending strictly after `start`,
      in store order. */
  function Candidates(bs: seq<Booking>, ovenId: string, start: int): (r: seq<Booking>)
    ensures |r| <= |bs|
    ensures forall b :: b in r <==> b in bs && b.ovenId == ovenId && b.endTime > start
  {
    if bs == [] then []
    else if bs[0].ovenId == ovenId && bs[0].endTime > start then [bs[0]] + Candidates(bs[1..], ovenId, start)
    else Candidates(bs[1..], ovenId, start)
  }

  /** The precise check over the candidates: some candidate starts strictly
      before `end`. */
  function SomeStartsBefore(cs: seq<Booking>, end: int): (r: bool)
    ensures r <==> exists b :: b in cs && b.startTime < end
  {
    if cs == [] then false
    else cs[0].startTime < end || SomeStartsBefore(cs[1..], end)
  }

  /** The two-phase conflict check of a proposed slot [start, end) on `ovenId`. */
  predicate HasConflict(bs: seq<Booking>, ovenId: string, start: int, end: int)
  {
    SomeStartsBefore(Candidates(bs, ovenId, start), end)
  }

  /** The broad query followed by the precise predicate finds a conflict exactly
      when some booking on the same oven overlaps the proposed slot. */
  lemma TwoPhaseIsOverlap(bs: seq<Booking>, ovenId: string, start: int, end: int)
    ensures HasConflict(bs, ovenId, start, end)
            <==> exists b :: b in bs && b.ovenId == ovenId && Overlaps(b.startTime, b.endTime, start, end)
  {
    var cs := Candidates(bs, ovenId, start);
    if HasConflict(bs, ovenId, start, end) {
      var b :| b in cs && b.startTime < end;
      assert b in bs && b.ovenId == ovenId && Overlaps(b.startTime, b.endTime, start, end);
    }
  }

  /** A booking on another oven never causes or removes a conflict. */
  lemma OtherOvenIrrelevant(bs: seq<Booking>, b: Booking, ovenId: string, start: int, end: int)
    requires b.ovenId != ovenId
    ensures HasConflict(bs + [b], ovenId, start, end) == HasConflict(bs, ovenId, start, end)
  {
    TwoPhaseIsOverlap(bs + [b], ovenId, start, end);
    TwoPhaseIsOverlap(bs, ovenId, start, end);
    forall x | x in bs + [b] && x.ovenId == ovenId
      ensures x in bs
    {
    }
  }

  /** Adjacent bookings are allowed: a booking ending exactly at `start`, or
      starting exactly at `end`, is not a conflict. */
  lemma AdjacencyAllowed(b: Booking, start: int, end: int)
    requires b.endTime == start || b.startTime == end
    ensures !HasConflict([b], b.ovenId, start, end)
  {
    TwoPhaseIsOverlap([b], b.ovenId, start, end);
  }

  /** Any slot that starts before a non-empty booking ends and reaches one
      millisecond into it is a conflict. */
  lemma OneUnitOverlapConflicts(b: Booking, start: int)
    requires b.startTime < b.endTime
    requires start < b.endTime
    ensures HasConflict([b], b.ovenId, start, b.startTime + 1)
  {
    TwoPhaseIsOverlap([b], b.ovenId, start, b.startTime + 1);
    assert b in [b];
  }

  /** No two distinct records on the same oven have overlapping slots. */
  predicate NoDoubleBooking(bs: seq<Booking>)
  {
    forall i, j :: 0 <= i < |bs| && 0 <= j < |bs| && i != j && bs[i].ovenId == bs[j].ovenId
      ==> !Overlaps(bs[i].startTime, bs[i].endTime, bs[j].startTime, bs[j].endTime)
  }

  /** Appending a record that passed the conflict check keeps the store free of
      double bookings. */
  lemma AppendPreservesNoDoubleBooking(bs: seq<Booking>, rec: Booking)
    requires NoDoubleBooking(bs)
    requires !HasConflict(bs, rec.ovenId, rec.startTime, rec.endTime)
    ensures NoDoubleBooking(bs + [rec])
  {
    TwoPhaseIsOverlap(bs, rec.ovenId, rec.startTime, rec.endTime);
    var s := bs + [rec];
    forall i, j | 0 <= i < |s| && 0 <= j < |s| && i != j && s[i].ovenId == s[j].ovenId
      ensures !Overlaps(s[i].startTime, s[i].endTime, s[j].startTime, s[j].endTime)
    {
      if i == |bs| {
        assert s[j] in bs;
      } else if j == |bs| {
        assert s[i] in bs;
      } else {
        assert s[i] == bs[i] && s[j] == bs[j];
      }
    }
  }

  // ---------------------------------------------------------------------
  // Title composition
  // ---------------------------------------------------------------------

  /** The owner's display name: the user document's name, or "Unknown User"
      when there is no user document. */
  function DisplayName(userName: Option<string>): string
  {
    match userName
    case Some(name) => name
    case None => "Unknown User"
  }

  /** The stored title "<title> (by <name>)". */
  function ComposeTitle(title: string, userName: Option<string>): (r: string)
    ensures |r| == |title| + |DisplayName(userName)| + 6
    ensures r[..|title|] == title
    ensures r[|title|..|title| + 5] == " (by "
    ensures r[|title| + 5..|r| - 1] == DisplayName(userName)
    ensures r[|r| - 1] == ')'
  {
    title + " (by " + DisplayName(userName) + ")"
  }

  /** Titles composed for the same requested title carry the owner's name
      recoverably: equal stored titles mean equal display names. */
  lemma ComposeTitleDeterminesName(title: string, u1: Option<string>, u2: Option<string>)
    requires ComposeTitle(title, u1) == ComposeTitle(title, u2)
    ensures DisplayName(u1) == DisplayName(u2)
  {
    var r := ComposeTitle(title, u1);
    assert DisplayName(u1) == r[|title| + 5..|r| - 1] == DisplayName(u2);
  }

  /** The title shown back to its owner: the part of the stored title before
      the first occurrence of " (by" (`title.split(' (by')[0]` in the
      dashboard's list of upcoming bookings). */
  function TitleBeforeOwner(s: string): string
  {
    if |s| < |OwnerMarker| then s
    else if s[..|OwnerMarker|] == OwnerMarker then []
    else [s[0]] + TitleBeforeOwner(s[1..])
  }

  /** The separator searched for when a stored title is split. */
  const OwnerMarker: string := " (by"

  /** `s` has the separator at position `i`. */
  predicate MarkerAt(s: string, i: int)
  {
    0 <= i && i + |OwnerMarker| <= |s| && s[i..i + |OwnerMarker|] == OwnerMarker
  }

  /** Splitting stops at the first separator. */
  lemma {:induction false} TitleBeforeFirstMarker(s: string, n: nat)
    requires MarkerAt(s, n)
    requires forall i :: 0 <= i < n ==> !MarkerAt(s, i)
    ensures TitleBeforeOwner(s) == s[..n]
  {
    if n == 0 {
      assert s[..|OwnerMarker|] == OwnerMarker;
    } else {
      assert !MarkerAt(s, 0);
      forall i | 0 <= i < n - 1
        ensures !MarkerAt(s[1..], i)
      {
        assert !MarkerAt(s, i + 1);
        assert s[1..][i..i + |OwnerMarker|] == s[i + 1..i + 1 + |OwnerMarker|];
      }
      assert s[1..][n - 1..n - 1 + |OwnerMarker|] == s[n..n + |OwnerMarker|];
      TitleBeforeFirstMarker(s[1..], n - 1);
      assert s[..n] == [s[0]] + s[1..][..n - 1];
    }
  }

  /** Splitting the stored title recovers the requested title exactly when
      nothing in the requested title looks like the separator. */
  lemma TitleRoundTrip(title: string, userName: Option<string>)
    requires forall i :: !MarkerAt(title, i)
    ensures TitleBeforeOwner(ComposeTitle(title, userName)) == title
  {
    var s := ComposeTitle(title, userName);
    var t := |title|;
    assert s[t..t + 4] == OwnerMarker by {
      assert s[t..t + 4] == s[t..t + 5][..4];
    }
    forall i | 0 <= i < t
      ensures !MarkerAt(s, i)
    {
      if i + 4 <= t {
        assert s[i..i + 4] == title[i..i + 4];
        assert !MarkerAt(title, i);
      } else {
        // the separator would straddle the end of the requested title, where
        // the appended " (by" puts a space; no later character of " (by" is one
        assert s[i..i + 4][t - i] == s[t] == ' ' != OwnerMarker[t - i];
      }
    }
    TitleBeforeFirstMarker(s, t);
  }

  /** A requested title that itself contains " (by" is cut short when shown:
      "Cake (by hand)" comes back as "Cake". */
  lemma TitleWithMarkerCutShort(userName: Option<string>)
    ensures TitleBeforeOwner(ComposeTitle("Cake (by hand)", userName)) == "Cake"
  {
    var title := "Cake (by hand)";
    var s := ComposeTitle(title, userName);
    forall i | 0 <= i < 4
      ensures !MarkerAt(s, i)
    {
      assert s[i] == title[i] != ' ';
      assert s[i..i + 4][0] == s[i];
    }
    assert s[4..8] == title[4..8] == OwnerMarker;
    TitleBeforeFirstMarker(s, 4);
    assert s[..4] == title[..4] == "Cake";
  }

  // ---------------------------------------------------------------------
  // The arbitration of one request
  // ---------------------------------------------------------------------

  /** The outcome of a booking request against the store `bs`: the duration
      cap first, then the quota, then the conflict check. */
  function Decide(bs: seq<Booking>, uid: string, ovenId: string, start: int, end: int, now: int): Outcome
  {
    if TooLongSpan(start, end) then TooLong
    else if ActiveCount(bs, uid, now) >= MaxActiveBookings then QuotaExceeded
    else if HasConflict(bs, ovenId, start, end) then Conflict
    else Ok
  }

  /** The record a successful request inserts. */
  function NewRecord(id: nat, uid: string, ovenId: string, start: int, end: int,
                     title: string, now: int, userName: Option<string>): Booking
  {
    Booking(id, uid, ovenId, start, end, ComposeTitle(title, userName), now)
  }

  /** Too long exactly when the span is at least 169 full hours, whatever the
      store holds: the duration cap is evaluated before anything else. */
  lemma DecideTooLongIff(bs: seq<Booking>, uid: string, ovenId: string, start: int, end: int, now: int)
    ensures Decide(bs, uid, ovenId, start, end, now) == TooLong
            <==> end - start >= (MaxBookingDurationHours + 1) * MillisPerHour
  {
    TooLongSpanIff(start, end);
  }

  /** Rejected for the quota exactly when the span passes and the user already
      holds two or more bookings, on any oven, ending at or after `now`. */
  lemma DecideQuotaIff(bs: seq<Booking>, uid: string, ovenId: string, start: int, end: int, now: int)
    ensures Decide(bs, uid, ovenId, start, end, now) == QuotaExceeded
            <==> end - start < (MaxBookingDurationHours + 1) * MillisPerHour
                 && ActiveCount(bs, uid, now) >= MaxActiveBookings
  {
    TooLongSpanIff(start, end);
  }

  /** Rejected as a conflict exactly when the span and the quota pass and some
      booking on the same oven overlaps [start, end). */
  lemma DecideConflictIff(bs: seq<Booking>, uid: string, ovenId: string, start: int, end: int, now: int)
    ensures Decide(bs, uid, ovenId, start, end, now) == Conflict
            <==> end - start < (MaxBookingDurationHours + 1) * MillisPerHour
                 && ActiveCount(bs, uid, now) < MaxActiveBookings
                 && exists b :: b in bs && b.ovenId == ovenId && Overlaps(b.startTime, b.endTime, start, end)
  {
    TooLongSpanIff(start, end);
    TwoPhaseIsOverlap(bs, ovenId, start, end);
  }

  /** A user at the quota can book again (is no longer rejected for the quota)
      once one of their active bookings has ended. */
  lemma QuotaFreedWhenBookingEnds(bs: seq<Booking>, b: Booking, uid: string, ovenId: string,
                                  start: int, end: int, now1: int, now2: int)
    requires now1 <= now2
    requires ActiveCount(bs, uid, now1) == MaxActiveBookings
    requires b in bs && ActiveFor(b, uid, now1) && b.endTime < now2
    ensures Decide(bs, uid, ovenId, start, end, now2) != QuotaExceeded
  {
    ActiveCountDropsWhenEnded(bs, b, uid, now1, now2);
  }

  /** Accepted exactly when all three checks pass. */
  lemma DecideOkIff(bs: seq<Booking>, uid: string, ovenId: string, start: int, end: int, now: int)
    ensures Decide(bs, uid, ovenId, start, end, now) == Ok
            <==> end - start < (MaxBookingDurationHours + 1) * MillisPerHour
                 && ActiveCount(bs, uid, now) < MaxActiveBookings
                 && forall b :: b in bs && b.ovenId == ovenId ==> !Overlaps(b.startTime, b.endTime, start, end)
  {
    TooLongSpanIff(start, end);
    TwoPhaseIsOverlap(bs, ovenId, start, end);
  }

  /** An accepted request leaves the store free of double bookings if it was,
      and leaves the user with at most two active bookings. */
  lemma AcceptPreservesInvariants(bs: seq<Booking>, id: nat, uid: string, ovenId: string, start: int, end: int,
                                  title: string, now: int, userName: Option<string>)
    requires Decide(bs, uid, ovenId, start, end, now) == Ok
    ensures ActiveCount(bs, uid, now) < MaxActiveBookings
    ensures ActiveCount(bs + [NewRecord(id, uid, ovenId, start, end, title, now, userName)], uid, now)
            <= MaxActiveBookings
    ensures NoDoubleBooking(bs) ==> NoDoubleBooking(bs + [NewRecord(id, uid, ovenId, start, end, title, now, userName)])
  {
    var rec := NewRecord(id, uid, ovenId, start, end, title, now, userName);
    ActiveCountAppend(bs, rec, uid, now);
    if NoDoubleBooking(bs) {
      AppendPreservesNoDoubleBooking(bs, rec);
    }
  }

  // ---------------------------------------------------------------------
  // The reply
  // ---------------------------------------------------------------------

  /** The JSON reply for an outcome: 200 on success, 400 for a slot that is
      too long, 403 for the quota, and 400 with the thrown message for a
      conflict. */
  function ReplyFor(o: Outcome): (r: Reply)
    ensures r.success <==> o == Ok
    ensures r.status == 200 <==> o == Ok
    ensures r.status == 403 <==> o == QuotaExceeded
    ensures r.status == 400 <==> o == TooLong || o == Conflict
  {
    match o
    case Ok => Reply(true, 200, "Booking successful")
    case TooLong => Reply(false, 400, "Booking cannot exceed 7 days.")
    case QuotaExceeded => Reply(false, 403, "You have reached your limit of 2 active bookings.")
    case Conflict => Reply(false, 400, "This time slot conflicts with an existing booking.")
  }
}
