# Oven booking arbitration

A Dafny model of the booking handler of the oven-booking web application
(`POST /api/book`). A signed-in user proposes a slot `[start, end)` on one
oven; the handler applies four steps in a fixed order and either stores
exactly one new booking document or stores nothing:

1. **Duration cap** — the span, in whole hours truncated toward zero, may not
   exceed `7 * 24` hours (reply 400).
2. **Quota** — the user may hold at most 2 bookings, on any oven, whose end
   instant is at or after the current time (reply 403).
3. **Conflict check**, in two phases — a broad query for the bookings on the
   same oven that end strictly after `start`, then a precise test whether any
   of them starts strictly before `end` (reply 400).
4. **Commit** — one record is inserted with the owner's uid, the oven, the
   slot, the creation instant and the title `"<title> (by <name>)"`, where
   `<name>` is the user document's name or `"Unknown User"`.

Instants are integer milliseconds. The `bookings` collection is the class
`Store.BookingStore` holding a `seq<Booking>`; one call of its method `Book`
stands for the whole request, so the surrounding transaction is the atomicity
of that call. The pure rules (`Booking` module) are specified by independent
reference definitions: the duration cap against "at least 169 full hours",
the two-phase filter against the symmetric half-open overlap test, the
outcome of a request against the three checks, and the commit against the
invariant that no two bookings on one oven overlap.

The stored title is read back by the dashboard, which shows the part before
the first `" (by"` (app/(main)/dashboard/page.tsx, line 218); the model
states when that split recovers the requested title.

Files: `wrappers.dfy` (the optional user name), `booking.dfy` (rules and their
properties), `store.dfy` (the collection and the handler).

The handler does not check `start < end`, and the model does not either: an
empty or inverted slot is accepted when it passes the three checks. Because
the hour count is truncated toward zero, a negative span never trips the
duration cap (its hour count is at most 0), and neither does any span short of
169 full hours: 168 h plus 1 ms, or 168 h 59 min, passes.

## Model

| member | source | states |
|---|---|---|
| Booking.WholeHours | app/api/book/route.ts:23 | the span in whole hours truncated toward zero: for a non-negative span `h*3600000 <= ms < (h+1)*3600000`, mirrored for a negative span |
| Booking.TooLongSpanIff | app/api/book/route.ts:8-25 | the duration check rejects exactly the spans of at least 169 full hours, so a negative span never trips it |
| Booking.TooLongSpan | app/api/book/route.ts:23 | the duration check: the truncated whole-hour span exceeds 168; its meaning is stated by `TooLongSpanIff` |
| Booking.DurationBoundary | app/api/book/route.ts:8-25 | exactly 168 h, 168 h plus 1 ms, 168 h 59 min, and 169 h minus 1 ms pass; 169 h is rejected |
| Booking.ActiveCount | app/api/book/route.ts:28-33 | the size of the user's active-booking query is at most the store size, and is 0 exactly when no booking of the user ends at or after `now` |
| Booking.ActiveCountAppend | app/api/book/route.ts:28-33 | adding one record raises the active count by one exactly when that record is the user's and ends at or after `now` |
| Booking.ActiveCountAntitone | app/api/book/route.ts:30-33 | for a later `now` the active count never grows |
| Booking.ActiveCountDropsWhenEnded | app/api/book/route.ts:28-33 | when one of the user's bookings active at `now1` has ended by a later `now2`, the count at `now2` is strictly smaller |
| Booking.QuotaFreedWhenBookingEnds | app/api/book/route.ts:28-35 | a user at the limit of 2 is no longer rejected for the quota once one of their active bookings has ended |
| Booking.AllEndedAllowsBooking | app/api/book/route.ts:9-35 | once all of a user's bookings have ended, the user is below the quota |
| Booking.OverlapsSymmetric | app/api/book/route.ts:45-54 | the half-open overlap test is symmetric in its two intervals |
| Booking.Candidates | app/api/book/route.ts:43-47 | the broad query returns exactly the bookings on the requested oven that end strictly after `start` (both directions of membership) |
| Booking.SomeStartsBefore | app/api/book/route.ts:50-55 | the precise check is true exactly when some candidate starts strictly before `end` |
| Booking.HasConflict | app/api/book/route.ts:43-55 | the two-phase conflict check, the precise predicate applied to the broad query; its meaning is stated by `TwoPhaseIsOverlap` |
| Booking.TwoPhaseIsOverlap | app/api/book/route.ts:43-55 | the broad query followed by the precise check finds a conflict exactly when some booking on the same oven satisfies `existingStart < end && start < existingEnd` |
| Booking.OtherOvenIrrelevant | app/api/book/route.ts:44 | a booking on another oven never causes or removes a conflict |
| Booking.AdjacencyAllowed | app/api/book/route.ts:45-54 | a booking ending exactly at `start`, or starting exactly at `end`, is not a conflict |
| Booking.OneUnitOverlapConflicts | app/api/book/route.ts:45-54 | every slot that starts before a non-empty booking ends and reaches one millisecond into it is a conflict |
| Booking.AppendPreservesNoDoubleBooking | app/api/book/route.ts:43-74 | appending a record that passed the conflict check keeps every pair of distinct same-oven records non-overlapping |
| Booking.DisplayName | app/api/book/route.ts:63-64 | the user document's name, or "Unknown User" when the document does not exist; used by `ComposeTitle` |
| Booking.ComposeTitle | app/api/book/route.ts:64-72 | the stored title is the requested title, then `" (by "`, then the user's name or `"Unknown User"`, then `")"` |
| Booking.ComposeTitleDeterminesName | app/api/book/route.ts:64-72 | two stored titles for the same requested title are equal only if they name the same owner |
| Booking.TitleBeforeOwner | app/api/book/route.ts:72 | the requested title read back out of the stored title: the part before the first " (by", as the dashboard list at app/(main)/dashboard/page.tsx line 218 shows it |
| Booking.TitleRoundTrip | app/api/book/route.ts:64-72 | when the requested title contains no " (by", splitting the stored title gives back exactly the requested title |
| Booking.TitleWithMarkerCutShort | app/api/book/route.ts:72 | a requested title containing " (by" comes back cut short: "Cake (by hand)" is shown as "Cake" |
| Booking.Decide | app/api/book/route.ts:23-59 | the outcome of a request: duration cap, then quota, then conflict check; its meaning is stated by the four `Decide…Iff` lemmas |
| Booking.NewRecord | app/api/book/route.ts:66-74 | the record a successful request writes: uid, oven, slot, composed title and `createdAt = now`; the fields are stated by `Store.BookingStore.Book` |
| Booking.DecideTooLongIff | app/api/book/route.ts:23-25 | a request is rejected as too long exactly when its span is at least 169 full hours, whatever the store holds (checked first) |
| Booking.DecideQuotaIff | app/api/book/route.ts:28-35 | a request is rejected for the quota exactly when its span passes and the user already has 2 or more bookings ending at or after `now` |
| Booking.DecideConflictIff | app/api/book/route.ts:37-59 | a request is rejected as a conflict exactly when span and quota pass and some booking on the same oven overlaps `[start, end)` |
| Booking.DecideOkIff | app/api/book/route.ts:23-75 | a request is accepted exactly when the span, the quota and the overlap checks all pass |
| Booking.AcceptPreservesInvariants | app/api/book/route.ts:33-74 | an accepted request had fewer than 2 active bookings before, leaves at most 2 after, and keeps the store free of double bookings |
| Booking.ReplyFor | app/api/book/route.ts:24-80 | success exactly for an accepted request; status 403 exactly for the quota; status 400 for a too-long slot or a conflict |
| Store.BookingStore.constructor | app/api/book/route.ts:38 | a store holding the given documents with distinct ids |
| Store.BookingStore.Book | app/api/book/route.ts:11-82 | the outcome is the three checks in order; a rejected call leaves the store unchanged; an accepted call appends exactly one record with the uid, oven, slot, composed title, `createdAt = now` and a fresh id, keeps every existing record, keeps the no-double-booking invariant and leaves the user at most 2 active bookings |

## Left out

- Authentication (`verifyUser`, app/api/book/route.ts:12-16) calls code that is not part of this model; `uid` is a trusted input.
- Request parsing (JSON body, `new Date(...)`, app/api/book/route.ts:19-21) is not modelled; instants are integers and invalid dates never arise.
- Firestore and Next.js plumbing (queries, `runTransaction`, `Timestamp` conversion, `NextResponse.json`) become an in-memory sequence, one atomic method call and the `Reply` value.
- The two server-clock reads (the quota query and `createdAt`) are modelled as one `now` parameter.
- Firestore's random document ids are modelled by a counter that yields a fresh id; only freshness is relied on.
- Concurrency is not modelled: the quota query runs outside the transaction, so concurrent requests can both pass it, and transaction retries are not represented. Only sequential calls are modelled.
- A user document that exists without a `name` field (which would put "undefined" into the title) is not modelled; the name is an `Option<string>`.
- Errors other than a conflict that the catch block turns into a 400 reply (storage failures, malformed bodies) are not modelled.
- Editing a booking (app/api/book/[bookingId]/route.ts), cancelling one (the `/api/cancel` route, whose source is not part of this model) and the read-only listing (app/api/bookings/route.ts) are not modelled.
