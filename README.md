# Sobeneficial booking ledger in Dafny

This project models the booking ledger behind the `/psm` routes of Sobeneficial, a FastAPI
back end for pro-bono help offers. Offer owners publish offers and open time slots on them.
Requesters ask for an offer, and a request may spend a sponsor-donated gift unit. An owner
accepts a request, which can book a slot seat and creates an engagement. Either party of an
engagement moves it through schedule, complete and cancel. Requesters review completed
engagements, and anyone rates any entity. The database URL is normalised before the engine is
built.

The database is one class, `Store.Db`, with one field per table:

- offers, slots, gifts, requests, engagements and reviews are sequences, and a row's id is its
  position;
- ratings is a map keyed by (entity, entity_id, rater).

Each handler is one method over the `Db`. Its `requires` and `ensures` keep `Db.Valid()`: slot
reservations stay within capacity, gift usage stays within the pool's units, ids match
positions, and the review uniqueness constraints hold. An error raised before a handler's
commit leaves every table as it was.

The read-only routes are functions over the tables:

- the listings, filters and paging;
- the next-slot and by-day calendars;
- the gift counts.

The arithmetic of the slot and gift ledgers lives in `SlotLedger` and `GiftLedger`. Each
atomic `UPDATE` is one function there, and the lemmas say what a run of them does:

- no overbooking;
- no gift unit handed out twice;
- release undoes a reserve.

Clocks are an integer `now` parameter in seconds. A `date` is a day number, and 00:00 UTC of day
`d` is `d * 86400`.

## Behaviour as written

The model follows the code where the code and its comments or design disagree:

- `update_request` never checks that a request is still pending. An accepted, declined or
  withdrawn request can be accepted again, and each accept books another seat and creates
  another engagement.
- `update_engagement` never checks the current state. Cancelling twice releases the bound slot
  twice, which frees a seat another booking holds (`SlotLedger.DoubleReleaseLosesABooking`).
- The two gift-consuming paths disagree:
  - `create_request` takes pools with `valid_until >= now()`, and `update_request` takes pools
    with `valid_until > now()` (`GiftLedger.ExpiryBoundaryDiffers`);
  - only the accept path marks a drained pool `exhausted`
    (`GiftLedger.RequestPathLeavesDrainedPoolActive`);
  - the accept path counts down `units_remaining`, which is modelled as `units - used`.
- `create_gift` accepts `valid_until` but never stores it, so a created pool never expires.
- Two routes answer `/psm/offers/{offer_id}/gifts/available`. The offers router is mounted
  first, so its count, `PsmOffers.ActiveGiftUnits`, answers. That count has no expiry filter and
  no floor at zero. The gift router's `GiftLedger.Available` is modelled too.
- `GET /psm/offers/{offer_id}/slots` is declared twice, and the first declaration, `list_slots`,
  shadows `list_slots_by_range`. Both are modelled.
- `GET /psm/offers/{offer_id}` is declared before `GET /psm/offers/availability.by_day` in the
  same router. `offer_id` is a string, so `get_offer` takes the calendar path with the id
  `availability.by_day`. The calendar route is not reachable, but
  `PsmOffers.AvailabilityByDay` models it all the same.
- The slot routes never check that the caller owns the offer.

## Model

| member | source | states |
|---|---|---|
| SlotLedger.TryReserve | backend/app/api/v1/routes_psm_requests.py:162-181 | The reserve update applies exactly when the slot belongs to the offer, is not cancelled and has a free seat. It adds exactly one reservation and sets `full` when the last seat goes, otherwise leaving the status. It keeps `reserved <= capacity` and the slot invariant. |
| SlotLedger.Release | backend/app/api/v1/routes_psm_engagements.py:91-96 | Release removes one reservation, floored at 0. A `full` slot of a consistent ledger reopens, and any other status, `cancelled` included, is kept. The slot invariant is preserved. |
| SlotLedger.Cancel | backend/app/api/v1/routes_psm_slots.py:91-98 | A soft cancel sets `cancelled` and changes no other field, so reservations, capacity and offer are kept. No reserve succeeds on the cancelled slot afterwards. |
| SlotLedger.CancelIdempotent | backend/app/api/v1/routes_psm_slots.py:91-104 | Cancelling a cancelled slot changes nothing. |
| SlotLedger.ReleaseUndoesReserve | backend/app/api/v1/routes_psm_engagements.py:91-96 | Releasing right after a successful reserve restores the slot exactly, status included. |
| SlotLedger.DoubleReleaseLosesABooking | backend/app/api/v1/routes_psm_engagements.py:81-96 | With two bookings held, two releases for one engagement leave zero reservations. One booking is no longer counted. |
| SlotLedger.AtMostCapacityReservations | backend/app/api/v1/routes_psm_requests.py:162-181 | Of `n` reserve attempts on a live slot, exactly `min(n, capacity - reserved)` succeed. `reserved` never passes `capacity`, and the slot is `full` exactly when every seat is taken. |
| GiftLedger.Oldest | backend/app/api/v1/routes_psm_requests.py:40-51 | `order by created_at asc limit 1` finds an eligible pool exactly when one exists. No eligible pool is older, and ties go to the first row. |
| GiftLedger.TakeOnRequest | backend/app/api/v1/routes_psm_requests.py:52-57 | The request path adds one to `used` and leaves the status alone. It keeps the pool invariant when a unit is left. |
| GiftLedger.TakeOnAccept | backend/app/api/v1/routes_psm_requests.py:199-208 | The accept path uses one unit and marks the pool `exhausted` exactly when none remains. |
| GiftLedger.ConsumeOnRequest | backend/app/api/v1/routes_psm_requests.py:39-61 | It takes a unit exactly when some pool is eligible (active, `valid_until >= now`, `used < units`). The unit comes from the oldest eligible pool, the first such row on a tie, and no pool changes otherwise. |
| GiftLedger.ConsumeOnAccept | backend/app/api/v1/routes_psm_requests.py:185-214 | It takes a unit exactly when some pool is eligible (active, `valid_until > now`, a unit left). The unit comes from the oldest eligible pool, the first such row on a tie, and no pool changes otherwise. |
| GiftLedger.SumRemaining | backend/app/api/v1/routes_psm_gifts.py:42 | `coalesce(sum(greatest(units - used, 0)), 0)` is never negative. |
| GiftLedger.Available | backend/app/api/v1/routes_psm_gifts.py:39-49 | The gift router's count sums the offer's active, unexpired pools and is never negative. |
| GiftLedger.SumRemainingZero | backend/app/api/v1/routes_psm_gifts.py:41-49 | The count is 0 exactly when no selected pool has a unit left. |
| GiftLedger.ConsumeOnRequestMatchesAvailable | backend/app/api/v1/routes_psm_requests.py:39-61 | `create_request` finds no unit exactly when `gifts_available` reports 0. Each unit it takes lowers that count by one, and the ledger invariant is kept. |
| GiftLedger.ConsumeOnAcceptTakesOne | backend/app/api/v1/routes_psm_requests.py:185-214 | The accept path takes a unit exactly when a live pool has one. Each take lowers the live supply by one. |
| GiftLedger.AcceptAttemptsTakeAtMostSupply | backend/app/api/v1/routes_psm_requests.py:185-214 | Of `n` accepts with `use_gift`, exactly `min(n, supply)` get a unit, and the supply drops by that many. No unit is handed out twice. |
| GiftLedger.RequestPathLeavesDrainedPoolActive | backend/app/api/v1/routes_psm_requests.py:52-54 | A pool drained by the request path stays `active` with nothing left. |
| GiftLedger.ExpiryBoundaryDiffers | backend/app/api/v1/routes_psm_requests.py:194 | At `now == valid_until`, `create_request` takes the pool and `gifts_available` counts it, while the accept path passes it over. |
| Text.Strip | backend/app/api/v1/routes_psm_reviews.py:79 | `str.strip()` is empty exactly for all-whitespace input. Otherwise the result is the input's inner run, which starts and ends with non-whitespace, and only whitespace comes before and after it. |
| PsmRequests.CreateRequest | backend/app/api/v1/routes_psm_requests.py:17-75 | It succeeds exactly when offer and message are given and, with `use_gift`, `gifts_available` is above 0. A missing offer or message is 422. With `use_gift`, the result is 409 exactly when `gifts_available` is 0, and nothing is inserted. On success, one pending request is appended and the gift count drops by one. Failures change no table. |
| PsmRequests.NewEngagement | backend/app/api/v1/routes_psm_requests.py:226-261 | The new engagement is `scheduled` iff a slot was booked, otherwise `accepted`. Its practitioner is the owner and its requester is the request's. It carries the given id, slot and `scheduled_at`, and no completion time or cancellation reason. Its audit is one `accept` entry with the actor and slot. |
| PsmRequests.UpdateRequest | backend/app/api/v1/routes_psm_requests.py:117-291 | The checks run in order: 422 for an unknown action, 404 for an unknown request, 403 for the wrong role, 409 for a slot that cannot be reserved, and an error changes nothing. Accept reserves the slot, takes a gift best-effort, marks the request accepted and appends exactly one engagement. Decline and withdraw change only the request. |
| PsmEngagements.GetEngagement | backend/app/api/v1/routes_psm_engagements.py:11-32 | The result is 404 iff the id is unknown, 403 iff the caller is not a party, and otherwise the engagement. |
| PsmEngagements.Apply | backend/app/api/v1/routes_psm_engagements.py:57-90 | Each transition, whatever the current state, keeps the audit and appends one entry. Schedule sets state and time, complete stamps `completed_at`, and cancel records the reason. |
| PsmEngagements.AuditAppendOnly | backend/app/api/v1/routes_psm_engagements.py:66-87 | After any run of transitions, the old audit is a prefix of the new one. It has gained exactly one entry per transition, in order. |
| PsmEngagements.UpdateEngagement | backend/app/api/v1/routes_psm_engagements.py:34-102 | The checks are 422, 404, 403 for the wrong role, and 422 for a schedule without a time, and each leaves the tables unchanged. Otherwise the engagement becomes `Apply` of the step. A cancel releases the bound slot, whatever the state, and nothing else changes. |
| PsmSlots.StoredCapacity | backend/app/api/v1/routes_psm_slots.py:47-54 | The stored capacity is 1 when the payload's is absent or 0, and as given otherwise. |
| PsmSlots.CreateSlot | backend/app/api/v1/routes_psm_slots.py:34-64 | It returns 500 with nothing stored exactly when the stored capacity is below 1. Otherwise it appends an open slot with nothing reserved and the note or "". |
| PsmSlots.CancelIn | backend/app/api/v1/routes_psm_slots.py:91-102 | The result is 404 unless both the id and the offer match. Otherwise only that slot changes, and only its status, which becomes `cancelled`, and the table invariant is preserved. |
| PsmSlots.CancelInRepeatable | backend/app/api/v1/routes_psm_slots.py:91-104 | Repeating a successful cancel succeeds again and changes nothing. |
| PsmSlots.CancelSlot | backend/app/api/v1/routes_psm_slots.py:84-104 | The DELETE route applies `CancelIn` or answers 404 with nothing changed. |
| PsmSlots.CancelSlotPatch | backend/app/api/v1/routes_psm_slots.py:162-179 | The PATCH alias has exactly the outcome of the DELETE route. |
| PsmSlots.ListSlots | backend/app/api/v1/routes_psm_slots.py:67-81 | It returns every slot of the offer, whatever its status, each as often as stored and no other, ascending by start. |
| PsmSlots.InRangeByDay | backend/app/api/v1/routes_psm_slots.py:123-128 | The midnight bounds select by calendar day: a slot is in range iff the day it starts on is within `from`..`to`. |
| PsmSlots.RangeConditions | backend/app/api/v1/routes_psm_slots.py:119-128 | The appended `where` list starts with the offer condition and holds one condition per option given. Its conjunction is exactly `InRange`. |
| PsmSlots.ListSlotsByRange | backend/app/api/v1/routes_psm_slots.py:110-137 | It returns exactly the slots in range, each as often as stored, ascending by start. |
| PsmSlots.NextSlots | backend/app/api/v1/routes_psm_slots.py:140-157 | The limit is clamped to [1, 12], so at most 12 slots come back, and at most `limit` when it is in range. The result holds only open, not-full slots starting after `now`, ascending. It is short only when no more exist, and no omitted slot starts earlier than a returned one. |
| PsmGifts.CreateGift | backend/app/api/v1/routes_psm_gifts.py:20-36 | It returns 400 iff `units <= 0`, and then inserts nothing. Otherwise it appends an active pool with `used = 0`, no expiry and the given offer, sponsor, units and note. `gifts_available` then grows by `units` at every instant. |
| PsmReviews.CreateReview | backend/app/api/v1/routes_psm_reviews.py:70-130 | The checks run in order: stars outside 1..5 (400), empty stripped comment (400), unknown engagement (404), not completed (409), not the requester (403), duplicate (409). A failure stores nothing. Success stores one review with the stripped comment under the request's offer. |
| PsmReviews.ListOfferReviews | backend/app/api/v1/routes_psm_reviews.py:45-67 | It returns 422 iff `limit` is outside 1..100 or `offset < 0`. Otherwise it returns the window at `offset` of at most `limit` rows of the offer's reviews, newest first. The rows come from an ordering of exactly those reviews, so none repeats and the offset selects which come back. |
| Ratings.Upsert | backend/app/api/v1/routes_ratings.py:24-31 | The key ends up holding the new stars. No other key is added or changed, and the size grows only for a new key. |
| Ratings.UpsertOverwrites | backend/app/api/v1/routes_ratings.py:28 | Rating twice equals rating once with the later stars. |
| Ratings.Rate | backend/app/api/v1/routes_ratings.py:8-33 | It answers `ok` iff entity and entity_id are non-empty and stars is an integer in 1..5. A bad payload writes nothing, and a good one upserts the caller's rating. |
| OfferQuery.WhereParams | backend/app/api/v1/routes_psm_offers.py:162-186 | Each parameter key is bound iff its filter is given. Its value is the filter's, and `q` is bound as `%q%`. |
| OfferQuery.PatternMatches | backend/app/api/v1/routes_psm_offers.py:165-166 | The `%q%` pattern matches exactly the texts containing `q`, ignoring case. |
| OfferQuery.ClauseTestsFilter | backend/app/api/v1/routes_psm_offers.py:164-186 | Under the bound parameters, each emitted clause tests exactly its own filter. |
| OfferQuery.WhereSelectsMatches | backend/app/api/v1/routes_psm_offers.py:159-188 | The emitted clauses select exactly the offers the filters describe. |
| OfferQuery.BuildWhere | backend/app/api/v1/routes_psm_offers.py:159-188 | The `where` text starts with "true" and joins the clauses with " AND ". There is one clause per given filter. The parameters are `WhereParams`, and together they select exactly the matching offers. |
| OfferQuery.OrderClause | backend/app/api/v1/routes_psm_offers.py:191-198 | The rating order is picked iff the lower-cased sort is "rating", and the popular order iff it is "popular". Anything else, "" included, orders newest first. |
| OfferQuery.OrderClauseIgnoresCase | backend/app/api/v1/routes_psm_offers.py:192 | Letter case of `sort` never changes the order. |
| OfferQuery.ListPaging | backend/app/api/v1/routes_psm_offers.py:73-75 | The page is at least 1 and the size is clamped to [1, 50]. The offset is `(page - 1) * size`, and in-range values are kept. |
| OfferQuery.PagesCover | backend/app/api/v1/routes_psm_offers.py:73-75 | Pages 1..n together are exactly the first `n * size` rows: no row is skipped or repeated. |
| PsmOffers.CreateOffer | backend/app/api/v1/routes_psm_offers.py:14-57 | It appends one offer owned by the caller, created now, with the payload's fields. |
| PsmOffers.GetOffer | backend/app/api/v1/routes_psm_offers.py:127-142 | It returns 404 iff the id is unknown, and otherwise that offer. |
| PsmOffers.ListOffers | backend/app/api/v1/routes_psm_offers.py:60-125 | It returns 422 iff `sort` is not exactly new, rating or popular. Otherwise the page is the window at the offset of an ordering of exactly the matching offers by the chosen key. It echoes the clamped paging, and the total counts the matching offers. |
| PsmOffers.MatchingPage | backend/app/api/v1/routes_psm_offers.py:116-118 | `order by ... limit ... offset` over the matching offers is the window at the offset of an ordering of exactly the matching offers by the key. So it is sorted, holds no row twice, and has as many rows as remain from the offset up to the limit. |
| PsmOffers.NextSlotsOf | backend/app/api/v1/routes_psm_offers.py:238-256 | At most `limit_slots` open, not-full slots start at or after `now`, ascending. The list is short only when no more exist, and no omitted one starts earlier. |
| PsmOffers.SkippedRows | backend/app/api/v1/routes_psm_offers.py:222 | The offset is `(max(page, 1) - 1) * page_size`, and a page below 1 is the first. |
| PsmOffers.OffersWithNextSlots | backend/app/api/v1/routes_psm_offers.py:201-270 | It returns 422 iff `page_size` is outside 1..100 or `limit_slots` is outside 0..12. Otherwise the items' offers are the window at the offset of an ordering of exactly the matching offers in `_order_clause` order, and each item carries its `NextSlotsOf`. Page and size are echoed, and the total counts the matching offers. |
| PsmOffers.GroupByDay | backend/app/api/v1/routes_psm_offers.py:314-332 | The groups hold every slot in order, and none is empty. Each group holds slots of its own day only. |
| PsmOffers.GroupByDayOrdered | backend/app/api/v1/routes_psm_offers.py:328-332 | For slots ordered by start, the days strictly ascend and each day's slots ascend by start. |
| PsmOffers.AvailabilityByDay | backend/app/api/v1/routes_psm_offers.py:274-335 | Days strictly ascend within `from`..`to`, and each day is non-empty and ascends by start. Every slot is bookable and on its group's day, and the groups hold exactly the bookable slots. |
| PsmOffers.ActiveGiftUnits | backend/app/api/v1/routes_psm_offers.py:144-156 | It sums `units - used` over the offer's active pools, with no expiry filter, and is non-negative on a consistent ledger. |
| PsmOffers.ActiveGiftUnitsCoversAvailable | backend/app/api/v1/routes_psm_offers.py:148-151 | This count is never below the gift router's, and the two agree when none of the offer's active pools has expired. |
| PsmOffers.ExpiredPoolStillCounted | backend/app/api/v1/routes_psm_offers.py:148-151 | An expired pool with units left still counts here, while the gift router reports 0. |
| Session.ForceAsyncpg | backend/app/db/session.py:15-20 | An empty URL is an error. `postgresql://` becomes `postgresql+asyncpg://` followed by the same remainder, and any other URL is kept. The result never has the plain scheme. |
| Session.ForceAsyncpgIdempotent | backend/app/db/session.py:18-20 | Forcing the driver twice is forcing it once. |
| Session.ParseQsl | backend/app/db/session.py:29 | An empty query has no pairs, and there are never more pairs than `&`-pieces. |
| Session.ParseQslEncoded | backend/app/db/session.py:29-31 | `parse_qsl` of `urlencode(pairs)` gives back exactly the pairs in order, blank values included. |
| Session.DropSslPairs | backend/app/db/session.py:29-30 | A pair is kept iff it was there and its lower-cased key is not ssl, sslmode, sslrootcert or requiressl. |
| Session.DropSslPairsAppend | backend/app/db/session.py:29-30 | Dropping works pair by pair, so the kept pairs keep their order. |
| Session.DropSslPairsKeepsOthers | backend/app/db/session.py:29-30 | A query without ssl keys is kept unchanged. |
| Session.ScrubSslQueryParams | backend/app/db/session.py:23-32 | Scheme, netloc, path and fragment are unchanged. Read back, the new query holds exactly the old pairs without ssl keys, in order. |
| Session.ScrubIdempotent | backend/app/db/session.py:23-32 | Scrubbing a scrubbed URL changes nothing. |

## Left out

- Concurrency is not modelled. That covers `FOR UPDATE SKIP LOCKED` and interleaved transactions: each SQL statement is one atomic step, and each handler is all-or-nothing up to its commit.
- SQL text evaluation is not modelled beyond `_build_where`. Each query is stated by its selection, order and paging.
- JSON building and `row_to_dict` are not modelled.
- The `updated_at` columns are not modelled.
- Authentication is not modelled. The caller's user id is a parameter, and JWT verification in the auth middleware is not part of this model.
- The joins with `profiles` (usernames, avatars) are not modelled. `list_offer_reviews` joins `profiles` without `left`, so a review whose reviewer has no profile is not listed there, but the model lists it.
- `my_requests` (routes_psm_requests.py:78-114) is not modelled. It is a join-only listing, and request rows carry no creation time here.
- The offer's `availability` JSON column is not modelled.
- PsmOffers.CreateOffer: a missing text field is stored as "", where the source stores NULL.
- PsmOffers.ListOffers: the rating and popular orders rank by aggregate columns of the `offer_public` view (average stars, rating count, views). These columns are not modelled; one `rank` parameter stands for both orders, and nulls-last placement is not modelled.
- PsmOffers.OffersWithNextSlots: the same single `rank` parameter stands for both the rating and the popular order.
- PsmOffers.ListOffers: rows with equal keys may come in any order, so the contract does not say which of several tying rows a page holds. This applies to PsmOffers.MatchingPage, PsmOffers.OffersWithNextSlots and PsmReviews.ListOfferReviews as well.
- PsmSlots.CreateSlot: the slot table's schema is not part of this model. The insert is modelled as refused only for a capacity below 1; a failed foreign key or a start after the end is not modelled.
- Foreign keys are not modelled anywhere. An id that names no row is only caught where a handler's own query would find no row.
- OfferQuery.PatternMatches: the `%` and `_` wildcards inside the search text are taken literally.
- Text.Strip: lower-casing and whitespace stripping cover ASCII only. The ASCII whitespace is space, tab, line feed, vertical tab, form feed, carriage return and the separators 28 to 31. Python's Unicode case mapping and non-ASCII whitespace such as U+0085 and U+00A0 are not modelled.
- Ratings.Rate: Python's `isinstance(True, int)` accepts a boolean as 0 or 1 stars. The model takes stars that are already integers or absent.
- Session.ScrubSslQueryParams: `urlsplit` and `urlunsplit` are not modelled, and the URL is given as its five components. Percent-decoding and quoting (`unquote_plus`, `quote_plus`) are the `decode` and `quote` parameters, with only their mutual inverse property assumed.
- `_make_ssl_context`, the engine and `ping_db` in session.py are not modelled. They are library set-up and I/O.
- Time zones are not modelled. Timestamps are UTC seconds, and `date` casts and `date_trunc('day', ...)` are taken in UTC.
