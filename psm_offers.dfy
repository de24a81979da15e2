/**
 * The offer routes under `/psm/offers`: create and read an offer, browse offers (with and
 * without their next open slots), the availability calendar grouped by day, and this
 * router's own count of available gift units.
 *
 * Both this router and the gift router declare `GET /psm/offers/{offer_id}/gifts/available`;
 * this router is mounted first, so `ActiveGiftUnits` is the count that answers.
 */
module PsmOffers {
  import opened Common
  import opened Sorting
  import opened SlotLedger
  import opened GiftLedger
  import opened Records
  import opened Store
  import opened OfferQuery

  /** The body of `POST /psm/offers`; a missing text field is "" and missing lists are empty. */
  datatype NewOffer = NewOffer(
    kind: string, title: string, description: string, tags: seq<string>,
    feeType: string, region: string, languages: seq<string>)

  /** `create_offer`: one offer owned by the caller, created now. */
  method CreateOffer(db: Db, user: UserId, p: NewOffer, now: Time) returns (id: OfferId)
    requires db.Valid()
    modifies db`offers
    ensures db.Valid()
    ensures id == |old(db.offers)|
    ensures db.offers == old(db.offers)
      + [Offer(id, user, p.kind, p.title, p.description, p.tags, p.feeType, p.region, p.languages, now)]
  {
    id := |db.offers|;
    db.offers := db.offers + [Offer(id, user, p.kind, p.title, p.description, p.tags, p.feeType, p.region, p.languages, now)];
  }

  /** `get_offer`: the offer, or 404 for an unknown id. */
  function GetOffer(offers: seq<Offer>, id: OfferId): (r: Result<Offer>)
    ensures r.Failure? <==> id >= |offers|
    ensures r.Failure? ==> r.error == NotFound
    ensures r.Success? ==> r.value == offers[id] && r.value in offers
  {
    if id < |offers| then Success(offers[id]) else Failure(NotFound)
  }

  /** `order by o.created_at desc` as an ascending key. */
  function Newest(o: Offer): int
  {
    -o.createdAt
  }

  /**
   * The ordering key of a listing: newest first by default; the rating and popularity
   * orders rank by aggregate columns of the public offer view, which `rank` stands for.
   */
  function OrderKey(byNewest: bool, rank: Offer -> int): Offer -> int
  {
    if byNewest then Newest else rank
  }

  /** How many of `count` rows `OFFSET offset LIMIT k` returns. */
  function RowsOnPage(count: nat, offset: nat, k: nat): nat
  {
    if count <= offset then 0 else if k < count - offset then k else count - offset
  }

  /** One page of `list_offers`. */
  datatype OfferListing = OfferListing(items: seq<Offer>, page: int, pageSize: int, total: nat)

  /**
   * `list_offers`: a `sort` other than exactly "new", "rating" or "popular" is a 422.
   * Otherwise the page of the matching offers in the chosen order, with the clamped page and
   * size echoed, and the number of matching offers as the total.
   */
  function ListOffers(offers: seq<Offer>, f: Filters, sort: string, page: int, pageSize: int, rank: Offer -> int)
    : (r: Result<OfferListing>)
    ensures r.Failure? <==> sort !in {"new", "rating", "popular"}
    ensures r.Failure? ==> r.error == Unprocessable
    ensures r.Success? ==>
      && r.value.page == ListPaging(page, pageSize).page
      && r.value.pageSize == ListPaging(page, pageSize).pageSize
      && r.value.total == |Filter(offers, MatchesOf(f))|
      && |r.value.items| <= r.value.pageSize
      && |r.value.items| == RowsOnPage(r.value.total, ListPaging(page, pageSize).offset, r.value.pageSize)
      && (forall o :: o in r.value.items ==> o in offers && OfferMatches(f, o))
      && SortedBy(r.value.items, OrderKey(sort == "new", rank))
      && IsPageOf(r.value.items, Filter(offers, MatchesOf(f)), OrderKey(sort == "new", rank),
                  ListPaging(page, pageSize).offset, r.value.pageSize)
  {
    if sort !in {"new", "rating", "popular"} then Failure(Unprocessable)
    else
      var paging := ListPaging(page, pageSize);
      var items := MatchingPage(offers, f, OrderKey(sort == "new", rank), paging.offset, paging.pageSize);
      Success(OfferListing(items, paging.page, paging.pageSize, |Filter(offers, MatchesOf(f))|))
  }

  /**
   * `where ... order by ... limit k offset n` over the offers: the page of the matching
   * offers sorted by `key`.
   */
  function MatchingPage(offers: seq<Offer>, f: Filters, key: Offer -> int, offset: nat, k: nat): (r: seq<Offer>)
    ensures |r| <= k
    ensures |r| == RowsOnPage(|Filter(offers, MatchesOf(f))|, offset, k)
    ensures SortedBy(r, key)
    ensures forall o :: o in r ==> o in offers && OfferMatches(f, o)
    ensures IsPageOf(r, Filter(offers, MatchesOf(f)), key, offset, k)
  {
    var matching := Filter(offers, MatchesOf(f));
    var rows := SortBy(matching, key);
    PageOfSorted(rows, matching, offset, k, key);
    assert forall o :: o in matching ==> o in offers && OfferMatches(f, o) by {
      forall o | o in matching ensures o in offers && OfferMatches(f, o) {
        assert o in multiset(matching);
      }
    }
    Page(rows, offset, k)
  }

  /** The slots the offer listing shows: open, a free seat, and starting at or after `now`. */
  predicate OpenFrom(s: Slot, offer: OfferId, now: Time)
  {
    s.offerId == offer && s.status == Open && s.reserved < s.capacity && s.start >= now
  }

  function OpenFromOf(offer: OfferId, now: Time): Slot -> bool
  {
    s => OpenFrom(s, offer, now)
  }

  /** An offer of the listing with its next slots. */
  datatype OfferWithSlots = OfferWithSlots(offer: Offer, nextSlots: seq<Slot>)

  /** One page of `offers_with_next_slots`. */
  datatype SlotListing = SlotListing(items: seq<OfferWithSlots>, total: nat, page: int, pageSize: int)

  /** The next slots attached to one offer: the first `limitSlots` open ones from `now`, by start. */
  function NextSlotsOf(slots: seq<Slot>, offer: OfferId, limitSlots: nat, now: Time): (r: seq<Slot>)
    ensures |r| <= limitSlots
    ensures |r| == limitSlots || |r| == |Filter(slots, OpenFromOf(offer, now))|
    ensures SortedBy(r, StartOf)
    ensures forall s :: s in r ==> OpenFrom(s, offer, now)
    ensures multiset(r) <= multiset(Filter(slots, OpenFromOf(offer, now)))
    ensures forall s, t :: s in multiset(Filter(slots, OpenFromOf(offer, now))) - multiset(r) && t in r ==>
      t.start <= s.start
  {
    FirstBy(slots, OpenFromOf(offer, now), StartOf, limitSlots)
  }

  /**
   * `offers_with_next_slots`: `page_size` outside 1..100 or `limit_slots` outside 0..12 is a
   * 422. Otherwise the page at `(max(page, 1) - 1) * page_size` of the matching offers, in
   * the order `_order_clause` picks, each with its next slots; the page is echoed as given.
   */
  function OffersWithNextSlots(offers: seq<Offer>, slots: seq<Slot>, f: Filters, page: int, pageSize: int,
                               sort: string, limitSlots: int, now: Time, rank: Offer -> int)
    : (r: Result<SlotListing>)
    ensures r.Failure? <==> !(1 <= pageSize <= 100 && 0 <= limitSlots <= 12)
    ensures r.Failure? ==> r.error == Unprocessable
    ensures r.Success? ==>
      && r.value.page == page && r.value.pageSize == pageSize
      && r.value.total == |Filter(offers, MatchesOf(f))|
      && |r.value.items| <= pageSize
      && |r.value.items| == RowsOnPage(r.value.total, SkippedRows(page, pageSize), pageSize)
      && (forall i :: 0 <= i < |r.value.items| ==>
            var item := r.value.items[i];
            && item.offer in offers && OfferMatches(f, item.offer)
            && item.nextSlots == NextSlotsOf(slots, item.offer.id, limitSlots, now))
      && OrderedBy(r.value.items, OrderKey(OrderClause(sort) == NewestOrder, rank))
      && IsPageOf(OffersOf(r.value.items), Filter(offers, MatchesOf(f)),
                  OrderKey(OrderClause(sort) == NewestOrder, rank), SkippedRows(page, pageSize), pageSize)
  {
    if !(1 <= pageSize <= 100 && 0 <= limitSlots <= 12) then Failure(Unprocessable)
    else
      var offset := SkippedRows(page, pageSize);
      var key := OrderKey(OrderClause(sort) == NewestOrder, rank);
      var pageRows := MatchingPage(offers, f, key, offset, pageSize);
      var next := (id: OfferId) => NextSlotsOf(slots, id, limitSlots, now);
      var items := AttachNextSlots(pageRows, next);
      AttachedRows(pageRows, next, key);
      Success(SlotListing(items, |Filter(offers, MatchesOf(f))|, page, pageSize))
  }

  /** Attaching slots keeps the rows: the items' offers are the rows, in their order. */
  lemma AttachedRows(rows: seq<Offer>, next: OfferId -> seq<Slot>, key: Offer -> int)
    requires SortedBy(rows, key)
    ensures OffersOf(AttachNextSlots(rows, next)) == rows
    ensures OrderedBy(AttachNextSlots(rows, next), key)
    ensures forall i :: 0 <= i < |rows| ==> AttachNextSlots(rows, next)[i].offer in rows
  {
    var items := AttachNextSlots(rows, next);
    assert OffersOf(items) == rows;
    forall i, j | 0 <= i < j < |items| ensures key(items[i].offer) <= key(items[j].offer) {
      assert items[i].offer == rows[i] && items[j].offer == rows[j];
    }
  }

  /** The offers of the listed items, in order. */
  function OffersOf(items: seq<OfferWithSlots>): (r: seq<Offer>)
    ensures |r| == |items| && forall i :: 0 <= i < |items| ==> r[i] == items[i].offer
  {
    seq(|items|, i requires 0 <= i < |items| => items[i].offer)
  }

  /** The listed offers come in the order of `key`. */
  predicate OrderedBy(items: seq<OfferWithSlots>, key: Offer -> int)
  {
    forall i, j :: 0 <= i < j < |items| ==> key(items[i].offer) <= key(items[j].offer)
  }

  /** `(max(page, 1) - 1) * page_size`: the rows before the page; a page below 1 is the first. */
  function SkippedRows(page: int, pageSize: nat): (n: nat)
    ensures page <= 1 ==> n == 0
    ensures page >= 1 ==> n == (page - 1) * pageSize
  {
    if page <= 1 then 0 else (page - 1) * pageSize
  }

  /** Each listed offer with the slots `next` picks for it, in the listing's order. */
  function AttachNextSlots(rows: seq<Offer>, next: OfferId -> seq<Slot>): (r: seq<OfferWithSlots>)
    ensures |r| == |rows|
    ensures forall i :: 0 <= i < |r| ==> r[i].offer == rows[i] && r[i].nextSlots == next(rows[i].id)
  {
    if rows == [] then []
    else [OfferWithSlots(rows[0], next(rows[0].id))] + AttachNextSlots(rows[1..], next)
  }

  /**
   * The slots the availability calendar shows: open, a free seat, starting from 00:00 UTC
   * of `from` and before 00:00 UTC of the day after `to`, of an offer the filters match.
   */
  predicate Bookable(s: Slot, offers: seq<Offer>, f: Filters, from: Day, to: Day)
  {
    && s.status == Open && s.reserved < s.capacity
    && Midnight(from) <= s.start < Midnight(to + 1)
    && s.offerId < |offers| && OfferMatches(f, offers[s.offerId])
  }

  function BookableOf(offers: seq<Offer>, f: Filters, from: Day, to: Day): Slot -> bool
  {
    s => Bookable(s, offers, f, from, to)
  }

  /** One day of the calendar and its slots. */
  datatype DayGroup = DayGroup(day: Day, slots: seq<Slot>)

  /** The groups' slots one after the other. */
  function Flatten(groups: seq<DayGroup>): seq<Slot>
  {
    if groups == [] then [] else groups[0].slots + Flatten(groups[1..])
  }

  /** A slot of any group is a slot of the flattened sequence. */
  lemma {:induction false} InFlatten(groups: seq<DayGroup>, i: nat, x: Slot)
    requires i < |groups| && x in groups[i].slots
    ensures x in Flatten(groups)
  {
    if i > 0 {
      InFlatten(groups[1..], i - 1, x);
    }
  }

  /**
   * `group by day order by day`, applied to slots ordered by start: consecutive slots of one
   * day form one group. The groups hold every slot in order, none is empty, and each holds
   * slots of its own day only.
   */
  function GroupByDay(s: seq<Slot>): (r: seq<DayGroup>)
    ensures Flatten(r) == s
    ensures forall i :: 0 <= i < |r| ==> |r[i].slots| > 0
    ensures forall i, x :: 0 <= i < |r| && x in r[i].slots ==> DayOf(x.start) == r[i].day
    ensures |s| > 0 ==> |r| > 0 && r[0].day == DayOf(s[0].start)
    decreases |s|
  {
    if s == [] then []
    else
      var rest := GroupByDay(s[1..]);
      var d := DayOf(s[0].start);
      if rest != [] && rest[0].day == d then
        assert Flatten(rest) == rest[0].slots + Flatten(rest[1..]);
        var r := [DayGroup(d, [s[0]] + rest[0].slots)] + rest[1..];
        assert r[1..] == rest[1..];
        assert s == [s[0]] + s[1..];
        r
      else
        var r := [DayGroup(d, [s[0]])] + rest;
        assert r[1..] == rest;
        assert s == [s[0]] + s[1..];
        r
  }

  /** The groups' days strictly ascend. */
  predicate DaysAscend(groups: seq<DayGroup>)
  {
    forall i, j :: 0 <= i < j < |groups| ==> groups[i].day < groups[j].day
  }

  /** Each group's slots come in order of start. */
  ghost predicate GroupsSorted(groups: seq<DayGroup>)
  {
    forall i :: 0 <= i < |groups| ==> SortedBy(groups[i].slots, StartOf)
  }

  /** A slot starting no later than a first group of its own day joins that group in order. */
  lemma JoinFirstGroup(x: Slot, rest: seq<DayGroup>)
    requires rest != [] && DaysAscend(rest) && GroupsSorted(rest)
    requires forall y :: y in rest[0].slots ==> x.start <= y.start
    ensures DaysAscend([DayGroup(rest[0].day, [x] + rest[0].slots)] + rest[1..])
    ensures GroupsSorted([DayGroup(rest[0].day, [x] + rest[0].slots)] + rest[1..])
  {
    var r := [DayGroup(rest[0].day, [x] + rest[0].slots)] + rest[1..];
    forall i | 1 <= i < |r| ensures r[i] == rest[i] { }
    var g := r[0].slots;
    forall a, b | 0 <= a < b < |g| ensures g[a].start <= g[b].start {
      assert g[b] == rest[0].slots[b - 1];
      if a > 0 { assert g[a] == rest[0].slots[a - 1]; }
    }
  }

  /** A slot of an earlier day than every group opens a group of its own. */
  lemma NewFirstGroup(x: Slot, rest: seq<DayGroup>)
    requires DaysAscend(rest) && GroupsSorted(rest)
    requires rest != [] ==> DayOf(x.start) < rest[0].day
    ensures DaysAscend([DayGroup(DayOf(x.start), [x])] + rest)
    ensures GroupsSorted([DayGroup(DayOf(x.start), [x])] + rest)
  {
    var r := [DayGroup(DayOf(x.start), [x])] + rest;
    forall i | 1 <= i < |r| ensures r[i] == rest[i - 1] { }
  }

  /**
   * Grouping slots ordered by start gives strictly ascending days, and each day's slots
   * ordered by start.
   */
  lemma {:induction false} GroupByDayOrdered(s: seq<Slot>)
    requires SortedBy(s, StartOf)
    ensures DaysAscend(GroupByDay(s)) && GroupsSorted(GroupByDay(s))
    decreases |s|
  {
    if s != [] {
      var rest := GroupByDay(s[1..]);
      var d := DayOf(s[0].start);
      GroupByDayOrdered(s[1..]);
      forall i, x | 0 <= i < |rest| && x in rest[i].slots
        ensures s[0].start <= x.start && d <= rest[i].day
      {
        InFlatten(rest, i, x);
        assert x in s[1..];
        DayOfMonotone(s[0].start, x.start);
      }
      if rest != [] && rest[0].day == d {
        JoinFirstGroup(s[0], rest);
      } else {
        if rest != [] {
          assert rest[0].slots[0] in rest[0].slots;
        }
        NewFirstGroup(s[0], rest);
      }
    }
  }

  /**
   * `offers_availability_by_day`: the bookable slots grouped by the day they start on, the
   * days ascending and within `from`..`to`, each day's slots ascending by start, and every
   * bookable slot in exactly as many places as it occurs in the slot table.
   */
  function AvailabilityByDay(offers: seq<Offer>, slots: seq<Slot>, f: Filters, from: Day, to: Day)
    : (r: seq<DayGroup>)
    ensures DaysAscend(r) && GroupsSorted(r)
    ensures forall i :: 0 <= i < |r| ==> from <= r[i].day <= to && |r[i].slots| > 0
    ensures forall i, x :: 0 <= i < |r| && x in r[i].slots ==>
      Bookable(x, offers, f, from, to) && DayOf(x.start) == r[i].day
    ensures multiset(Flatten(r)) == multiset(Filter(slots, BookableOf(offers, f, from, to)))
  {
    var sorted := SortBy(Filter(slots, BookableOf(offers, f, from, to)), StartOf);
    var r := GroupByDay(sorted);
    GroupByDayOrdered(sorted);
    assert forall x :: x in sorted ==> Bookable(x, offers, f, from, to) by {
      forall x | x in sorted ensures Bookable(x, offers, f, from, to) {
        assert x in multiset(sorted);
        assert x in Filter(slots, BookableOf(offers, f, from, to));
      }
    }
    GroupsOfBookable(sorted, r, offers, f, from, to);
    r
  }

  /** Grouping bookable slots yields groups of bookable slots on days within `from`..`to`. */
  lemma GroupsOfBookable(sorted: seq<Slot>, r: seq<DayGroup>, offers: seq<Offer>, f: Filters, from: Day, to: Day)
    requires forall x :: x in sorted ==> Bookable(x, offers, f, from, to)
    requires Flatten(r) == sorted
    requires forall i :: 0 <= i < |r| ==> |r[i].slots| > 0
    requires forall i, x :: 0 <= i < |r| && x in r[i].slots ==> DayOf(x.start) == r[i].day
    ensures forall i, x :: 0 <= i < |r| && x in r[i].slots ==> Bookable(x, offers, f, from, to)
    ensures forall i :: 0 <= i < |r| ==> from <= r[i].day <= to
  {
    forall i, x | 0 <= i < |r| && x in r[i].slots ensures Bookable(x, offers, f, from, to) {
      InFlatten(r, i, x);
    }
    forall i | 0 <= i < |r| ensures from <= r[i].day <= to {
      var x := r[i].slots[0];
      InFlatten(r, i, x);
      DayWithin(x.start, from, to);
    }
  }

  /**
   * This router's `gifts_available`: the sum of `units - used` over the offer's active pools,
   * with no expiry filter and no floor at zero.
   */
  function ActiveGiftUnits(gifts: seq<Gift>, offer: OfferId): (n: int)
    ensures (forall i :: 0 <= i < |gifts| ==> GiftOk(gifts[i])) ==> n >= 0
  {
    if gifts == [] then 0
    else
      var own := if gifts[0].offerId == offer && gifts[0].status == Active then Remaining(gifts[0]) else 0;
      own + ActiveGiftUnits(gifts[1..], offer)
  }

  /**
   * On a consistent ledger this router's count is never below the gift router's count,
   * and the two agree when none of the offer's active pools has expired.
   */
  lemma {:induction false} ActiveGiftUnitsCoversAvailable(gifts: seq<Gift>, offer: OfferId, now: Time)
    requires forall i :: 0 <= i < |gifts| ==> GiftOk(gifts[i])
    ensures ActiveGiftUnits(gifts, offer) >= Available(gifts, offer, now)
    ensures (forall i :: 0 <= i < |gifts| && gifts[i].offerId == offer && gifts[i].status == Active ==>
               ValidAt(gifts[i], now))
      ==> ActiveGiftUnits(gifts, offer) == Available(gifts, offer, now)
  {
    if gifts != [] {
      ActiveGiftUnitsCoversAvailable(gifts[1..], offer, now);
      assert forall i :: 1 <= i < |gifts| ==> gifts[1..][i - 1] == gifts[i];
    }
  }

  /** An expired pool still counts here while the gift router no longer counts it. */
  lemma ExpiredPoolStillCounted(g: Gift, now: Time)
    requires GiftOk(g) && g.status == Active && g.used < g.units
    requires g.validUntil.Some? && g.validUntil.value < now
    ensures ActiveGiftUnits([g], g.offerId) == Remaining(g) > 0
    ensures Available([g], g.offerId, now) == 0
  {
    var counts := x => CountsAt(x, g.offerId, now);
    assert [g][1..] == [];
    assert SumRemaining([g][1..], counts) == 0;
    assert !counts([g][0]);
    assert ActiveGiftUnits([g][1..], g.offerId) == 0;
  }
}
