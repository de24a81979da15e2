/**
 * How the offer listings compose their query: the filters and the `where` clause built
 * from them, the sort clause, and the paging arithmetic.
 */
module OfferQuery {
  import opened Common
  import opened Text
  import opened Sorting
  import opened Records

  /** The optional filters of the offer listings; an absent or empty one is "". */
  datatype Filters = Filters(q: string, kind: string, tag: string, fee: string, region: string, lang: string)

  /** `ILIKE '%sub%'`: `sub` occurs in `s`, ignoring case. */
  predicate ContainsIgnoringCase(s: string, sub: string)
  {
    Contains(Lower(s), Lower(sub))
  }

  /** What the filters select: each filter given restricts the offers, each absent one does not. */
  predicate OfferMatches(f: Filters, o: Offer)
  {
    && (f.q != "" ==> ContainsIgnoringCase(o.title, f.q) || ContainsIgnoringCase(o.description, f.q))
    && (f.kind != "" ==> o.kind == f.kind)
    && (f.tag != "" ==> f.tag in o.tags)
    && (f.fee != "" ==> o.feeType == f.fee)
    && (f.region != "" ==> o.region == f.region)
    && (f.lang != "" ==> f.lang in o.languages)
  }

  /** `OfferMatches` as a row filter. */
  function MatchesOf(f: Filters): Offer -> bool
  {
    o => OfferMatches(f, o)
  }

  /** One clause of `_build_where`. */
  datatype Clause = AlwaysTrue | TextLike | KindIs | FeeIs | RegionIs | TagIn | LangIn

  /** The SQL text of a clause. */
  function ClauseSql(c: Clause): string
  {
    match c
    case AlwaysTrue => "true"
    case TextLike => "(o.title ILIKE :q OR o.description ILIKE :q)"
    case KindIs => "o.type = :type"
    case FeeIs => "o.fee_type = :fee_type"
    case RegionIs => "o.region = :region"
    case TagIn => ":tag = ANY(o.tags)"
    case LangIn => ":lang = ANY(o.languages)"
  }

  function SqlOf(clauses: seq<Clause>): (r: seq<string>)
    ensures |r| == |clauses|
    ensures forall i :: 0 <= i < |r| ==> r[i] == ClauseSql(clauses[i])
  {
    if clauses == [] then [] else [ClauseSql(clauses[0])] + SqlOf(clauses[1..])
  }

  /**
   * `ILIKE` against a pattern of the shape `%x%`, the only shape the listings bind; any other
   * pattern matches nothing here.
   */
  predicate ILike(s: string, pattern: string)
  {
    |pattern| >= 2 && pattern[0] == '%' && pattern[|pattern| - 1] == '%'
    && ContainsIgnoringCase(s, pattern[1..|pattern| - 1])
  }

  /** Whether an offer satisfies a clause under the bound parameters; a missing parameter is NULL. */
  predicate ClauseHolds(c: Clause, params: map<string, string>, o: Offer)
  {
    match c
    case AlwaysTrue => true
    case TextLike => "q" in params && (ILike(o.title, params["q"]) || ILike(o.description, params["q"]))
    case KindIs => "type" in params && o.kind == params["type"]
    case FeeIs => "fee_type" in params && o.feeType == params["fee_type"]
    case RegionIs => "region" in params && o.region == params["region"]
    case TagIn => "tag" in params && params["tag"] in o.tags
    case LangIn => "lang" in params && params["lang"] in o.languages
  }

  /** The clauses joined with `AND`. */
  predicate AllHold(clauses: seq<Clause>, params: map<string, string>, o: Offer)
  {
    forall c :: c in clauses ==> ClauseHolds(c, params, o)
  }

  /** The clauses `_build_where` emits for `f`, in its order. */
  function WhereClauses(f: Filters): (r: seq<Clause>)
    ensures |r| >= 1 && r[0] == AlwaysTrue
  {
    [AlwaysTrue]
    + (if f.q != "" then [TextLike] else [])
    + (if f.kind != "" then [KindIs] else [])
    + (if f.fee != "" then [FeeIs] else [])
    + (if f.region != "" then [RegionIs] else [])
    + (if f.tag != "" then [TagIn] else [])
    + (if f.lang != "" then [LangIn] else [])
  }

  /** How many of the filters are given. */
  function Given(f: Filters): nat
  {
    (if f.q != "" then 1 else 0) + (if f.kind != "" then 1 else 0) + (if f.fee != "" then 1 else 0)
    + (if f.region != "" then 1 else 0) + (if f.tag != "" then 1 else 0) + (if f.lang != "" then 1 else 0)
  }

  /** A joined list whose first part is `first` starts with `first`. */
  lemma {:induction false} JoinStartsWith(parts: seq<string>, sep: string)
    requires |parts| >= 1
    ensures StartsWith(Join(parts, sep), parts[0])
  {
    if |parts| > 1 {
      assert Join(parts, sep) == parts[0] + (sep + Join(parts[1..], sep));
    }
  }

  /** The parameters `_build_where` binds for `f`: one per given filter, `q` as the `%q%` pattern. */
  function WhereParams(f: Filters): (r: map<string, string>)
    ensures ("q" in r <==> f.q != "") && ("type" in r <==> f.kind != "")
    ensures ("fee_type" in r <==> f.fee != "") && ("region" in r <==> f.region != "")
    ensures ("tag" in r <==> f.tag != "") && ("lang" in r <==> f.lang != "")
    ensures r.Keys <= {"q", "type", "fee_type", "region", "tag", "lang"}
    ensures "q" in r ==> r["q"] == "%" + f.q + "%"
    ensures "type" in r ==> r["type"] == f.kind
    ensures "fee_type" in r ==> r["fee_type"] == f.fee
    ensures "region" in r ==> r["region"] == f.region
    ensures "tag" in r ==> r["tag"] == f.tag
    ensures "lang" in r ==> r["lang"] == f.lang
  {
    var p1 := Bind(map[], f.q != "", "q", "%" + f.q + "%");
    var p2 := Bind(p1, f.kind != "", "type", f.kind);
    var p3 := Bind(p2, f.fee != "", "fee_type", f.fee);
    var p4 := Bind(p3, f.region != "", "region", f.region);
    var p5 := Bind(p4, f.tag != "", "tag", f.tag);
    Bind(p5, f.lang != "", "lang", f.lang)
  }

  /** Binds `key` when its filter is given. */
  function Bind(params: map<string, string>, given: bool, key: string, value: string): map<string, string>
  {
    if given then params[key := value] else params
  }

  /** The filter behind a clause, as `OfferMatches` reads it. */
  predicate FilterPart(c: Clause, f: Filters, o: Offer)
  {
    match c
    case AlwaysTrue => true
    case TextLike => f.q != "" ==> ContainsIgnoringCase(o.title, f.q) || ContainsIgnoringCase(o.description, f.q)
    case KindIs => f.kind != "" ==> o.kind == f.kind
    case FeeIs => f.fee != "" ==> o.feeType == f.fee
    case RegionIs => f.region != "" ==> o.region == f.region
    case TagIn => f.tag != "" ==> f.tag in o.tags
    case LangIn => f.lang != "" ==> f.lang in o.languages
  }

  /** The `%q%` pattern matches exactly the offers containing `q`. */
  lemma PatternMatches(s: string, q: string)
    ensures ILike(s, "%" + q + "%") <==> ContainsIgnoringCase(s, q)
  {
    var p := "%" + q + "%";
    assert p[1..|p| - 1] == q;
  }

  /** Under its own parameters, each emitted clause tests exactly its filter. */
  lemma ClauseTestsFilter(f: Filters, c: Clause, o: Offer)
    requires c in WhereClauses(f)
    ensures ClauseHolds(c, WhereParams(f), o) <==> FilterPart(c, f, o)
  {
    PatternMatches(o.title, f.q);
    PatternMatches(o.description, f.q);
  }

  /** The clauses `_build_where` emits select exactly the offers `OfferMatches` selects. */
  lemma WhereSelectsMatches(f: Filters, o: Offer)
    ensures AllHold(WhereClauses(f), WhereParams(f), o) <==> OfferMatches(f, o)
  {
    var cs := WhereClauses(f);
    forall c | c in cs
      ensures ClauseHolds(c, WhereParams(f), o) <==> FilterPart(c, f, o)
    {
      ClauseTestsFilter(f, c, o);
    }
    assert f.q != "" ==> TextLike in cs;
    assert f.kind != "" ==> KindIs in cs;
    assert f.fee != "" ==> FeeIs in cs;
    assert f.region != "" ==> RegionIs in cs;
    assert f.tag != "" ==> TagIn in cs;
    assert f.lang != "" ==> LangIn in cs;
    assert OfferMatches(f, o) <==>
      FilterPart(TextLike, f, o) && FilterPart(KindIs, f, o) && FilterPart(FeeIs, f, o)
      && FilterPart(RegionIs, f, o) && FilterPart(TagIn, f, o) && FilterPart(LangIn, f, o);
  }

  /** The facts `BuildWhere` promises about the clauses and parameters of `f`. */
  lemma WhereFacts(f: Filters)
    ensures StartsWith(Join(SqlOf(WhereClauses(f)), " AND "), "true")
    ensures |WhereClauses(f)| == 1 + Given(f)
    ensures forall o :: AllHold(WhereClauses(f), WhereParams(f), o) <==> OfferMatches(f, o)
  {
    JoinStartsWith(SqlOf(WhereClauses(f)), " AND ");
    forall o
      ensures AllHold(WhereClauses(f), WhereParams(f), o) <==> OfferMatches(f, o)
    {
      WhereSelectsMatches(f, o);
    }
  }

  /** One `if` of `_build_where`: when the filter is given, append its clause and bind its parameter. */
  method AddWhen(clauses: seq<Clause>, params: map<string, string>, given: bool, c: Clause, key: string, value: string)
    returns (clauses': seq<Clause>, params': map<string, string>)
    ensures clauses' == clauses + (if given then [c] else [])
    ensures params' == Bind(params, given, key, value)
  {
    clauses', params' := clauses, params;
    if given {
      clauses' := clauses' + [c];
      params' := params'[key := value];
    }
  }

  /**
   * `_build_where`, built by appending: the clauses start with "true" and are joined with
   * " AND "; there is one clause and one parameter per given filter and none for an absent
   * one; and under those parameters the clauses select exactly the offers `OfferMatches`
   * selects.
   */
  method BuildWhere(f: Filters) returns (where: string, params: map<string, string>)
    ensures where == Join(SqlOf(WhereClauses(f)), " AND ")
    ensures StartsWith(where, "true")
    ensures |WhereClauses(f)| == 1 + Given(f)
    ensures params == WhereParams(f)
    ensures forall o :: AllHold(WhereClauses(f), params, o) <==> OfferMatches(f, o)
  {
    var clauses: seq<Clause> := [AlwaysTrue];
    params := map[];
    clauses, params := AddWhen(clauses, params, f.q != "", TextLike, "q", "%" + f.q + "%");
    clauses, params := AddWhen(clauses, params, f.kind != "", KindIs, "type", f.kind);
    clauses, params := AddWhen(clauses, params, f.fee != "", FeeIs, "fee_type", f.fee);
    clauses, params := AddWhen(clauses, params, f.region != "", RegionIs, "region", f.region);
    clauses, params := AddWhen(clauses, params, f.tag != "", TagIn, "tag", f.tag);
    clauses, params := AddWhen(clauses, params, f.lang != "", LangIn, "lang", f.lang);
    assert clauses == WhereClauses(f);
    where := Join(SqlOf(clauses), " AND ");
    WhereFacts(f);
  }

  /** The sort clause for the rating order. */
  const RatingOrder: string := "o.avg_stars DESC NULLS LAST, o.ratings_count DESC, o.created_at DESC"
  /** The sort clause for the popularity order. */
  const PopularOrder: string := "o.views DESC NULLS LAST, o.created_at DESC"
  /** The default sort clause: newest first. */
  const NewestOrder: string := "o.created_at DESC"

  /**
   * `_order_clause`: "rating" and "popular" in any letter case pick their orders; anything
   * else, the empty string included, orders newest first.
   */
  function OrderClause(sort: string): (r: string)
    ensures r in {RatingOrder, PopularOrder, NewestOrder}
    ensures r == RatingOrder <==> Lower(sort) == "rating"
    ensures r == PopularOrder <==> Lower(sort) == "popular"
  {
    var s := Lower(if sort == "" then "new" else sort);
    if s == "rating" then RatingOrder
    else if s == "popular" then PopularOrder
    else NewestOrder
  }

  /** `_order_clause` ignores letter case. */
  lemma OrderClauseIgnoresCase(sort: string)
    ensures OrderClause(Lower(sort)) == OrderClause(sort)
  {
    LowerIdempotent(sort);
  }

  /** The page, page size and offset `list_offers` uses. */
  datatype Paging = Paging(page: int, pageSize: int, offset: nat)

  /**
   * `list_offers` paging: the page is at least 1, the size is clamped to [1, 50], and the
   * offset skips the full pages before the requested one. In-range values are kept.
   */
  function ListPaging(page: int, pageSize: int): (r: Paging)
    ensures r.page >= 1 && 1 <= r.pageSize <= 50
    ensures r.offset == (r.page - 1) * r.pageSize
    ensures page >= 1 ==> r.page == page
    ensures page < 1 ==> r.page == 1 && r.offset == 0
    ensures r.pageSize == Clamp(pageSize, 1, 50)
  {
    var p := Max(1, page);
    var size := Clamp(pageSize, 1, 50);
    Paging(p, size, (p - 1) * size)
  }

  /** The rows of pages 1 to `n` of `list_offers`, one after the other. */
  function PagesUpTo<T>(rows: seq<T>, pageSize: int, n: nat): seq<T>
  {
    if n == 0 then []
    else
      var paging := ListPaging(n, pageSize);
      PagesUpTo(rows, pageSize, n - 1) + Page(rows, paging.offset, paging.pageSize)
  }

  /**
   * Paging neither skips nor repeats a row: pages 1 to `n` together are exactly the first
   * `n` times the page size rows.
   */
  lemma {:induction false} PagesCover<T>(rows: seq<T>, pageSize: int, n: nat)
    ensures PagesUpTo(rows, pageSize, n) == Page(rows, 0, n * Clamp(pageSize, 1, 50))
  {
    var size := Clamp(pageSize, 1, 50);
    if n == 0 {
      assert Page(rows, 0, 0) == [];
    } else {
      PagesCover(rows, pageSize, n - 1);
      assert ListPaging(n, pageSize).offset == (n - 1) * size;
      PagesTile(rows, 0, (n - 1) * size, size);
      assert (n - 1) * size + size == n * size;
    }
  }
}
