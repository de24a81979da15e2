/** Shared vocabulary of the booking ledger: identifiers, time, handler results. */
module Common {

  datatype Option<+T> = None | Some(value: T)

  /** The HTTP errors the handlers raise, by their status code. */
  datatype Error =
    | BadRequest      // 400
    | Forbidden       // 403
    | NotFound        // 404
    | Conflict        // 409
    | Unprocessable   // 422
    | ServerError     // 500
  {
    function Code(): int
    {
      match this
      case BadRequest => 400
      case Forbidden => 403
      case NotFound => 404
      case Conflict => 409
      case Unprocessable => 422
      case ServerError => 500
    }
  }

  datatype Result<+T> = Success(value: T) | Failure(error: Error)

  /** Row identifiers: every table hands out its ids in insertion order. */
  type OfferId = nat
  type SlotId = nat
  type GiftId = nat
  type RequestId = nat
  type EngagementId = nat
  type ReviewId = nat

  /** A resolved caller; the anonymous caller is turned away before any handler runs. */
  type UserId = nat

  /** A timestamp in whole seconds since the epoch, UTC. */
  type Time = int

  /** A calendar date, counted in days since the epoch. */
  type Day = int

  const SecondsPerDay: int := 86400

  /** 00:00 UTC of day `d`. */
  function Midnight(d: Day): Time
  {
    d * SecondsPerDay
  }

  /** The calendar day (UTC) a timestamp falls on, as `date_trunc('day', t)` gives it. */
  function DayOf(t: Time): (d: Day)
    ensures Midnight(d) <= t < Midnight(d + 1)
  {
    t / SecondsPerDay
  }

  /** A later timestamp never falls on an earlier day. */
  lemma DayOfMonotone(t: Time, u: Time)
    requires t <= u
    ensures DayOf(t) <= DayOf(u)
  {
  }

  /** A timestamp from 00:00 of `from` to before 00:00 of the day after `to` falls on a day in `from`..`to`. */
  lemma DayWithin(t: Time, from: Day, to: Day)
    requires Midnight(from) <= t < Midnight(to + 1)
    ensures from <= DayOf(t) <= to
  {
  }

  /** The largest of two integers, SQL's `greatest` and Python's `max`. */
  function Max(a: int, b: int): int
  {
    if a < b then b else a
  }

  /** `max(lo, min(x, hi))`. */
  function Clamp(x: int, lo: int, hi: int): (r: int)
    requires lo <= hi
    ensures lo <= r <= hi
    ensures lo <= x <= hi ==> r == x
    ensures x < lo ==> r == lo
    ensures hi < x ==> r == hi
  {
    if x < lo then lo else if hi < x then hi else x
  }
}

/** The string operations the handlers use: lower-casing, stripping, joining, searching. */
module Text {

  /** Lower-cases an ASCII upper-case letter; every other character is kept. */
  function LowerChar(c: char): char
  {
    if 'A' <= c <= 'Z' then (c as int + 32) as char else c
  }

  /** Python's `str.lower`, on ASCII letters. */
  function Lower(s: string): (r: string)
    ensures |r| == |s|
    ensures forall i :: 0 <= i < |s| ==> r[i] == LowerChar(s[i])
  {
    if s == [] then [] else [LowerChar(s[0])] + Lower(s[1..])
  }

  lemma LowerCharIdempotent(c: char)
    ensures LowerChar(LowerChar(c)) == LowerChar(c)
  {
  }

  /** Lower-casing twice is lower-casing once. */
  lemma LowerIdempotent(s: string)
    ensures Lower(Lower(s)) == Lower(s)
  {
    forall i | 0 <= i < |s|
      ensures Lower(Lower(s))[i] == Lower(s)[i]
    {
      LowerCharIdempotent(s[i]);
    }
  }

  /** The characters Python's `str.strip` removes, on ASCII: space, \t \n \v \f \r and the separators 28-31. */
  predicate IsWhitespace(c: char)
  {
    c == ' ' || c == '\t' || c == '\n' || c == '\r' || c == 11 as char || c == 12 as char
      || (28 <= c as int <= 31)
  }

  /** Length of the run of whitespace at the start of `s`. */
  function LeadingWhitespace(s: string): (n: nat)
    ensures n <= |s|
    ensures forall i :: 0 <= i < n ==> IsWhitespace(s[i])
    ensures n < |s| ==> !IsWhitespace(s[n])
  {
    if s == [] || !IsWhitespace(s[0]) then 0 else 1 + LeadingWhitespace(s[1..])
  }

  /** Length of the run of whitespace at the end of `s`. */
  function TrailingWhitespace(s: string): (n: nat)
    ensures n <= |s|
    ensures forall i :: |s| - n <= i < |s| ==> IsWhitespace(s[i])
    ensures n < |s| ==> !IsWhitespace(s[|s| - n - 1])
  {
    if s == [] || !IsWhitespace(s[|s| - 1]) then 0 else 1 + TrailingWhitespace(s[..|s| - 1])
  }

  /** Python's `str.strip()`: `s` without its leading and trailing whitespace. */
  function Strip(s: string): (r: string)
    ensures r == [] <==> forall i :: 0 <= i < |s| ==> IsWhitespace(s[i])
    ensures r != [] ==> !IsWhitespace(r[0]) && !IsWhitespace(r[|r| - 1])
    ensures LeadingWhitespace(s) + |r| <= |s|
    ensures forall i :: 0 <= i < |r| ==> r[i] == s[LeadingWhitespace(s) + i]
    ensures forall i :: LeadingWhitespace(s) + |r| <= i < |s| ==> IsWhitespace(s[i])
  {
    var t := s[LeadingWhitespace(s)..];
    t[..|t| - TrailingWhitespace(t)]
  }

  /** `sep.join(parts)`. */
  function Join(parts: seq<string>, sep: string): string
  {
    if parts == [] then ""
    else if |parts| == 1 then parts[0]
    else parts[0] + sep + Join(parts[1..], sep)
  }

  /** `sub` occurs in `s` at position `i`. */
  predicate OccursAt(s: string, sub: string, i: nat)
  {
    i + |sub| <= |s| && s[i..i + |sub|] == sub
  }

  /** `sub` occurs somewhere in `s`. */
  predicate Contains(s: string, sub: string)
  {
    exists i: nat | i <= |s| :: OccursAt(s, sub, i)
  }

  /** `s.startswith(prefix)`. */
  predicate StartsWith(s: string, prefix: string)
  {
    |prefix| <= |s| && s[..|prefix|] == prefix
  }
}
