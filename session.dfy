/**
 * Normalisation of the database URL before the engine is built: the plain PostgreSQL scheme
 * is rewritten to the asyncpg driver's, and every ssl-related query parameter is removed so
 * that SSL is configured in one place only. The query component is the one of section 3.4
 * of RFC 3986: `&`-separated `key=value` pairs.
 */
module Session {
  import opened Common
  import opened Text

  const PlainScheme: string := "postgresql://"
  const AsyncScheme: string := "postgresql+asyncpg://"

  /**
   * `_force_asyncpg`: an empty URL is an error raised at start-up; a URL with the plain
   * scheme gets the asyncpg scheme in front of the same remainder; any other URL is kept.
   * The result never carries the plain scheme.
   */
  function ForceAsyncpg(url: string): (r: Result<string>)
    ensures r.Failure? <==> url == ""
    ensures r.Failure? ==> r.error == ServerError
    ensures url != "" && StartsWith(url, PlainScheme) ==>
      r.value == AsyncScheme + url[|PlainScheme|..]
    ensures url != "" && !StartsWith(url, PlainScheme) ==> r.value == url
    ensures r.Success? ==> r.value != "" && !StartsWith(r.value, PlainScheme)
  {
    if url == "" then Failure(ServerError)
    else if StartsWith(url, PlainScheme) then
      var s := AsyncScheme + url[|PlainScheme|..];
      assert s[10] == '+' && PlainScheme[10] == ':';
      Success(s)
    else Success(url)
  }

  /** Forcing the driver twice is forcing it once. */
  lemma ForceAsyncpgIdempotent(url: string)
    requires url != ""
    ensures ForceAsyncpg(ForceAsyncpg(url).value) == ForceAsyncpg(url)
  {
    var r := ForceAsyncpg(url).value;
    assert !StartsWith(r, PlainScheme);
  }

  /** The five components `urlsplit` yields and `urlunsplit` reassembles. */
  datatype Url = Url(scheme: string, netloc: string, path: string, query: string, fragment: string)

  /** One decoded query parameter. */
  datatype Pair = Pair(key: string, value: string)

  /** `s.split(c)`: the pieces between the occurrences of `c`; there is always at least one. */
  function SplitOn(s: string, c: char): (r: seq<string>)
    ensures |r| > 0
    ensures forall i :: 0 <= i < |r| ==> c !in r[i]
    ensures Join(r, [c]) == s
    decreases |s|
  {
    if s == [] then [[]]
    else
      var rest := SplitOn(s[1..], c);
      if s[0] == c then
        assert s == [c] + s[1..];
        [[]] + rest
      else
        var r := [[s[0]] + rest[0]] + rest[1..];
        assert r[1..] == rest[1..];
        assert s == [s[0]] + s[1..];
        r
  }

  /** Splitting what was joined with a separator none of the pieces contains gives the pieces back. */
  lemma {:induction false} SplitJoin(parts: seq<string>, c: char)
    requires |parts| > 0
    requires forall i :: 0 <= i < |parts| ==> c !in parts[i]
    ensures SplitOn(Join(parts, [c]), c) == parts
    decreases |parts|
  {
    if |parts| == 1 {
      SplitWhole(parts[0], c);
    } else {
      SplitJoin(parts[1..], c);
      SplitPiece(parts[0], Join(parts[1..], [c]), c);
      assert parts == [parts[0]] + parts[1..];
    }
  }

  /** A string without the separator is a single piece. */
  lemma {:induction false} SplitWhole(a: string, c: char)
    requires c !in a
    ensures SplitOn(a, c) == [a]
    decreases |a|
  {
    if a != [] {
      SplitWhole(a[1..], c);
      assert a == [a[0]] + a[1..];
    }
  }

  /** A first piece without the separator comes out whole, ahead of the rest's pieces. */
  lemma {:induction false} SplitPiece(a: string, b: string, c: char)
    requires c !in a
    ensures SplitOn(a + [c] + b, c) == [a] + SplitOn(b, c)
    decreases |a|
  {
    var x := a + [c] + b;
    if a == [] {
      assert x == [c] + b;
      assert x[0] == c && x[1..] == b;
    } else {
      assert x[0] == a[0] && x[1..] == a[1..] + [c] + b;
      SplitPiece(a[1..], b, c);
      var rest := SplitOn(x[1..], c);
      assert rest == [a[1..]] + SplitOn(b, c);
      assert [a[0]] + rest[0] == a;
    }
  }

  /** The position of the first `c` in `s`, or `|s|` when there is none. */
  function FirstIndex(s: string, c: char): (i: nat)
    ensures i <= |s|
    ensures c !in s[..i]
    ensures i < |s| ==> s[i] == c
    decreases |s|
  {
    if s == [] || s[0] == c then 0
    else
      var j := FirstIndex(s[1..], c);
      assert s[..j + 1] == [s[0]] + s[1..][..j];
      j + 1
  }

  /**
   * One `&`-separated piece of a query with `keep_blank_values`: split at its first `=`;
   * a piece without one is a key whose value is blank. `decode` is the percent-decoding.
   */
  function ParsePiece(piece: string, decode: string -> string): (p: Pair)
  {
    var i := FirstIndex(piece, '=');
    if i < |piece| then Pair(decode(piece[..i]), decode(piece[i + 1..]))
    else Pair(decode(piece), "")
  }

  /** The pairs of the pieces, empty pieces skipped. */
  function ParsePieces(pieces: seq<string>, decode: string -> string): (r: seq<Pair>)
    ensures |r| <= |pieces|
    ensures (forall i :: 0 <= i < |pieces| ==> pieces[i] != "") ==> |r| == |pieces|
  {
    if pieces == [] then []
    else if pieces[0] == "" then ParsePieces(pieces[1..], decode)
    else [ParsePiece(pieces[0], decode)] + ParsePieces(pieces[1..], decode)
  }

  /** `parse_qsl(query, keep_blank_values=True)`. */
  function ParseQsl(query: string, decode: string -> string): (r: seq<Pair>)
    ensures query == "" ==> r == []
    ensures |r| <= |SplitOn(query, '&')|
  {
    ParsePieces(SplitOn(query, '&'), decode)
  }

  /** `key=value` with both sides quoted. */
  function EncodePair(p: Pair, quote: string -> string): string
  {
    quote(p.key) + "=" + quote(p.value)
  }

  function EncodePairs(pairs: seq<Pair>, quote: string -> string): (r: seq<string>)
    ensures |r| == |pairs|
    ensures forall i :: 0 <= i < |r| ==> r[i] == EncodePair(pairs[i], quote)
  {
    if pairs == [] then [] else [EncodePair(pairs[0], quote)] + EncodePairs(pairs[1..], quote)
  }

  /** `urlencode(pairs, doseq=True)`: the quoted pairs joined by `&`. */
  function UrlEncode(pairs: seq<Pair>, quote: string -> string): string
  {
    Join(EncodePairs(pairs, quote), "&")
  }

  /**
   * The quoting never emits `&` or `=`, and decoding undoes it: what Python's `quote_plus`
   * and `unquote_plus` promise each other.
   */
  ghost predicate Inverse(decode: string -> string, quote: string -> string)
  {
    (forall x :: decode(quote(x)) == x) && (forall x :: '&' !in quote(x) && '=' !in quote(x))
  }

  /** A quoted pair splits back at its own `=` into its key and value. */
  lemma ParseEncodedPair(p: Pair, decode: string -> string, quote: string -> string)
    requires Inverse(decode, quote)
    ensures ParsePiece(EncodePair(p, quote), decode) == p
  {
    var k, v := quote(p.key), quote(p.value);
    var piece := EncodePair(p, quote);
    assert piece[|k|] == '=';
    assert piece[..|k|] == k;
    assert '=' !in k;
    assert FirstIndex(piece, '=') == |k|;
    assert piece[|k| + 1..] == v;
  }

  /** Parsing what `UrlEncode` wrote gives back exactly the pairs, in order. */
  lemma {:induction false} ParseQslEncoded(pairs: seq<Pair>, decode: string -> string, quote: string -> string)
    requires Inverse(decode, quote)
    ensures ParseQsl(UrlEncode(pairs, quote), decode) == pairs
  {
    var pieces := EncodePairs(pairs, quote);
    if pairs == [] {
      assert SplitOn("", '&') == [""];
    } else {
      forall i | 0 <= i < |pieces| ensures '&' !in pieces[i] && pieces[i] != "" {
        assert pieces[i] == quote(pairs[i].key) + "=" + quote(pairs[i].value);
        assert pieces[i][|quote(pairs[i].key)|] == '=';
      }
      SplitJoin(pieces, '&');
      ParsePiecesEncoded(pairs, decode, quote);
    }
  }

  lemma {:induction false} ParsePiecesEncoded(pairs: seq<Pair>, decode: string -> string, quote: string -> string)
    requires Inverse(decode, quote)
    ensures ParsePieces(EncodePairs(pairs, quote), decode) == pairs
    decreases |pairs|
  {
    if pairs != [] {
      var piece := EncodePair(pairs[0], quote);
      assert piece[|quote(pairs[0].key)|] == '=';
      ParseEncodedPair(pairs[0], decode, quote);
      ParsePiecesEncoded(pairs[1..], decode, quote);
      assert EncodePairs(pairs, quote)[1..] == EncodePairs(pairs[1..], quote);
      assert pairs == [pairs[0]] + pairs[1..];
    }
  }

  /** The keys that carry SSL settings, compared lower-cased. */
  const SslKeys: set<string> := {"ssl", "sslmode", "sslrootcert", "requiressl"}

  predicate IsSslKey(key: string)
  {
    Lower(key) in SslKeys
  }

  /** The list comprehension of `_scrub_ssl_query_params`: every pair but the ssl ones. */
  function DropSslPairs(pairs: seq<Pair>): (r: seq<Pair>)
    ensures forall p :: p in r <==> p in pairs && !IsSslKey(p.key)
    ensures |r| <= |pairs|
  {
    if pairs == [] then []
    else if IsSslKey(pairs[0].key) then DropSslPairs(pairs[1..])
    else [pairs[0]] + DropSslPairs(pairs[1..])
  }

  /** Dropping works pair by pair, so the kept pairs keep their order. */
  lemma {:induction false} DropSslPairsAppend(a: seq<Pair>, b: seq<Pair>)
    ensures DropSslPairs(a + b) == DropSslPairs(a) + DropSslPairs(b)
    decreases |a|
  {
    if a != [] {
      assert (a + b)[0] == a[0];
      assert (a + b)[1..] == a[1..] + b;
      DropSslPairsAppend(a[1..], b);
    } else {
      assert a + b == b;
    }
  }

  /** A query without ssl pairs is kept as it is, so dropping twice is dropping once. */
  lemma {:induction false} DropSslPairsKeepsOthers(pairs: seq<Pair>)
    requires forall i :: 0 <= i < |pairs| ==> !IsSslKey(pairs[i].key)
    ensures DropSslPairs(pairs) == pairs
    decreases |pairs|
  {
    if pairs != [] {
      DropSslPairsKeepsOthers(pairs[1..]);
      assert pairs == [pairs[0]] + pairs[1..];
    }
  }

  /**
   * `_scrub_ssl_query_params` on the split URL: the query re-encoded without its ssl pairs,
   * every other component as it was. Read back, the new query holds exactly the pairs of
   * the old one whose keys are not ssl keys, in their order.
   */
  function ScrubSslQueryParams(u: Url, decode: string -> string, quote: string -> string): (r: Url)
    ensures r.scheme == u.scheme && r.netloc == u.netloc && r.path == u.path && r.fragment == u.fragment
    ensures Inverse(decode, quote) ==>
      ParseQsl(r.query, decode) == DropSslPairs(ParseQsl(u.query, decode))
    ensures Inverse(decode, quote) ==>
      forall p :: p in ParseQsl(r.query, decode) <==> p in ParseQsl(u.query, decode) && !IsSslKey(p.key)
  {
    var kept := DropSslPairs(ParseQsl(u.query, decode));
    assert Inverse(decode, quote) ==> ParseQsl(UrlEncode(kept, quote), decode) == kept by {
      if Inverse(decode, quote) {
        ParseQslEncoded(kept, decode, quote);
      }
    }
    Url(u.scheme, u.netloc, u.path, UrlEncode(kept, quote), u.fragment)
  }

  /** Scrubbing a scrubbed URL changes nothing more. */
  lemma ScrubIdempotent(u: Url, decode: string -> string, quote: string -> string)
    requires Inverse(decode, quote)
    ensures ScrubSslQueryParams(ScrubSslQueryParams(u, decode, quote), decode, quote)
      == ScrubSslQueryParams(u, decode, quote)
  {
    var once := ScrubSslQueryParams(u, decode, quote);
    var kept := DropSslPairs(ParseQsl(u.query, decode));
    assert ParseQsl(once.query, decode) == kept;
    forall i | 0 <= i < |kept| ensures !IsSslKey(kept[i].key) {
      assert kept[i] in kept;
    }
    DropSslPairsKeepsOthers(kept);
  }
}
