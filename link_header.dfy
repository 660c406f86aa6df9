/**
 * The page-count parser of services/fetch.go (`ParseRawLinkHeader`).
 *
 * A pagination header is a comma-separated list of `<url>; rel="..."` links
 * in the style of section 3 of RFC 8288 (Web Linking). The parser does not
 * look for `rel="last"`: it takes the second comma-separated segment,
 * whatever its relation, pulls out the first `<...>` URL with the regular
 * expression `\<(\S+)\>`, and reads the URL's `page` query value with
 * `strconv.Atoi`.
 *
 * Parsing the URL and reading its `page` value (`url.Parse` followed by
 * `Query().Get("page")`) is library behaviour and is a parameter here:
 * `None` when the URL does not parse, otherwise the value, which is `""`
 * when there is no `page` parameter.
 */
module LinkHeader {
  import opened Wrappers
  import opened Text
  import opened Strconv

  /** `url.Parse(u)` then `.Query().Get("page")`; `None` when parsing fails. */
  type PageQuery = string -> Option<string>

  // ---------------------------------------------------------------------------
  // The regular expression \<(\S+)\>
  // ---------------------------------------------------------------------------

  /** `s[i..j+1]` is a match of `\<(\S+)\>`, with group 1 equal to `s[i+1..j]`. */
  predicate MatchAt(s: string, i: int, j: int) {
    0 <= i && i + 1 < j < |s| && s[i] == '<' && s[j] == '>' &&
    forall k :: i < k < j ==> !IsSpace(s[k])
  }

  /** The end of the run of non-space characters starting at `k`. */
  function RunEnd(s: string, k: nat): (e: nat)
    requires k <= |s|
    ensures k <= e <= |s|
    ensures forall m :: k <= m < e ==> !IsSpace(s[m])
    ensures e < |s| ==> IsSpace(s[e])
    decreases |s| - k
  {
    if k == |s| || IsSpace(s[k]) then k else RunEnd(s, k + 1)
  }

  /** The last position in `[lo, hi)` holding `>`. */
  function LastClose(s: string, lo: nat, hi: nat): (r: Option<nat>)
    requires hi <= |s|
    ensures r.Some? ==> lo <= r.value < hi && s[r.value] == '>'
    ensures r.Some? ==> forall m :: r.value < m < hi ==> s[m] != '>'
    ensures r.None? ==> forall m :: lo <= m < hi ==> s[m] != '>'
    decreases hi
  {
    if hi <= lo then None
    else if s[hi - 1] == '>' then Some(hi - 1)
    else LastClose(s, lo, hi - 1)
  }

  /**
   * The match `regexp.FindStringSubmatch` reports, searching from `i`: the
   * leftmost `<` that starts a match and, because `\S+` is greedy, the
   * longest match from there.
   */
  function FindFrom(s: string, i: nat): (r: Option<(nat, nat)>)
    requires i <= |s|
    ensures r.Some? ==> i <= r.value.0 && MatchAt(s, r.value.0, r.value.1)
    ensures r.Some? ==> forall a, b :: i <= a && MatchAt(s, a, b) ==>
                          r.value.0 < a || (r.value.0 == a && b <= r.value.1)
    ensures r.None? ==> forall a, b :: i <= a ==> !MatchAt(s, a, b)
    decreases |s| - i
  {
    if i == |s| then None
    else if s[i] == '<' then
      var e := RunEnd(s, i + 1);
      match LastClose(s, i + 2, e)
      case Some(j) => Some((i, j))
      case None => FindFrom(s, i + 1)
    else FindFrom(s, i + 1)
  }

  /** Group 1 of the first match, or `None` where Go's `[1]` on a nil slice panics. */
  function FindSubmatch(s: string): (r: Option<string>)
    ensures r.Some? ==> exists a, b :: MatchAt(s, a, b) && r.value == s[a + 1..b]
    ensures r.None? ==> forall a, b :: !MatchAt(s, a, b)
  {
    match FindFrom(s, 0)
    case Some((i, j)) => Some(s[i + 1..j])
    case None => None
  }

  // ---------------------------------------------------------------------------
  // ParseRawLinkHeader
  // ---------------------------------------------------------------------------

  /**
   * The URL of the second comma-separated link, or `None` where the parser
   * panics: fewer than two segments, or no `<...>` in the second one.
   */
  function LastLinkURL(rawHeader: string): (r: Option<string>)
    ensures r.Some? ==> ',' in rawHeader && r.value != []
    ensures r.Some? ==> forall c :: c in r.value ==> !IsSpace(c)
  {
    CommaFreeIsOneSegment(rawHeader);
    var links := Split(rawHeader, ',');
    if |links| < 2 then None else FindSubmatch(links[1])
  }

  /** A header without a comma is a single segment. */
  lemma CommaFreeIsOneSegment(rawHeader: string)
    ensures ',' !in rawHeader ==> Split(rawHeader, ',') == [rawHeader]
  {
    if ',' !in rawHeader {
      SplitNoSeparator(rawHeader, ',');
    }
  }

  /** The header is one that `ParseRawLinkHeader` does not panic on. */
  predicate HasLastLink(rawHeader: string) {
    LastLinkURL(rawHeader).Some?
  }

  /**
   * `ParseRawLinkHeader`: 0 when the URL does not parse; otherwise whatever
   * `strconv.Atoi` returns for the `page` value, which the Go code returns
   * even when Atoi also reports an error.
   */
  function ParseRawLinkHeader(rawHeader: string, pageOf: PageQuery): (totalPage: int)
    requires HasLastLink(rawHeader)
    ensures MinInt64 <= totalPage <= MaxInt64
  {
    match pageOf(LastLinkURL(rawHeader).value)
    case None => 0
    case Some(page) => Atoi(page).value
  }

  /**
   * `ParseRawLinkHeader` as its error handling evidently intends: 0 whenever
   * the URL does not parse or its `page` value is not a 64-bit number.
   */
  function ParseRawLinkHeaderOrZero(rawHeader: string, pageOf: PageQuery): (totalPage: int)
    requires HasLastLink(rawHeader)
    ensures MinInt64 <= totalPage <= MaxInt64
    ensures var page := pageOf(LastLinkURL(rawHeader).value);
      totalPage != 0 ==> page.Some? && Atoi(page.value) == Parsed(totalPage, NoError)
  {
    match pageOf(LastLinkURL(rawHeader).value)
    case None => 0
    case Some(page) =>
      var parsed := Atoi(page);
      if parsed.err == NoError then parsed.value else 0
  }

  // ---------------------------------------------------------------------------
  // Properties
  // ---------------------------------------------------------------------------

  /** No space, comma or `>` in a URL: it survives the split and the match whole. */
  predicate PlainURL(u: string) {
    && |u| > 0 && ',' !in u && '>' !in u
    && ' ' !in u && '\t' !in u && '\n' !in u && '\r' !in u && '\U{000C}' !in u
  }

  /** One link of a header, `<u>; rel="rel"`. */
  function Link(u: string, rel: string): string {
    "<" + u + ">; rel=\"" + rel + "\""
  }

  lemma FindSubmatchOfLink(u: string, rel: string)
    requires PlainURL(u)
    ensures FindSubmatch(" " + Link(u, rel)) == Some(u)
  {
    var s := " " + Link(u, rel);
    var n := |u|;
    assert s == " <" + u + ">; rel=\"" + rel + "\"";
    assert s[0] == ' ' && s[1] == '<' && s[n + 2] == '>' && s[n + 3] == ';' && s[n + 4] == ' ';
    assert forall k :: 2 <= k < n + 2 ==> s[k] == u[k - 2];
    assert forall k :: 2 <= k < n + 2 ==> !IsSpace(s[k]) by {
      forall k | 2 <= k < n + 2 ensures !IsSpace(s[k]) {
        assert u[k - 2] in u;
      }
    }
    var e := RunEnd(s, 2);
    assert e == n + 4;
    var close := LastClose(s, 3, e);
    assert close == Some(n + 2);
    assert FindFrom(s, 1) == Some((1, n + 2));
    assert FindFrom(s, 0) == FindFrom(s, 1);
    assert s[2..n + 2] == u;
  }

  /**
   * The parser takes the URL of the second link whatever its relation:
   * a header whose second link is `rel="next"` gives the next page.
   */
  lemma {:induction false} LastLinkIsSecondByPosition(u0: string, rel0: string, u1: string, rel1: string, rest: string)
    requires ',' !in u0 && ',' !in rel0 && ',' !in rel1
    requires PlainURL(u1)
    requires rest == [] || rest[0] == ','
    ensures LastLinkURL(Link(u0, rel0) + ", " + Link(u1, rel1) + rest) == Some(u1)
  {
    var seg0 := Link(u0, rel0);
    var seg1 := " " + Link(u1, rel1);
    var h := Link(u0, rel0) + ", " + Link(u1, rel1) + rest;
    assert ',' !in seg0;
    assert ',' !in seg1;
    assert h == seg0 + [','] + (seg1 + rest);
    SplitPrefix(seg0, ',', seg1 + rest);
    if rest == [] {
      assert seg1 + rest == seg1;
      SplitNoSeparator(seg1, ',');
    } else {
      assert rest == [','] + rest[1..];
      assert seg1 + rest == seg1 + [','] + rest[1..];
      SplitPrefix(seg1, ',', rest[1..]);
    }
    assert Split(h, ',')[1] == seg1;
    FindSubmatchOfLink(u1, rel1);
  }

  /**
   * On a header `<u0>; rel=..., <u1>; rel=...` the page count is the `page`
   * value of `u1` read by Atoi, or 0 when `u1` does not parse.
   */
  lemma ParseTwoLinkHeader(u0: string, rel0: string, u1: string, rel1: string, pageOf: PageQuery)
    requires ',' !in u0 && ',' !in rel0 && ',' !in rel1
    requires PlainURL(u1)
    ensures HasLastLink(Link(u0, rel0) + ", " + Link(u1, rel1))
    ensures ParseRawLinkHeader(Link(u0, rel0) + ", " + Link(u1, rel1), pageOf) ==
            match pageOf(u1) case None => 0 case Some(page) => Atoi(page).value
  {
    assert Link(u0, rel0) + ", " + Link(u1, rel1) == Link(u0, rel0) + ", " + Link(u1, rel1) + [];
    LastLinkIsSecondByPosition(u0, rel0, u1, rel1, []);
  }

  /** The two URLs of the example header of the test suite. */
  const ExampleBaseURL := "https://api.github.com/user/5622516/starred"
  const ExampleNextURL := ExampleBaseURL + "?page=2"
  const ExampleLastURL := ExampleBaseURL + "?page=63"

  /**
   * The example header of the test suite,
   * `<...?page=2>; rel="next", <...?page=63>; rel="last"`.
   */
  const ExampleHeader := Link(ExampleNextURL, "next") + ", " + Link(ExampleLastURL, "last")

  lemma PlainConcat(a: string, b: string)
    requires PlainURL(a) && PlainURL(b)
    ensures PlainURL(a + b)
  {
  }

  lemma ExampleBaseURLPieces()
    ensures ExampleBaseURL == "https://" + "api.github.com" + "/user/5622516" + "/starred"
  {
  }

  lemma ExampleBaseURLPiecesArePlain()
    ensures PlainURL("https://") && PlainURL("api.github.com")
    ensures PlainURL("/user/5622516") && PlainURL("/starred")
  {
  }

  lemma ExampleBaseURLIsPlain()
    ensures PlainURL(ExampleBaseURL)
  {
    ExampleBaseURLPieces();
    ExampleBaseURLPiecesArePlain();
    PlainConcat("https://", "api.github.com");
    PlainConcat("https://" + "api.github.com", "/user/5622516");
    PlainConcat("https://" + "api.github.com" + "/user/5622516", "/starred");
  }

  lemma ExampleURLsArePlain()
    ensures PlainURL(ExampleLastURL) && ',' !in ExampleNextURL
  {
    ExampleBaseURLIsPlain();
    assert PlainURL("?page=63");
    assert ',' !in "?page=2";
  }

  lemma AtoiOf63()
    ensures Atoi("63") == Parsed(63, NoError)
  {
    assert "63"[1..] == "3";
    assert ScanDigits("63", 0) == Parsed(63, NoError);
  }

  /** The example header of the test suite gives 63. */
  lemma ExampleHeaderGives63(pageOf: PageQuery)
    requires pageOf(ExampleLastURL) == Some("63")
    ensures HasLastLink(ExampleHeader)
    ensures ParseRawLinkHeader(ExampleHeader, pageOf) == 63
  {
    ExampleURLsArePlain();
    ParseTwoLinkHeader(ExampleNextURL, "next", ExampleLastURL, "last", pageOf);
    AtoiOf63();
  }

  /** A URL that does not parse gives 0. */
  lemma UnparsableURLGivesZero(rawHeader: string, pageOf: PageQuery)
    requires HasLastLink(rawHeader) && pageOf(LastLinkURL(rawHeader).value).None?
    ensures ParseRawLinkHeader(rawHeader, pageOf) == 0
  {
  }

  /** A `page` value with a non-digit among its first 20 characters after the sign, such as `a`, gives 0. */
  lemma NonNumericPageGivesZero(rawHeader: string, pageOf: PageQuery, k: nat)
    requires HasLastLink(rawHeader)
    requires var page := pageOf(LastLinkURL(rawHeader).value);
      page.Some? && k < |Unsigned(page.value)| && k <= 19 && !IsDigit(Unsigned(page.value)[k])
    ensures ParseRawLinkHeader(rawHeader, pageOf) == 0
  {
    AtoiSyntaxError(pageOf(LastLinkURL(rawHeader).value).value, k);
  }

  /** A header without a comma, the empty one among them, makes the parser panic. */
  lemma SingleSegmentPanics(rawHeader: string)
    requires ',' !in rawHeader
    ensures !HasLastLink(rawHeader)
  {
    SplitNoSeparator(rawHeader, ',');
  }

  /**
   * As written, a `page` value too large for 64 bits is not turned into 0:
   * Atoi's range error comes with the clamped value, which is returned.
   */
  lemma HugePageIsClamped(rawHeader: string, pageOf: PageQuery, n: nat)
    requires HasLastLink(rawHeader) && n > MaxInt64
    requires pageOf(LastLinkURL(rawHeader).value) == Some(Digits(n))
    ensures Atoi(Digits(n)).err == ErrRange
    ensures ParseRawLinkHeader(rawHeader, pageOf) == MaxInt64
  {
    AtoiClampsLarge(n);
  }

  /**
   * The intended parser returns either 0 or a page value Atoi accepted in
   * full, and agrees with the written one everywhere except on range errors.
   */
  lemma OrZeroIsZeroOnEveryError(rawHeader: string, pageOf: PageQuery)
    requires HasLastLink(rawHeader)
    ensures var r := ParseRawLinkHeaderOrZero(rawHeader, pageOf);
      var page := pageOf(LastLinkURL(rawHeader).value);
      && (r != 0 ==> page.Some? && Atoi(page.value) == Parsed(r, NoError))
      && (page.Some? && Atoi(page.value).err == ErrRange ==> r == 0)
      && (page.None? || Atoi(page.value).err != ErrRange ==> r == ParseRawLinkHeader(rawHeader, pageOf))
  {
  }

  /** The intended parser reads back every 64-bit page number. */
  lemma OrZeroReadsPageNumber(rawHeader: string, pageOf: PageQuery, n: int)
    requires HasLastLink(rawHeader) && MinInt64 <= n <= MaxInt64
    requires pageOf(LastLinkURL(rawHeader).value) == Some(Itoa(n))
    ensures ParseRawLinkHeaderOrZero(rawHeader, pageOf) == n
  {
    AtoiItoa(n);
  }
}
