/**
 The results-page URL of prog.py:25. The query is interpolated as given, with
 no percent-encoding, and page `p` asks for results from offset `10 * p`.
 */
module SearchUrl {
  import opened Wrappers
  import opened Decimal

  const UrlPrefix := "https://scholar.google.com/scholar?start="
  const QueryKey := "&q="
  const UrlSuffix := "&hl=en&as_sdt=0,5"

  /** Results per page: the offset step of the `start` parameter. */
  const ResultsPerPage := 10

  /** What a results-page URL asks for: the raw query and the offset of the first result. */
  datatype Request = Request(query: string, start: nat)

  /** The request for page `page` (counted from 0) of the results for `query`. */
  function PageRequest(query: string, page: nat): (r: Request)
    ensures r.query == query
    ensures r.start % ResultsPerPage == 0 && r.start / ResultsPerPage == page
  {
    Request(query, page * ResultsPerPage)
  }

  /** The URL text of a request: it reads back to the request, so it loses nothing. */
  function Url(r: Request): (u: string)
    ensures Parse(u) == Some(r)
  {
    ParseUrlText(r);
    UrlPrefix + NatToString(r.start) + QueryKey + r.query + UrlSuffix
  }

  /** Length of the longest prefix of `s` made of decimal digits. */
  function LeadingDigits(s: string): (k: nat)
    ensures k <= |s|
    ensures forall i :: 0 <= i < k ==> IsDigit(s[i])
    ensures k < |s| ==> !IsDigit(s[k])
  {
    if |s| == 0 || !IsDigit(s[0]) then 0 else 1 + LeadingDigits(s[1..])
  }

  /** Reads the `&q=…&hl=en&as_sdt=0,5` part back into the query; `None` for any other shape. */
  function ParseQuery(after: string): Option<string> {
    if !(QueryKey <= after) || |after| < |QueryKey| + |UrlSuffix| || after[|after| - |UrlSuffix|..] != UrlSuffix
    then None
    else Some(after[|QueryKey|..|after| - |UrlSuffix|])
  }

  /** Reads the part after `start=` back into a request: a numeral, then the query part. */
  function ParseStart(rest: string): Option<Request> {
    var k := LeadingDigits(rest);
    if k == 0 then None
    else
      match ParseQuery(rest[k..])
      case None => None
      case Some(query) => Some(Request(query, DigitsToNat(rest[..k])))
  }

  /**
   Reads a results-page URL back into its query and its `start` offset; `None`
   for a string not of that shape.
   */
  function Parse(u: string): Option<Request> {
    if !(UrlPrefix <= u) then None else ParseStart(u[|UrlPrefix|..])
  }

  /** The query part reads back to the query it was built from, whatever that query contains. */
  lemma ParseQueryOf(query: string)
    ensures ParseQuery(QueryKey + query + UrlSuffix) == Some(query)
  {
    var after := QueryKey + query + UrlSuffix;
    assert after[|after| - |UrlSuffix|..] == UrlSuffix;
    assert after[|QueryKey|..|after| - |UrlSuffix|] == query;
  }

  /** A numeral followed by a non-digit: the leading digits are exactly the numeral. */
  lemma LeadingDigitsOfNumeral(digits: string, tail: string)
    requires AllDigits(digits)
    requires 0 < |tail| && !IsDigit(tail[0])
    ensures LeadingDigits(digits + tail) == |digits|
  {
    var s := digits + tail;
    var k := LeadingDigits(s);
    assert s[|digits|] == tail[0];
    assert forall i :: 0 <= i < |digits| ==> s[i] == digits[i];
  }

  /** The part after `start=` reads back to the request. */
  lemma ParseStartOf(r: Request)
    ensures ParseStart(NatToString(r.start) + (QueryKey + r.query + UrlSuffix)) == Some(r)
  {
    var digits := NatToString(r.start);
    var tail := QueryKey + r.query + UrlSuffix;
    assert tail[0] == '&';
    LeadingDigitsOfNumeral(digits, tail);
    assert (digits + tail)[|digits|..] == tail;
    assert (digits + tail)[..|digits|] == digits;
    ParseQueryOf(r.query);
    DigitsToNatOfNatToString(r.start);
  }

  /** The URL text carries the query unchanged and the start offset in decimal: it reads back to the request. */
  lemma ParseUrlText(r: Request)
    ensures Parse(UrlPrefix + NatToString(r.start) + QueryKey + r.query + UrlSuffix) == Some(r)
  {
    var rest := NatToString(r.start) + (QueryKey + r.query + UrlSuffix);
    var u := UrlPrefix + NatToString(r.start) + QueryKey + r.query + UrlSuffix;
    assert u == UrlPrefix + rest;
    assert u[|UrlPrefix|..] == rest;
    ParseStartOf(r);
  }

  /** Distinct requests are sent as distinct URLs, so a server may be keyed by request. */
  lemma UrlInjective(r1: Request, r2: Request)
    ensures Url(r1) == Url(r2) ==> r1 == r2
  {}
}
