/**
 How the search engine reads the `q` parameter of a results-page URL, and the
 query text the scraper interpolates into it (prog.py:25).

 The HTTP client sends a URL only up to its first `#`: the rest is a fragment.
 The engine splits the query string it receives at `&` and percent-decodes
 each value, with `+` read as a space. The scraper puts the query into the
 URL as typed, so a query holding `&` or `#` reaches the engine cut short.
 `EncodedUrl` is the URL with the query percent-encoded; with it the engine
 reads back every query.
 */
module QueryEncoding {
  import opened Wrappers
  import opened Decimal
  import opened SearchUrl

  /** The text of `s` before its first `stop` character, or all of `s` when there is none. */
  function UpTo(s: string, stop: char): string {
    if |s| == 0 || s[0] == stop then [] else [s[0]] + UpTo(s[1..], stop)
  }

  /** The kept text is a prefix without `stop`, and it ends either at the end of `s` or just before a `stop`. */
  lemma {:induction false} UpToIsFirstCut(s: string, stop: char)
    ensures UpTo(s, stop) <= s
    ensures stop !in UpTo(s, stop)
    ensures |UpTo(s, stop)| < |s| ==> s[|UpTo(s, stop)|] == stop
    decreases |s|
  {
    if |s| > 0 && s[0] != stop {
      UpToIsFirstCut(s[1..], stop);
    }
  }

  predicate IsHexDigit(c: char) {
    '0' <= c <= '9' || 'A' <= c <= 'F' || 'a' <= c <= 'f'
  }

  function HexValue(c: char): (d: nat)
    requires IsHexDigit(c)
    ensures d < 16
  {
    if '0' <= c <= '9' then c as int - '0' as int
    else if 'A' <= c <= 'F' then c as int - 'A' as int + 10
    else c as int - 'a' as int + 10
  }

  /** The escape of a character that would change how the value is sent or read; other characters stand for themselves. */
  function EncodeChar(c: char): string {
    match c
    case '%' => "%25"
    case '&' => "%26"
    case '#' => "%23"
    case '+' => "%2B"
    case ' ' => "%20"
    case _ => [c]
  }

  /** Percent-encoding of a query: no `&` and no `#` survives it. */
  function Encode(q: string): (e: string)
    ensures '&' !in e
    ensures '#' !in e
  {
    if |q| == 0 then [] else EncodeChar(q[0]) + Encode(q[1..])
  }

  /**
   Percent-decoding as the engine applies it: `%` followed by two hex digits
   gives the character with that code, `+` gives a space, and every other
   character stands for itself.
   */
  function Decode(e: string): (q: string)
    ensures |q| <= |e|
  {
    if |e| == 0 then []
    else if 3 <= |e| && e[0] == '%' && IsHexDigit(e[1]) && IsHexDigit(e[2]) then
      [(HexValue(e[1]) * 16 + HexValue(e[2])) as char] + Decode(e[3..])
    else if e[0] == '+' then " " + Decode(e[1..])
    else [e[0]] + Decode(e[1..])
  }

  /** The query read from the text after `start=`'s numeral: the `&q=` parameter, up to the next `&`, decoded. */
  function ReadQueryPart(after: string): Option<string> {
    if !(QueryKey <= after) then None else Some(Decode(UpTo(after[|QueryKey|..], '&')))
  }

  /** The query read from the text after `start=`: the numeral is skipped. */
  function ReadQueryAfterStart(rest: string): Option<string> {
    ReadQueryPart(rest[LeadingDigits(rest)..])
  }

  /** The query the engine reads from the URL text it receives; `None` when there is no `q` parameter after `start`. */
  function ReadSentQuery(s: string): Option<string> {
    if !(UrlPrefix <= s) then None else ReadQueryAfterStart(s[|UrlPrefix|..])
  }

  /** The query the engine reads when the scraper requests the URL `u`: only the text before the first `#` is sent. */
  function ReadQuery(u: string): Option<string> {
    ReadSentQuery(UpTo(u, '#'))
  }

  /** The URL with the query percent-encoded. */
  function EncodedUrl(r: Request): string {
    UrlPrefix + NatToString(r.start) + QueryKey + Encode(r.query) + UrlSuffix
  }

  /** A prefix free of `stop` is kept whole, and the cut happens in what follows it. */
  lemma {:induction false} UpToAppend(v: string, s: string, stop: char)
    requires stop !in v
    ensures UpTo(v + s, stop) == v + UpTo(s, stop)
    decreases |v|
  {
    if |v| == 0 {
      assert v + s == s;
    } else {
      UpToAppend(v[1..], s, stop);
      calc {
        UpTo(v + s, stop);
        == { assert (v + s)[0] == v[0]; assert (v + s)[1..] == v[1..] + s; }
        [v[0]] + UpTo(v[1..] + s, stop);
        ==
        [v[0]] + (v[1..] + UpTo(s, stop));
        == { assert [v[0]] + v[1..] == v; }
        v + UpTo(s, stop);
      }
    }
  }

  /** Text without `stop` is kept whole. */
  lemma UpToAbsent(s: string, stop: char)
    requires stop !in s
    ensures UpTo(s, stop) == s
  {
    UpToIsFirstCut(s, stop);
  }

  /** An encoded character decodes back to itself, whatever follows it. */
  lemma DecodeEncodeChar(c: char, rest: string)
    ensures Decode(EncodeChar(c) + rest) == [c] + Decode(rest)
  {
    var e := EncodeChar(c) + rest;
    if |EncodeChar(c)| == 3 {
      assert e[3..] == rest;
    } else {
      assert e[1..] == rest;
    }
  }

  /** Decoding undoes encoding. */
  lemma {:induction false} DecodeEncode(q: string)
    ensures Decode(Encode(q)) == q
    decreases |q|
  {
    if |q| > 0 {
      DecodeEncodeChar(q[0], Encode(q[1..]));
      DecodeEncode(q[1..]);
      assert [q[0]] + q[1..] == q;
    }
  }

  /** The parameter part is read as the value up to its first `&`, decoded. */
  lemma ReadQueryPartOf(w: string)
    ensures ReadQueryPart(QueryKey + w) == Some(Decode(UpTo(w, '&')))
  {
    assert (QueryKey + w)[|QueryKey|..] == w;
  }

  /** After the numeral of the start offset, the query part is read. */
  lemma ReadQueryAfterStartOf(start: nat, w: string)
    ensures ReadQueryAfterStart(NatToString(start) + (QueryKey + w)) == Some(Decode(UpTo(w, '&')))
  {
    var digits := NatToString(start);
    var tail := QueryKey + w;
    assert tail[0] == '&';
    LeadingDigitsOfNumeral(digits, tail);
    assert (digits + tail)[|digits|..] == tail;
    ReadQueryPartOf(w);
  }

  /** Sent URL text of the scraper's shape is read as its `q` value up to the first `&`, decoded. */
  lemma ReadSentQueryOf(start: nat, w: string)
    ensures ReadSentQuery(UrlPrefix + NatToString(start) + QueryKey + w) == Some(Decode(UpTo(w, '&')))
  {
    var rest := NatToString(start) + (QueryKey + w);
    var s := UrlPrefix + NatToString(start) + QueryKey + w;
    assert s == UrlPrefix + rest;
    assert s[|UrlPrefix|..] == rest;
    ReadQueryAfterStartOf(start, w);
  }

  /**
   A URL of the scraper's shape whose text after `&q=` is `rest` is read as
   `rest` cut at its first `#` (the fragment is not sent), then at its first
   `&`, then decoded.
   */
  lemma ReadQueryOf(start: nat, rest: string)
    ensures ReadQuery(UrlPrefix + NatToString(start) + QueryKey + rest)
         == Some(Decode(UpTo(UpTo(rest, '#'), '&')))
  {
    var digits := NatToString(start);
    var head := UrlPrefix + digits + QueryKey;
    assert !IsDigit('#');
    assert '#' !in digits;
    assert '#' !in head;
    UpToAppend(head, rest, '#');
    ReadSentQueryOf(start, UpTo(rest, '#'));
  }

  /** Where a cut happens at the first character, nothing is kept; otherwise the first character is kept. */
  lemma UpToFirst(s: string, stop: char)
    requires 0 < |s|
    ensures s[0] == stop ==> UpTo(s, stop) == []
    ensures s[0] != stop ==> 0 < |UpTo(s, stop)| && UpTo(s, stop)[0] == s[0]
  {}

  /** The fixed URL suffix starts a new parameter and holds no `#`. */
  lemma UrlSuffixShape()
    ensures 0 < |UrlSuffix| && UrlSuffix[0] == '&'
    ensures '#' !in UrlSuffix
  {}

  /**
   A query typed with its first `&` or `#` at index `i`, followed by any
   text, is cut to its first `i` characters.
   */
  lemma CutAt(q: string, i: nat, suffix: string)
    requires i < |q| && (q[i] == '&' || q[i] == '#')
    requires '&' !in q[..i] && '#' !in q[..i]
    ensures UpTo(UpTo(q + suffix, '#'), '&') == q[..i]
  {
    var head := q[..i];
    var tail := q[i..] + suffix;
    assert q + suffix == head + tail;
    assert tail[0] == q[i];
    UpToAppend(head, tail, '#');
    UpToFirst(tail, '#');
    var sent := UpTo(tail, '#');
    if q[i] == '#' {
      assert head + sent == head;
      UpToAbsent(head, '&');
    } else {
      UpToFirst(sent, '&');
      UpToAppend(head, sent, '&');
      assert head + [] == head;
    }
  }

  /** A value free of `&` and `#`, followed by text that starts with `&` and holds no `#`, is read whole. */
  lemma ValueIsKept(v: string, suffix: string)
    requires '&' !in v && '#' !in v
    requires 0 < |suffix| && suffix[0] == '&' && '#' !in suffix
    ensures UpTo(UpTo(v + suffix, '#'), '&') == v
  {
    UpToAbsent(v + suffix, '#');
    UpToAppend(v, suffix, '&');
    UpToFirst(suffix, '&');
    assert v + [] == v;
  }

  /**
   As written, a query whose first `&` or `#` is at index `i` reaches the
   engine as its first `i` characters, decoded: strictly shorter than the
   query typed.
   */
  lemma RawQueryIsCut(r: Request, i: nat)
    requires i < |r.query| && (r.query[i] == '&' || r.query[i] == '#')
    requires '&' !in r.query[..i] && '#' !in r.query[..i]
    ensures ReadQuery(Url(r)) == Some(Decode(r.query[..i]))
    ensures ReadQuery(Url(r)) != Some(r.query)
  {
    assert Url(r) == UrlPrefix + NatToString(r.start) + QueryKey + (r.query + UrlSuffix);
    ReadQueryOf(r.start, r.query + UrlSuffix);
    CutAt(r.query, i, UrlSuffix);
    assert |Decode(r.query[..i])| < |r.query|;
  }

  /** The query `R&D` is searched for as `R`, and the query `C#` as `C`. */
  lemma QueriesAreMisread()
    ensures ReadQuery(Url(Request("R&D", 0))) == Some("R")
    ensures ReadQuery(Url(Request("C#", 0))) == Some("C")
  {
    var r1 := Request("R&D", 0);
    assert r1.query[..1] == "R";
    RawQueryIsCut(r1, 1);
    assert Decode("R") == "R";
    var r2 := Request("C#", 0);
    assert r2.query[..1] == "C";
    RawQueryIsCut(r2, 1);
    assert Decode("C") == "C";
  }

  /** With the query percent-encoded, the engine reads back exactly the query typed, for every query. */
  lemma EncodedQueryIsRead(r: Request)
    ensures ReadQuery(EncodedUrl(r)) == Some(r.query)
  {
    var e := Encode(r.query);
    assert EncodedUrl(r) == UrlPrefix + NatToString(r.start) + QueryKey + (e + UrlSuffix);
    ReadQueryOf(r.start, e + UrlSuffix);
    UrlSuffixShape();
    ValueIsKept(e, UrlSuffix);
    DecodeEncode(r.query);
  }
}
