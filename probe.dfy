/** The network probes of `internet_connection.py`: the connectivity check,
    the percent-encoding of a URL before it is requested, and the decision
    that turns the answers to a HEAD request and a ranged GET into a status
    text and a size. The network is not modelled: what each request yields
    is given as a value. */
module Probe {
  import opened Wrappers
  import opened Text
  import opened UrlParse

  // ------------------------------------------------------------ connectivity

  /** The endpoints `is_internet_ok` tries, in order. */
  const TestUrls: seq<string> := [
    "http://www.gstatic.com/generate_204",
    "http://clients3.google.com/generate_204",
    "http://example.com/",
    "https://www.microsoft.com/"
  ]

  /** A request counts as an answer when it yields a 2xx or 3xx status;
      `None` stands for any exception (timeout, refused connection, an HTTP
      error status). */
  predicate Answered(code: Option<int>)
  {
    code.Some? && 200 <= code.value < 400
  }

  /** The position of the first endpoint that answers, or `|endpoints|`. */
  function FirstAnswer(endpoints: seq<string>, outcome: string -> Option<int>): (k: nat)
    ensures k <= |endpoints|
    ensures k < |endpoints| ==> Answered(outcome(endpoints[k]))
    ensures forall j :: 0 <= j < k ==> !Answered(outcome(endpoints[j]))
  {
    if endpoints == [] then 0
    else if Answered(outcome(endpoints[0])) then 0
    else 1 + FirstAnswer(endpoints[1..], outcome)
  }

  /** `is_internet_ok`: the endpoints are tried in order and the first that
      answers ends the check. `tried` is how many requests were made. */
  method IsInternetOk(outcome: string -> Option<int>) returns (ok: bool, tried: nat)
    ensures ok <==> exists i :: 0 <= i < |TestUrls| && Answered(outcome(TestUrls[i]))
    ensures ok ==> tried == FirstAnswer(TestUrls, outcome) + 1
    ensures !ok ==> tried == |TestUrls|
  {
    tried := 0;
    while tried < |TestUrls|
      invariant tried <= |TestUrls|
      invariant forall j :: 0 <= j < tried ==> !Answered(outcome(TestUrls[j]))
    {
      var code := outcome(TestUrls[tried]);
      tried := tried + 1;
      if code.Some? && 200 <= code.value < 400 {
        FirstAnswerAt(TestUrls, outcome, tried - 1);
        return true, tried;
      }
    }
    return false, tried;
  }

  /** The first answering endpoint is the one where the search stops. */
  lemma {:induction false} FirstAnswerAt(endpoints: seq<string>, outcome: string -> Option<int>, k: nat)
    requires k < |endpoints| && Answered(outcome(endpoints[k]))
    requires forall j :: 0 <= j < k ==> !Answered(outcome(endpoints[j]))
    ensures FirstAnswer(endpoints, outcome) == k
  {
    if k > 0 {
      FirstAnswerAt(endpoints[1..], outcome, k - 1);
    }
  }

  // ------------------------------------------------------------ safe URL

  /** What `_safe_url` returns: the URL rebuilt from encoded parts, or the
      input itself when splitting it raised. */
  datatype SafeUrl = Rebuilt(parts: UrlParts) | Unchanged(url: string)

  const PathSafe: set<char> := {'/'}
  const QuerySafe: set<char> := {'=', '&', '?'}

  /** `_safe_url`, given what `urlparse` made of `url` (`None` when it
      raised). */
  function SafeUrlOf(url: string, parsed: Option<UrlParts>): (r: SafeUrl)
    ensures parsed.None? <==> r == Unchanged(url)
    ensures parsed.Some? ==>
              r.Rebuilt? &&
              r.parts.scheme == parsed.value.scheme && r.parts.netloc == parsed.value.netloc &&
              r.parts.params == parsed.value.params && r.parts.fragment == parsed.value.fragment
  {
    match parsed
    case None => Unchanged(url)
    case Some(p) => Rebuilt(p.(path := Quote(p.path, PathSafe), query := Quote(p.query, QuerySafe)))
  }

  /** Decoding the encoded path and query gives back the original ones. */
  lemma SafeUrlDecodes(url: string, p: UrlParts)
    ensures Unquote(SafeUrlOf(url, Some(p)).parts.path) == p.path
    ensures Unquote(SafeUrlOf(url, Some(p)).parts.query) == p.query
  {
    UnquoteQuote(p.path, PathSafe);
    UnquoteQuote(p.query, QuerySafe);
  }

  /** The encoded path and query are plain ASCII without spaces; the path
      holds no `?` or `#` and the query no `#` or `/`, so neither runs into
      the next part of the URL. */
  lemma SafeUrlDelimiters(url: string, p: UrlParts)
    ensures var q := SafeUrlOf(url, Some(p)).parts;
      (forall i :: 0 <= i < |q.path| ==> IsAsciiChar(q.path[i])) &&
      (forall i :: 0 <= i < |q.query| ==> IsAsciiChar(q.query[i])) &&
      ' ' !in q.path && '?' !in q.path && '#' !in q.path &&
      ' ' !in q.query && '#' !in q.query && '/' !in q.query
  {
    QuoteAvoids(p.path, PathSafe, ' ');
    QuoteAvoids(p.path, PathSafe, '?');
    QuoteAvoids(p.path, PathSafe, '#');
    QuoteAvoids(p.query, QuerySafe, ' ');
    QuoteAvoids(p.query, QuerySafe, '#');
    QuoteAvoids(p.query, QuerySafe, '/');
  }

  /** `/` separates the path's segments before and after encoding, and
      `=`, `&` and `?` stay as they are in the query. */
  lemma SafeUrlKeepsSeparators(a: string, b: string, d: char)
    ensures Quote(a + "/" + b, PathSafe) == Quote(a, PathSafe) + "/" + Quote(b, PathSafe)
    ensures d in QuerySafe ==>
      Quote(a + [d] + b, QuerySafe) == Quote(a, QuerySafe) + [d] + Quote(b, QuerySafe)
  {
    QuoteAppend(a + "/", b, PathSafe);
    QuoteAppend(a, "/", PathSafe);
    QuoteKeepsSafe('/', PathSafe);
    if d in QuerySafe {
      QuoteAppend(a + [d], b, QuerySafe);
      QuoteAppend(a, [d], QuerySafe);
      QuoteKeepsSafe(d, QuerySafe);
    }
  }

  // ------------------------------------------------------------ status and size

  /** What the HEAD request yields: a response with its status and
      `Content-Length` header, an `HTTPError` with its code and header, or
      any other exception. */
  datatype HeadOutcome =
    | HeadOk(code: int, contentLength: Option<string>)
    | HeadHttpError(code: int, contentLength: Option<string>)
    | HeadFailed

  /** What the GET with `Range: bytes=0-0` yields. */
  datatype GetOutcome =
    | GetOk(code: int, contentRange: Option<string>, contentLength: Option<string>)
    | GetHttpError(code: int)
    | GetFailed

  /** What `status_and_size_mb` determines, the size still in bytes, and
      whether the GET was sent. */
  datatype Probed = Probed(status: string, sizeBytes: Option<nat>, sentGet: bool)

  /** A header value that is a non-empty run of ASCII digits, as a number. */
  function DigitHeader(h: Option<string>): (r: Option<nat>)
    ensures r.Some? <==> h.Some? && IsDigits(h.value)
    ensures r.Some? && h.value[0] != '0' ==> Decimal(r.value) == h.value
  {
    if h.Some? && h.value != [] && IsDigits(h.value) then
      DigitHeaderValue(h.value);
      Some(DigitsValue(h.value))
    else None
  }

  lemma DigitHeaderValue(s: string)
    requires IsDigits(s)
    ensures s[0] != '0' ==> Decimal(DigitsValue(s)) == s
  {
    if s[0] != '0' {
      DigitsDecimal(s);
    }
  }

  /** The complete length of a `Content-Range` value (`bytes 0-0/12345`):
      the text after its last `/`, when that is all digits. */
  function RangeTotal(cr: Option<string>): (r: Option<nat>)
    ensures r.Some? ==> cr.Some? && '/' in cr.value && IsDigits(AfterLast(cr.value, '/'))
    ensures r.Some? ==> r == DigitHeader(Some(AfterLast(cr.value, '/')))
  {
    if cr.Some? && cr.value != [] && '/' in cr.value then DigitHeader(Some(AfterLast(cr.value, '/')))
    else None
  }

  function HeadCode(head: HeadOutcome): Option<int>
  {
    if head.HeadFailed? then None else Some(head.code)
  }

  function HeadSize(head: HeadOutcome): Option<nat>
  {
    if head.HeadFailed? then None else DigitHeader(head.contentLength)
  }

  /** The status text: `OK` for 200, the code otherwise, `ERR` when no
      request produced one. */
  function StatusText(code: Option<int>): (s: string)
    ensures s == "OK" <==> code == Some(200)
    ensures s == "ERR" <==> code.None?
  {
    if code == Some(200) then "OK"
    else if code.Some? then
      assert IntToString(code.value)[0] == '-' || IsDigit(IntToString(code.value)[0]);
      IntToString(code.value)
    else "ERR"
  }

  /** The decision `status_and_size_mb` makes, step by step: the HEAD
      request's code and size; the GET only when no size is known, its code
      only when HEAD gave none, its size only from `Content-Range`. */
  function StatusAndSize(head: HeadOutcome, get: GetOutcome): Probed
  {
    var code := HeadCode(head);
    var size := HeadSize(head);
    if size.Some? then Probed(StatusText(code), size, false)
    else
      var code' := if code.None? && !get.GetFailed? then Some(get.code) else code;
      var size' := if get.GetOk? then RangeTotal(get.contentRange) else None;
      Probed(StatusText(code'), size', true)
  }

  /** `status_and_size_mb` with the two requests' results as inputs; the
      size is returned in bytes. */
  method StatusAndSizeMb(head: HeadOutcome, get: GetOutcome) returns (p: Probed)
    ensures p == StatusAndSize(head, get)
  {
    var sizeBytes: Option<nat> := None;
    var code: Option<int> := None;
    match head {
      case HeadOk(c, cl) =>
        code := Some(c);
        if cl.Some? && cl.value != "" && IsDigits(cl.value) {
          sizeBytes := Some(DigitsValue(cl.value));
        }
      case HeadHttpError(c, cl) =>
        code := Some(c);
        if cl.Some? && cl.value != "" && IsDigits(cl.value) {
          sizeBytes := Some(DigitsValue(cl.value));
        }
      case HeadFailed =>
        code := None;
    }
    var sentGet := false;
    if sizeBytes.None? {
      sentGet := true;
      match get {
        case GetOk(c, cr, _) =>
          if code.None? {
            code := Some(c);
          }
          if cr.Some? && cr.value != "" && '/' in cr.value {
            var total := AfterLast(cr.value, '/');
            if total != "" && IsDigits(total) {
              sizeBytes := Some(DigitsValue(total));
            }
          }
        case GetHttpError(c) =>
          if code.None? {
            code := Some(c);
          }
        case GetFailed =>
      }
    }
    var status := if code == Some(200) then "OK" else if code.Some? then IntToString(code.value) else "ERR";
    p := Probed(status, sizeBytes, sentGet);
  }

  /** The size in megabytes, before rounding. */
  function SizeMb(bytes: Option<nat>): (r: Option<real>)
    ensures r.Some? <==> bytes.Some?
    ensures r.Some? ==> r.value * 1048576.0 == bytes.value as real
  {
    if bytes.Some? then Some(bytes.value as real / 1048576.0) else None
  }

  /** The HEAD request's code wins whenever there is one; the GET's code
      counts only when HEAD raised something other than an HTTP error. */
  lemma HeadCodeWins(head: HeadOutcome, get: GetOutcome)
    ensures !head.HeadFailed? ==> (StatusAndSize(head, get).status == "OK" <==> head.code == 200)
    ensures !head.HeadFailed? && head.code != 200 ==> StatusAndSize(head, get).status == IntToString(head.code)
    ensures head.HeadFailed? && get.GetFailed? ==> StatusAndSize(head, get).status == "ERR"
    ensures head.HeadFailed? && !get.GetFailed? ==> (StatusAndSize(head, get).status == "OK" <==> get.code == 200)
  {
  }

  /** The GET is sent exactly when HEAD gave no usable size, and then the
      size can only come from the GET's `Content-Range`. */
  lemma GetOnlyWithoutSize(head: HeadOutcome, get: GetOutcome)
    ensures StatusAndSize(head, get).sentGet <==> HeadSize(head).None?
    ensures HeadSize(head).Some? ==> StatusAndSize(head, get).sizeBytes == HeadSize(head)
    ensures HeadSize(head).None? ==>
      StatusAndSize(head, get).sizeBytes == (if get.GetOk? then RangeTotal(get.contentRange) else None)
  {
  }

  /** The GET's `Content-Length` (one byte for a ranged answer) is never
      taken as the size, nor does it change the status. */
  lemma GetLengthIgnored(head: HeadOutcome, code: int, cr: Option<string>, cl1: Option<string>, cl2: Option<string>)
    ensures StatusAndSize(head, GetOk(code, cr, cl1)) == StatusAndSize(head, GetOk(code, cr, cl2))
  {
  }

  /** A size is reported exactly when one of the two byte counts was found. */
  lemma SizeFound(head: HeadOutcome, get: GetOutcome)
    ensures StatusAndSize(head, get).sizeBytes.None? <==>
      HeadSize(head).None? && (get.GetOk? ==> RangeTotal(get.contentRange).None?)
  {
  }

  /** `bytes 0-0/12345` reports 12345 bytes. */
  lemma RangeTotalExample()
    ensures RangeTotal(Some("bytes 0-0/12345")) == Some(12345)
  {
    var cr := "bytes 0-0/12345";
    assert cr[9] == '/';
    assert AfterLast(cr, '/') == "12345" by {
      AfterLastAppend("bytes 0-0/", "12345", '/');
      assert cr == "bytes 0-0/" + "12345";
    }
    Value12345();
  }

  lemma Value12345()
    ensures IsDigits("12345") && DigitsValue("12345") == 12345
  {
    assert "12345"[..4] == "1234" && "1234"[..3] == "123" && "123"[..2] == "12" && "12"[..1] == "1";
  }
}
