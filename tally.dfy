/**
 * The response tally at the end of `measure_url`: over the requests the
 * browser recorded, count those that got a response and add up a byte
 * length for each.
 */
module Tally {
  import opened Wrappers
  import opened Decimal

  newtype byte = b: int | 0 <= b < 256

  /**
   * A recorded response: its headers, looked up by exact key, and its body;
   * a body of None is one whose reading raised.
   */
  datatype Response = Response(headers: map<string, string>, body: Option<seq<byte>>)

  /** A recorded request; None when no response arrived. */
  datatype Request = Request(response: Option<Response>)

  /**
   * `headers.get("Content-Length") or headers.get("content-length")`: the
   * first lookup when it gives a non-empty value, otherwise the second.
   */
  function ContentLength(headers: map<string, string>): (cl: Option<string>)
    ensures cl.Some? ==> cl.value in headers.Values
    ensures "Content-Length" in headers && headers["Content-Length"] != "" ==>
              cl == Some(headers["Content-Length"])
    ensures !("Content-Length" in headers && headers["Content-Length"] != "") ==>
              cl == (if "content-length" in headers then Some(headers["content-length"]) else None)
  {
    if "Content-Length" in headers && headers["Content-Length"] != "" then
      Some(headers["Content-Length"])
    else if "content-length" in headers then
      Some(headers["content-length"])
    else
      None
  }

  /** A Content-Length header that is present and non-empty: the `if cl:` test. */
  predicate DeclaresLength(headers: map<string, string>) {
    var cl := ContentLength(headers);
    cl.Some? && cl.value != ""
  }

  /**
   * The `length` the loop settles on for one response: the parsed header
   * when it is declared, None when it does not parse (the outer `except`),
   * and otherwise the length of a non-empty body.
   */
  function ChosenLength(resp: Response): (len: Option<int>)
    ensures DeclaresLength(resp.headers) ==> len == ParseInt(ContentLength(resp.headers).value)
    ensures !DeclaresLength(resp.headers) ==> (len.Some? <==> resp.body.Some? && resp.body.value != [])
    ensures !DeclaresLength(resp.headers) && len.Some? ==> len.value == |resp.body.value|
  {
    if DeclaresLength(resp.headers) then
      ParseInt(ContentLength(resp.headers).value)
    else
      match resp.body
      case Some(b) => if b != [] then Some(|b|) else None
      case None => None
  }

  /** What one request adds to `total_bytes`. */
  function Contribution(req: Request): int {
    match req.response
    case None => 0
    case Some(resp) =>
      match ChosenLength(resp)
      case Some(n) => n
      case None => 0
  }

  predicate Answered(req: Request) {
    req.response.Some?
  }

  /** `response_count` after the loop over reqs. */
  function ResponseCount(reqs: seq<Request>): (n: nat)
    ensures n <= |reqs|
  {
    if reqs == [] then 0
    else ResponseCount(reqs[..|reqs| - 1]) + (if Answered(reqs[|reqs| - 1]) then 1 else 0)
  }

  /** `total_bytes` after the loop over reqs. */
  function TotalBytes(reqs: seq<Request>): int {
    if reqs == [] then 0
    else TotalBytes(reqs[..|reqs| - 1]) + Contribution(reqs[|reqs| - 1])
  }

  /** The loop of `measure_url` over `driver.requests`. */
  method TallyResponses(reqs: seq<Request>) returns (responseCount: nat, totalBytes: int)
    ensures responseCount == ResponseCount(reqs)
    ensures totalBytes == TotalBytes(reqs)
  {
    totalBytes := 0;
    responseCount := 0;
    for i := 0 to |reqs|
      invariant responseCount == ResponseCount(reqs[..i])
      invariant totalBytes == TotalBytes(reqs[..i])
    {
      assert reqs[..i + 1][..i] == reqs[..i];
      var resp := reqs[i].response;
      if resp.None? {
        continue;
      }
      responseCount := responseCount + 1;
      var length := ChosenLength(resp.value);
      if length.Some? {
        totalBytes := totalBytes + length.value;
      }
    }
    assert reqs[..|reqs|] == reqs;
  }

  /** The positions of the requests that got a response. */
  function AnsweredPositions(reqs: seq<Request>): set<nat> {
    set i: nat | i < |reqs| && Answered(reqs[i])
  }

  /** `response_count` is the number of requests that have a response. */
  lemma {:induction false} ResponseCountIsAnswered(reqs: seq<Request>)
    ensures ResponseCount(reqs) == |AnsweredPositions(reqs)|
  {
    if reqs != [] {
      var init := reqs[..|reqs| - 1];
      ResponseCountIsAnswered(init);
      var last := |reqs| - 1;
      assert forall i :: 0 <= i < |init| ==> init[i] == reqs[i];
      if Answered(reqs[last]) {
        assert AnsweredPositions(reqs) == AnsweredPositions(init) + {last};
      } else {
        assert AnsweredPositions(reqs) == AnsweredPositions(init);
      }
    }
  }

  /** `total_bytes` over consecutive batches of requests adds up. */
  lemma {:induction false} TotalBytesConcat(a: seq<Request>, b: seq<Request>)
    ensures TotalBytes(a + b) == TotalBytes(a) + TotalBytes(b)
  {
    if b == [] {
      assert a + b == a;
    } else {
      TotalBytesConcat(a, b[..|b| - 1]);
      assert (a + b)[..|a + b| - 1] == a + b[..|b| - 1];
    }
  }

  lemma {:induction false} ResponseCountConcat(a: seq<Request>, b: seq<Request>)
    ensures ResponseCount(a + b) == ResponseCount(a) + ResponseCount(b)
  {
    if b == [] {
      assert a + b == a;
    } else {
      ResponseCountConcat(a, b[..|b| - 1]);
      assert (a + b)[..|a + b| - 1] == a + b[..|b| - 1];
    }
  }

  /** A request without a response, wherever it stands, adds to neither counter. */
  lemma UnansweredAddsNothing(a: seq<Request>, b: seq<Request>)
    ensures TotalBytes(a + [Request(None)] + b) == TotalBytes(a + b)
    ensures ResponseCount(a + [Request(None)] + b) == ResponseCount(a + b)
  {
    TotalBytesConcat(a + [Request(None)], b);
    TotalBytesConcat(a, b);
    ResponseCountConcat(a + [Request(None)], b);
    ResponseCountConcat(a, b);
    assert (a + [Request(None)])[..|a|] == a;
  }

  /** A declared Content-Length decides the length whatever the body is. */
  lemma HeaderIgnoresBody(headers: map<string, string>, b1: Option<seq<byte>>, b2: Option<seq<byte>>)
    requires DeclaresLength(headers)
    ensures ChosenLength(Response(headers, b1)) == ChosenLength(Response(headers, b2))
  {
  }

  /**
   * A declared Content-Length that does not parse contributes nothing, even
   * when a body is there: the exception skips the body fallback.
   */
  lemma UnparsableHeaderContributesNothing(headers: map<string, string>, body: Option<seq<byte>>)
    requires DeclaresLength(headers) && ParseInt(ContentLength(headers).value).None?
    ensures Contribution(Request(Some(Response(headers, body)))) == 0
  {
  }

  /** A server that writes `Content-Length: n` as `str(n)` gets n counted. */
  lemma DeclaredLengthCounted(headers: map<string, string>, body: Option<seq<byte>>, n: nat)
    requires "Content-Length" in headers && headers["Content-Length"] == FormatInt(n)
    requires |Digits(n)| <= MaxStrDigits
    ensures Contribution(Request(Some(Response(headers, body)))) == n
  {
    var cl := FormatInt(n);
    assert cl == Digits(n) && cl != "";
    assert ContentLength(headers) == Some(cl);
    ParseFormat(n);
    assert ChosenLength(Response(headers, body)) == Some(n);
  }
}
