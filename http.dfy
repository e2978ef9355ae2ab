/**
 * The parts of Go's `net/http` the middleware touches: request headers and the
 * peer address, the result of an outbound GET, and the response writer.
 */
module Http {
  import opened Wrappers

  type Byte = b: int | 0 <= b < 256

  /** http.StatusOK */
  const StatusOK: int := 200

  /**
   * The codes WriteHeader sends as an informational 1xx line without fixing
   * the response's status: 100 to 199, except 101 Switching Protocols.
   */
  predicate Informational(code: int) {
    100 <= code <= 199 && code != 101
  }

  /**
   * bodyAllowedForStatus: a response with a 1xx, 204 or 304 status carries no
   * body, and Write refuses data (ErrBodyNotAllowed) rather than send it.
   */
  predicate BodyAllowed(code: int) {
    !(100 <= code <= 199) && code != 204 && code != 304
  }

  /** The status a response ends with when WriteHeader(code) comes first and a Write follows. */
  function SentStatus(code: int): (st: int)
    ensures st == code || (Informational(code) && st == StatusOK)
    ensures !Informational(st)
  {
    if Informational(code) then StatusOK else code
  }

  /** validHeaderFieldByte: the token characters a canonical header key may hold. */
  predicate IsTokenChar(c: char) {
    ('a' <= c <= 'z') || ('A' <= c <= 'Z') || ('0' <= c <= '9') || c in "!#$%&'*+-.^_`|~"
  }

  /** Canonical form of a key made of token characters, given whether the next letter starts a word. */
  function Canonicalize(s: string, upper: bool): (r: string)
    ensures |r| == |s|
    decreases |s|
  {
    if |s| == 0 then []
    else
      var c := s[0];
      var c' := if upper && 'a' <= c <= 'z' then (c as int - 32) as char
                else if !upper && 'A' <= c <= 'Z' then (c as int + 32) as char
                else c;
      [c'] + Canonicalize(s[1..], c' == '-')
  }

  /**
   * textproto.CanonicalMIMEHeaderKey: the first letter and every letter after a
   * '-' upper case, the others lower case ("x-real-ip" and "X-Real-IP" become
   * "X-Real-Ip"); a key with a non-token character is left as it is.
   */
  function CanonicalHeaderKey(s: string): (r: string)
    ensures |r| == |s|
  {
    if forall k :: 0 <= k < |s| ==> IsTokenChar(s[k]) then Canonicalize(s, true) else s
  }

  lemma {:induction false} CanonicalizeKeepsTokens(s: string, upper: bool)
    requires forall k :: 0 <= k < |s| ==> IsTokenChar(s[k])
    ensures forall k :: 0 <= k < |s| ==> IsTokenChar(Canonicalize(s, upper)[k])
    decreases |s|
  {
    if |s| > 0 {
      CanonicalizeKeepsTokens(s[1..], Canonicalize(s, upper)[0] == '-');
    }
  }

  lemma {:induction false} CanonicalizeTwice(s: string, upper: bool)
    ensures Canonicalize(Canonicalize(s, upper), upper) == Canonicalize(s, upper)
    decreases |s|
  {
    if |s| > 0 {
      var t := Canonicalize(s, upper);
      assert t[1..] == Canonicalize(s[1..], t[0] == '-');
      CanonicalizeTwice(s[1..], t[0] == '-');
    }
  }

  /** Canonicalising a canonical key changes nothing. */
  lemma CanonicalHeaderKeyIdempotent(s: string)
    ensures CanonicalHeaderKey(CanonicalHeaderKey(s)) == CanonicalHeaderKey(s)
  {
    if forall k :: 0 <= k < |s| ==> IsTokenChar(s[k]) {
      CanonicalizeKeepsTokens(s, true);
      CanonicalizeTwice(s, true);
    }
  }

  /** http.Header as the server stores it: canonical keys, each with the values in arrival order. */
  type Header = map<string, seq<string>>

  /** Header.Get: the first value under the canonical form of the key, "" when there is none. */
  function HeaderGet(h: Header, key: string): (v: string)
    ensures v != "" ==> CanonicalHeaderKey(key) in h && |h[CanonicalHeaderKey(key)]| > 0
                        && h[CanonicalHeaderKey(key)][0] == v
    ensures CanonicalHeaderKey(key) in h && |h[CanonicalHeaderKey(key)]| > 0 ==> v == h[CanonicalHeaderKey(key)][0]
    ensures CanonicalHeaderKey(key) !in h ==> v == ""
  {
    var k := CanonicalHeaderKey(key);
    if k in h && |h[k]| > 0 then h[k][0] else ""
  }

  /** The parts of an http.Request the middleware reads. */
  datatype Request = Request(header: Header, remoteAddr: string)

  /** The outcome of an outbound http.Get: a transport error, or a status code and a body. */
  datatype FetchResult = TransportError | Response(statusCode: int, body: seq<Byte>)

  /** What the response writer has recorded, and how often the next handler was called. */
  datatype WriterState = WriterState(contentType: Option<string>, status: Option<int>, body: seq<Byte>, nextCalls: nat)

  /**
   * An http.ResponseWriter reduced to the Content-Type header, the status
   * line and the body, plus a count of calls to the next handler in the chain.
   */
  class ResponseWriter {
    var contentType: Option<string>
    var status: Option<int>
    var body: seq<Byte>
    var nextCalls: nat

    function State(): WriterState
      reads this
    {
      WriterState(contentType, status, body, nextCalls)
    }

    /** A writer nothing has been written to. */
    constructor ()
      ensures State() == WriterState(None, None, [], 0)
    {
      contentType, status, body, nextCalls := None, None, [], 0;
    }

    /** w.Header().Set("Content-Type", v) */
    method SetContentType(v: string)
      modifies this
      ensures State() == old(State()).(contentType := Some(v))
    {
      contentType := Some(v);
    }

    /**
     * w.WriteHeader(code): only the first non-informational status written
     * counts; an informational code leaves the status open.
     */
    method WriteHeader(code: int)
      modifies this
      ensures State() == old(State()).(status := if old(status).None? && !Informational(code) then Some(code)
                                                 else old(status))
    {
      if status.None? && !Informational(code) {
        status := Some(code);
      }
    }

    /**
     * w.Write(data): writes status 200 first if no status was written, then
     * appends the data when that status allows a body.
     */
    method Write(data: seq<Byte>)
      modifies this
      ensures var st := if old(status).None? then StatusOK else old(status).value;
              State() == old(State()).(status := Some(st),
                                       body := if BodyAllowed(st) then old(body) + data else old(body))
    {
      if status.None? {
        status := Some(StatusOK);
      }
      if BodyAllowed(status.value) {
        body := body + data;
      }
    }

    /** next.ServeHTTP(w, r): the next handler is called once; what it writes is not modelled. */
    method CallNext()
      modifies this
      ensures State() == old(State()).(nextCalls := old(nextCalls) + 1)
    {
      nextCalls := nextCalls + 1;
    }
  }
}
