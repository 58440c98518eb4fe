/** Token issuance: the header filter that sizes the body accumulator and the
    body filter that feeds it and, once the last buffer has arrived, replaces
    the response body with a token signed over the accumulated JSON
    (`ngx_http_jwt_issue_header_filter`, `ngx_http_jwt_issue_body_filter`). */
module Issue {
  import opened Octets
  import opened Algorithms
  import opened Config
  import opened LibJwt
  import opened Accumulator

  /** `NGX_HTTP_OK`. */
  const StatusOk: int := 200

  /** What the header filter does with a response. */
  datatype HeaderDecision =
    | PassHeaders             // issuance off: the next header filter runs
    | RejectTooLarge          // 413, before any context exists
    | Capture(capacity: nat)  // headers held back; a context of this capacity collects the body

  /** The header filter's decision for the declared `content_length_n` (-1 for
      an unknown, chunked length) and the configured `jwt_issue_buffer_size`. */
  function DecideHeader(issue: bool, contentLength: int, bufferSize: nat): (d: HeaderDecision)
    requires contentLength >= -1
    ensures d.PassHeaders? <==> !issue
    ensures d.RejectTooLarge? <==> issue && contentLength > bufferSize && contentLength > 0
    ensures d.Capture? && contentLength >= 0 ==> 1 <= d.capacity <= bufferSize + 1
  {
    if !issue then PassHeaders
    else if contentLength > 0 && contentLength > bufferSize then RejectTooLarge
    else if contentLength == -1 then Capture(bufferSize)
    else Capture(contentLength + 1)
  }

  /** The most body bytes an accepted response may carry: its declared length,
      or one byte less than the buffer size when the length is unknown. */
  function BodyLimit(contentLength: int, bufferSize: nat): (r: int)
    requires contentLength >= -1
    ensures DecideHeader(true, contentLength, bufferSize).Capture? ==>
              r == DecideHeader(true, contentLength, bufferSize).capacity - 1
  {
    if contentLength == -1 then bufferSize - 1 else contentLength
  }

  /** End to end: once the header filter has sized the context, a body is
      accumulated in full exactly when it is no longer than BodyLimit, however
      it is split into buffers. */
  lemma AcceptsUpToLimit(contentLength: int, bufferSize: nat, chain: seq<seq<byte>>)
    requires contentLength >= -1 && |chain| > 0
    requires DecideHeader(true, contentLength, bufferSize).Capture?
    ensures var capacity := DecideHeader(true, contentLength, bufferSize).capacity;
            !Absorbed(capacity, [], chain).overflow <==>
              |Flatten(chain)| <= BodyLimit(contentLength, bufferSize)
  {
    AbsorbedAcceptsIffFits(DecideHeader(true, contentLength, bufferSize).capacity, [], chain);
  }

  /** A body of exactly `jwt_issue_buffer_size` bytes is accepted when its
      length is declared, but refused when it arrives chunked. */
  lemma BufferSizeBoundary(bufferSize: nat, chain: seq<seq<byte>>)
    requires |chain| > 0 && |Flatten(chain)| == bufferSize
    ensures !Absorbed(DecideHeader(true, bufferSize, bufferSize).capacity, [], chain).overflow
    ensures Absorbed(DecideHeader(true, -1, bufferSize).capacity, [], chain).overflow
  {
    AcceptsUpToLimit(bufferSize, bufferSize, chain);
    AcceptsUpToLimit(-1, bufferSize, chain);
  }

  /** The header filter. An existing context is reused, as the source does; the
      header filter runs before any body buffer, so its buffer is not yet
      allocated. */
  method HeaderFilter(conf: LocConf, contentLength: int, ctx: Context?)
      returns (d: HeaderDecision, ctx': Context?)
    requires conf.Complete() && contentLength >= -1
    requires ctx != null ==> ctx.Valid() && ctx.body == null
    modifies ctx
    ensures d == DecideHeader(conf.issue.value, contentLength, conf.issueBufferSize.value)
    ensures !d.Capture? ==> ctx' == ctx && (ctx != null ==> unchanged(ctx))
    ensures d.Capture? ==> && ctx' != null && ctx'.Valid()
                           && ctx'.length == d.capacity && ctx'.body == null && ctx'.Contents() == []
                           && (ctx != null ==> ctx' == ctx)
                           && (ctx == null ==> fresh(ctx'))
  {
    d := DecideHeader(conf.issue.value, contentLength, conf.issueBufferSize.value);
    ctx' := ctx;
    if d.Capture? {
      if ctx' == null {
        ctx' := new Context(d.capacity);
      } else {
        ctx'.length := d.capacity;
      }
    }
  }

  /** How producing the token ends. */
  datatype Issuance =
    | SetAlgFailed     // `jwt_set_alg` refused the algorithm or key
    | GrantsRejected   // `jwt_add_grants_json` refused the body
    | EncodeFailed     // `jwt_encode_str` failed
    | Signed(token: seq<byte>)

  /** The token for an accumulated body: libjwt is given the configured
      algorithm and key, then the body as a C string; the token is the C string
      `jwt_encode_str` returns. */
  function Sign(lib: Library, alg: Alg, key: seq<byte>, body: seq<byte>): (r: Issuance)
    ensures r.Signed? ==> lib.setAlg(alg, key) && lib.addGrants(CStr(body)) && 0 !in r.token
    ensures r.Signed? <==> lib.setAlg(alg, key) && lib.addGrants(CStr(body))
                           && lib.encode(alg, key, CStr(body)).Some?
    ensures r.Signed? ==> r.token == CStr(lib.encode(alg, key, CStr(body)).value)
  {
    if !lib.setAlg(alg, key) then SetAlgFailed
    else if !lib.addGrants(CStr(body)) then GrantsRejected
    else match lib.encode(alg, key, CStr(body))
      case None => EncodeFailed
      case Some(t) => Signed(CStr(t))
  }

  /** The completion step: after `jwt_set_alg` succeeds, the NUL is written at
      the cursor and the buffer handed to libjwt. */
  method Finish(ctx: Context, alg: Alg, key: seq<byte>, lib: Library) returns (r: Issuance)
    requires ctx.Valid() && ctx.body != null && ctx.last < ctx.length
    modifies ctx.body
    ensures ctx.Valid() && ctx.Contents() == old(ctx.Contents())
    ensures r == Sign(lib, alg, key, ctx.Contents())
  {
    if !lib.setAlg(alg, key) {
      return SetAlgFailed;
    }
    ctx.Terminate();
    var json := CStr(ctx.body[..ctx.last + 1]);
    if !lib.addGrants(json) {
      return GrantsRejected;
    }
    var encoded := lib.encode(alg, key, json);
    if encoded.None? {
      return EncodeFailed;
    }
    r := Signed(CStr(encoded.value));
  }

  /** What the body filter does with one call. */
  datatype BodyResult =
    | Forward                  // the chain goes to the next filters untouched
    | Failed                   // NGX_ERROR
    | Rejected                 // 413
    | Held                     // NGX_OK and nothing passed on: more body is awaited
    | Issued(token: seq<byte>) // the body is replaced by the token

  /** The body filter. A null `chain` stands for a NULL chain, a null `ctx`
      for a request without the module's context. On issuance `out` is the
      outgoing chain, one buffer holding the token, and `contentLength` the new
      `content_length_n`. */
  method BodyFilter(conf: LocConf, status: int, chain: Chain?, ctx: Context?, lib: Library)
      returns (r: BodyResult, out: Chain?, contentLength: Option<nat>)
    requires conf.Complete() && (chain != null ==> chain.Valid())
    requires ctx != null ==> ctx.Valid()
    modifies ctx, if ctx != null then {ctx.body} else {}, chain
    ensures r.Forward? <==> !conf.issue.value || chain == null || status != StatusOk
    ensures r.Forward? ==>
              && (ctx != null ==> unchanged(ctx) && (ctx.body != null ==> unchanged(ctx.body)))
              && (chain != null ==> unchanged(chain))
    ensures !r.Forward? && ctx == null ==> r.Failed?
    ensures ctx == null && chain != null ==> unchanged(chain)
    ensures ctx != null ==> ctx.length == old(ctx.length)
    ensures ctx != null && !r.Forward? ==>
              && ctx.body != null
              && (old(ctx.body) == null ==> fresh(ctx.body))
              && (old(ctx.body) != null ==> ctx.body == old(ctx.body))
    ensures r.Issued? <==> out != null
    ensures r.Issued? ==> && fresh(out) && out.Valid()
                          && out.mem == [r.token] && out.Pending() == [r.token] && out.lastBuf == [true]
                          && contentLength == Some(|r.token|)
    ensures !r.Issued? ==> contentLength.None?
    ensures !r.Forward? && ctx != null && chain != null ==>
              var f := Absorbed(old(ctx.length), old(ctx.Contents()), old(chain.Pending()));
              && ctx.Valid() && ctx.Contents() == f.contents
              && chain.Valid() && Consumed(chain, old(chain.pos), f)
              && (f.overflow ==> r.Rejected?)
              && (!f.overflow && !chain.Ends() ==> r.Held?)
              && (!f.overflow && chain.Ends() ==>
                    match Sign(lib, conf.issueAlgorithm.value, conf.key.value, f.contents)
                    case Signed(t) => r == Issued(t)
                    case _ => r.Failed?)
  {
    out, contentLength := null, None;
    if !conf.issue.value || chain == null || status != StatusOk {
      return Forward, out, contentLength;
    }
    if ctx == null {
      return Failed, out, contentLength;
    }
    ghost var f := Absorbed(ctx.length, ctx.Contents(), chain.Pending());
    AbsorbedAppendsPrefix(ctx.length, ctx.Contents(), chain.Pending());
    var o := ctx.Absorb(chain);
    if o == Overflow {
      return Rejected, out, contentLength;
    }
    if o == NeedMore {
      return Held, out, contentLength;
    }
    var issued := Finish(ctx, conf.issueAlgorithm.value, conf.key.value, lib);
    if !issued.Signed? {
      return Failed, out, contentLength;
    }
    out := new Chain([issued.token], [true]);
    contentLength := Some(|issued.token|);
    r := Issued(issued.token);
  }
}
