/** Token verification in the access phase (`ngx_http_jwt_verify_handler`): the
    token is taken from the `Authorization` request header or, failing that,
    from the `authorization` cookie; when it decodes under the configured key
    with an algorithm other than "none", its claims replace the request's
    `Authorization` header, base64-encoded, for the upstream to read. */
module Verify {
  import opened Octets
  import opened Algorithms
  import opened Config
  import opened LibJwt
  import Base64

  /** The handler's return codes: `NGX_OK` lets the request continue. */
  datatype Rc = Ok | Error

  /** One request header line (`ngx_table_elt_t`). */
  datatype Header = Header(key: seq<byte>, value: seq<byte>)

  /** One cookie of the request, already split from the `Cookie` lines. */
  datatype Cookie = Cookie(name: seq<byte>, value: seq<byte>)

  /** The request's inbound headers as a value: the header list, the position
      of the header that `headers_in.authorization` points to, and the cookies. */
  datatype Inbound = Inbound(headers: seq<Header>, authorization: Option<nat>, cookies: seq<Cookie>)
  {
    ghost predicate Valid() {
      authorization.Some? ==> authorization.value < |headers|
    }
  }

  const AuthorizationCookie: seq<byte> := Ascii("authorization")
  const AuthorizationHeader: seq<byte> := Ascii("Authorization")

  /** The value of the first cookie whose name matches `name` up to ASCII case. */
  function CookieValue(cookies: seq<Cookie>, name: seq<byte>): (r: Option<seq<byte>>)
    ensures r.None? <==> forall i :: 0 <= i < |cookies| ==> !EqualsIgnoreCase(cookies[i].name, name)
    ensures r.Some? ==> exists i :: 0 <= i < |cookies| && EqualsIgnoreCase(cookies[i].name, name)
                                    && cookies[i].value == r.value
                                    && forall j :: 0 <= j < i ==> !EqualsIgnoreCase(cookies[j].name, name)
  {
    if cookies == [] then None
    else if EqualsIgnoreCase(cookies[0].name, name) then Some(cookies[0].value)
    else
      var r := CookieValue(cookies[1..], name);
      assert forall i :: 1 <= i < |cookies| ==> cookies[i] == cookies[1..][i - 1];
      r
  }

  /** Where the token comes from: the `Authorization` header when the request
      has one, else the `authorization` cookie. */
  function Source(req: Inbound): (r: Option<seq<byte>>)
    requires req.Valid()
    ensures req.authorization.Some? ==> r == Some(req.headers[req.authorization.value].value)
    ensures req.authorization.None? ==> r == CookieValue(req.cookies, AuthorizationCookie)
    ensures req.authorization.None? ==>
              (r.None? <==> forall i :: 0 <= i < |req.cookies| ==>
                               !EqualsIgnoreCase(req.cookies[i].name, AuthorizationCookie))
  {
    match req.authorization
    case Some(i) => Some(req.headers[i].value)
    case None => CookieValue(req.cookies, AuthorizationCookie)
  }

  /** The claims a token carries when it is to be trusted: it decodes and
      verifies under `key` (as the C string given to `jwt_decode`), its
      algorithm is not "none", and libjwt can render its grants as JSON. */
  function Claims(lib: Library, key: seq<byte>, token: seq<byte>): (r: Option<seq<byte>>)
    ensures r.Some? <==> && lib.decode(CStr(token), key).Some?
                         && lib.decode(CStr(token), key).value.alg != NoneAlg
                         && lib.grantsJson(lib.decode(CStr(token), key).value).Some?
    ensures r.Some? ==> r.value == CStr(lib.grantsJson(lib.decode(CStr(token), key).value).value)
  {
    match lib.decode(CStr(token), key)
    case None => None
    case Some(t) =>
      if t.alg == NoneAlg then None
      else match lib.grantsJson(t)
        case None => None
        case Some(g) => Some(CStr(g))
  }

  /** The request once a header token has been taken: the header's value is
      emptied, so an untrusted token never reaches the upstream. */
  function TokenErased(req: Inbound): (r: Inbound)
    requires req.Valid()
    ensures r.Valid() && r.authorization == req.authorization && r.cookies == req.cookies
    ensures |r.headers| == |req.headers|
    ensures forall j :: 0 <= j < |req.headers| && Some(j) != req.authorization ==> r.headers[j] == req.headers[j]
    ensures req.authorization.Some? ==>
              r.headers[req.authorization.value] == req.headers[req.authorization.value].(value := [])
  {
    match req.authorization
    case Some(i) => req.(headers := req.headers[i := req.headers[i].(value := [])])
    case None => req
  }

  /** The request with `value` as its `Authorization` header: the existing
      header is overwritten, or a new one is appended and becomes the
      request's authorization header. */
  function Authorize(req: Inbound, value: seq<byte>): (r: Inbound)
    requires req.Valid()
    ensures r.Valid() && r.authorization.Some? && r.headers[r.authorization.value].value == value
    ensures r.cookies == req.cookies
    ensures req.authorization.Some? ==>
              && r.authorization == req.authorization && |r.headers| == |req.headers|
              && r.headers[req.authorization.value].key == req.headers[req.authorization.value].key
    ensures req.authorization.None? ==>
              r.headers == req.headers + [Header(AuthorizationHeader, value)]
    ensures forall j :: 0 <= j < |req.headers| && Some(j) != req.authorization ==> r.headers[j] == req.headers[j]
  {
    match req.authorization
    case Some(i) => req.(headers := req.headers[i := req.headers[i].(value := value)])
    case None => req.(headers := req.headers + [Header(AuthorizationHeader, value)],
                      authorization := Some(|req.headers|))
  }

  /** The handler's return code and the request it leaves behind. */
  function Verified(conf: LocConf, lib: Library, req: Inbound): (r: (Rc, Inbound))
    requires conf.Complete() && req.Valid()
    ensures r.1.Valid() && r.1.cookies == req.cookies && |r.1.headers| >= |req.headers|
    ensures forall j :: 0 <= j < |req.headers| && Some(j) != req.authorization ==> r.1.headers[j] == req.headers[j]
    ensures r.0 == Error ==> r.1 == req
  {
    if !conf.verify.value then (Ok, req)
    else if conf.key.value == [] then (Error, req)
    else match Source(req)
      case None => (Ok, req)
      case Some(token) =>
        match Claims(lib, conf.key.value, token)
        case None => (Ok, TokenErased(req))
        case Some(grants) => (Ok, Authorize(TokenErased(req), Base64.Encode(grants)))
  }

  /** The handler fails only when verification is on and no key is configured. */
  lemma ErrorOnlyWithoutKey(conf: LocConf, lib: Library, req: Inbound)
    requires conf.Complete() && req.Valid()
    ensures Verified(conf, lib, req).0 == Error <==> conf.verify.value && conf.key.value == []
    ensures Verified(conf, lib, req).0 == Error ==> Verified(conf, lib, req).1 == req
  {
  }

  /** With verification off, or no token in the request, the request is left as
      it is. */
  lemma NoTokenNoChange(conf: LocConf, lib: Library, req: Inbound)
    requires conf.Complete() && req.Valid()
    requires !conf.verify.value || Source(req).None?
    ensures Verified(conf, lib, req).1 == req
  {
  }

  /** A token that does not decode, uses alg "none" or has no grants injects
      nothing: a header token is emptied and a cookie token leaves the request
      untouched. */
  lemma UntrustedInjectsNothing(conf: LocConf, lib: Library, req: Inbound)
    requires conf.Complete() && req.Valid() && conf.verify.value && conf.key.value != []
    requires Source(req).Some?
    requires var t := lib.decode(CStr(Source(req).value), conf.key.value);
             t.None? || t.value.alg == NoneAlg || lib.grantsJson(t.value).None?
    ensures var out := Verified(conf, lib, req).1;
            && out.authorization == req.authorization
            && out.cookies == req.cookies
            && |out.headers| == |req.headers|
            && (forall j :: 0 <= j < |req.headers| && Some(j) != req.authorization ==>
                  out.headers[j] == req.headers[j])
            && (req.authorization.Some? ==>
                  out.headers[req.authorization.value] == req.headers[req.authorization.value].(value := []))
            && Verified(conf, lib, req).0 == Ok
  {
  }

  /** A trusted token's claims reach the upstream: the request's authorization
      header then carries them base64-encoded, and decoding that header value
      gives back exactly the JSON libjwt produced for the token. */
  lemma TrustedClaimsForwarded(conf: LocConf, lib: Library, req: Inbound)
    requires conf.Complete() && req.Valid() && conf.verify.value && conf.key.value != []
    requires Source(req).Some? && Claims(lib, conf.key.value, Source(req).value).Some?
    ensures var out := Verified(conf, lib, req).1;
            var grants := Claims(lib, conf.key.value, Source(req).value).value;
            && Verified(conf, lib, req).0 == Ok
            && out.authorization.Some?
            && out.headers[out.authorization.value].value == Base64.Encode(grants)
            && Base64.Decode(out.headers[out.authorization.value].value) == Some(grants)
            && out.cookies == req.cookies
  {
    Base64.DecodeEncode(Claims(lib, conf.key.value, Source(req).value).value);
  }

  /** Which header carries the claims: an existing authorization header keeps
      its place and name; otherwise one `Authorization` header is appended.
      Every other header is kept. */
  lemma ClaimsHeaderPlacement(conf: LocConf, lib: Library, req: Inbound)
    requires conf.Complete() && req.Valid() && conf.verify.value && conf.key.value != []
    requires Source(req).Some? && Claims(lib, conf.key.value, Source(req).value).Some?
    ensures var out := Verified(conf, lib, req).1;
            && (req.authorization.Some? ==>
                  && out.authorization == req.authorization
                  && |out.headers| == |req.headers|
                  && out.headers[req.authorization.value].key == req.headers[req.authorization.value].key)
            && (req.authorization.None? ==>
                  && out.authorization == Some(|req.headers|)
                  && |out.headers| == |req.headers| + 1
                  && out.headers[|req.headers|].key == AuthorizationHeader)
            && (forall j :: 0 <= j < |req.headers| && Some(j) != req.authorization ==>
                  out.headers[j] == req.headers[j])
  {
  }

  /** The request object the handler updates in place. */
  class Request {
    var headers: seq<Header>
    var authorization: Option<nat>
    var cookies: seq<Cookie>

    ghost predicate Valid()
      reads this
    {
      Snapshot().Valid()
    }

    /** The request's inbound headers as a value. */
    function Snapshot(): (s: Inbound)
      reads this
      ensures s.headers == headers && s.authorization == authorization && s.cookies == cookies
    {
      Inbound(headers, authorization, cookies)
    }

    constructor(headers: seq<Header>, authorization: Option<nat>, cookies: seq<Cookie>)
      requires authorization.Some? ==> authorization.value < |headers|
      ensures Valid() && Snapshot() == Inbound(headers, authorization, cookies)
    {
      this.headers := headers;
      this.authorization := authorization;
      this.cookies := cookies;
    }

    /** The token the request carries, taken from it: a header token is
        emptied where it stands. */
    method TakeToken() returns (token: Option<seq<byte>>)
      requires Valid()
      modifies this
      ensures Valid() && token == Source(old(Snapshot()))
      ensures Snapshot() == if token.Some? then TokenErased(old(Snapshot())) else old(Snapshot())
    {
      if authorization.Some? {
        var i := authorization.value;
        token := Some(headers[i].value);
        headers := headers[i := headers[i].(value := [])];
      } else {
        token := CookieValue(cookies, AuthorizationCookie);
      }
    }

    /** Creates or overwrites the authorization header with `value`. */
    method Install(value: seq<byte>)
      requires Valid()
      modifies this
      ensures Valid() && Snapshot() == Authorize(old(Snapshot()), value)
    {
      if authorization.None? {
        headers := headers + [Header(AuthorizationHeader, value)];
        authorization := Some(|headers| - 1);
      } else {
        var i := authorization.value;
        headers := headers[i := headers[i].(value := value)];
      }
    }

    /** The access-phase handler. */
    method Handle(conf: LocConf, lib: Library) returns (rc: Rc)
      requires conf.Complete() && Valid()
      modifies this
      ensures Valid()
      ensures (rc, Snapshot()) == Verified(conf, lib, old(Snapshot()))
    {
      if !conf.verify.value {
        return Ok;
      }
      if conf.key.value == [] {
        return Error;
      }
      var token := TakeToken();
      if token.None? {
        return Ok;
      }
      var decoded := lib.decode(CStr(token.value), conf.key.value);
      if decoded.None? || decoded.value.alg == NoneAlg {
        return Ok;
      }
      var json := lib.grantsJson(decoded.value);
      if json.None? {
        return Ok;
      }
      Install(Base64.Encode(CStr(json.value)));
      rc := Ok;
    }
  }
}
