/** The libjwt calls the module makes, as opaque functions that may fail. The
    module never looks inside a token or a claim set, so these are parameters
    of the handlers rather than definitions: every property proved about the
    handlers holds for any behaviour of the library. */
module LibJwt {
  import opened Octets
  import opened Algorithms

  /** A decoded token object: its declared algorithm and its claims. */
  datatype Token = Token(alg: Alg, claims: seq<byte>)

  datatype Library = Library(
    /** `jwt_set_alg(token, alg, key, key_len)` succeeds. */
    setAlg: (Alg, seq<byte>) -> bool,
    /** `jwt_add_grants_json(token, json)` accepts the C string `json`. */
    addGrants: seq<byte> -> bool,
    /** `jwt_encode_str` on a token built from an algorithm, a key and a grants
        JSON text; None when encoding fails. */
    encode: (Alg, seq<byte>, seq<byte>) -> Option<seq<byte>>,
    /** `jwt_decode(&token, text, key, key_len)`; None when the text is not a
        token, its signature does not verify, or its encoding is unsupported. */
    decode: (seq<byte>, seq<byte>) -> Option<Token>,
    /** `jwt_get_grants_json(token, NULL)`: the claims as JSON text, or None. */
    grantsJson: Token -> Option<seq<byte>>)
}
