# nginx-jwt: a Dafny model

This project models the nginx JWT module (`ngx_http_jwt_module.c`). The module does two jobs.

- **Issuing.** When `jwt_issue` is on, the header and body filters collect a `200` response body into a bounded buffer. Once the last buffer has arrived, they replace the body with a JSON Web Token. libjwt signs that token over the collected JSON text, using the configured `jwt_issue_algorithm` and `jwt_key`.
- **Verifying.** When `jwt_verify` is on, an access-phase handler reads a token from the `Authorization` request header, or failing that from the `authorization` cookie. It decodes the token with libjwt under the configured key. When the token verifies and its algorithm is not "none", the handler writes the token's claims, base64-encoded, into the request's `Authorization` header for the upstream to read. A token taken from the header is erased in every case.

The modules follow the program's structure:

- `Octets`: bytes, ASCII case folding and the C-string view of a buffer.
- `Base64`: padded base64 as in section 4 of RFC 4648, with a decoder as its inverse.
- `Algorithms`: the `jwt_issue_algorithm` table.
- `Config`: the location configuration and its merge.
- `LibJwt`: the libjwt calls. They are parameters, so every result holds for any behaviour of the library.
- `Accumulator`: the per-request context. It is a class with its `length`, its lazily allocated `body` array and its cursor `last`. The incoming chain is a class too. It holds every buffer's memory, `last_buf` flag and `pos`, and the filter advances the positions. The copying loop is proved against the function `Absorbed`.
- `Issue`: the header filter and the body filter.
- `Verify`: the verify handler. It is a `Request` class whose header list and `headers_in.authorization` position the handler updates in place, proved against the function `Verified`.

Where the buffer-size documentation and the code differ, the model follows the code:

- A response of unknown (chunked) length is refused once it reaches `jwt_issue_buffer_size` bytes. This holds for the corrected bound check; with a buffer size of 0 the code as written accepts everything (see Findings). The capacity is `jwt_issue_buffer_size`, and one byte of it is kept for the NUL written before the body goes to libjwt. So at most `jwt_issue_buffer_size - 1` bytes are accepted.
- A declared length is accepted up to `jwt_issue_buffer_size` itself.

`Issue.BufferSizeBoundary` states both.

## Model

| member | source | states |
|---|---|---|
| Config.MergeDefaults | ngx_http_jwt_module.c:128-156 | a location and parent that set nothing merge to an empty key, issuing and verifying off, HS512, a 1 MiB (1048576) buffer |
| Config.MergeSettings | ngx_http_jwt_module.c:144-156 | each of the five settings comes from the child if set, else from the parent if set, else from its default |
| Config.NestedSettings | ngx_http_jwt_module.c:144-156 | through any depth of nested scopes merged top-down, each setting is the innermost one set, or the default when no scope sets it |
| Config.MergeKeepsCompleteChild | ngx_http_jwt_module.c:144-156 | a location that sets every directive itself is what merging returns |
| Config.Merge | ngx_http_jwt_module.c:144-156 | the merged configuration has every setting set |
| Config.MergeValue | ngx_http_jwt_module.c:148-153 | one `ngx_conf_merge_*_value`: the result is always set, a value set in the child is kept, and an unset one becomes the parent's value or the default |
| Config.Nested | ngx_http_jwt_module.c:144-156 | one scope is its own configuration; two or more scopes merged top-down have every setting set |
| Algorithms.Find | ngx_http_jwt_module.c:36-48 | the scan of the table finds a value exactly when some row's name equals it up to ASCII case, and then returns that row's algorithm |
| Algorithms.Lookup | ngx_http_jwt_module.c:36-48 | a `jwt_issue_algorithm` value selects an algorithm exactly when some table row's name equals it up to ASCII case |
| Algorithms.LookupName | ngx_http_jwt_module.c:36-48 | every algorithm is selected by its own table name, spelt in any case |
| Algorithms.LookupSound | ngx_http_jwt_module.c:36-48 | a value selects an algorithm only if it is that algorithm's name up to case |
| Algorithms.NamesApart | ngx_http_jwt_module.c:36-48 | no value matches two rows of the table |
| Algorithms.LookupEmpty | ngx_http_jwt_module.c:47 | the table's empty end marker selects nothing |
| Issue.DecideHeader | ngx_http_jwt_module.c:205-240 | issuing off passes the headers on; a declared length above zero and above the buffer size is refused with 413; otherwise headers are held and a capacity between 1 and buffer size + 1 is chosen for a declared length |
| Issue.HeaderFilter | ngx_http_jwt_module.c:205-240 | the filter's decision is DecideHeader's; a 413 or pass-through leaves any context untouched and creates none; otherwise the context is created or reused, holds nothing, and has the chosen capacity |
| Issue.BodyLimit | ngx_http_jwt_module.c:230-237 | the most body bytes accepted is one less than the capacity the header filter chooses, since one byte is kept for the NUL |
| Issue.AcceptsUpToLimit | ngx_http_jwt_module.c:213-286 | once the header filter has sized the context, a body is taken in full exactly when its length is at most the declared length, or at most buffer size - 1 when chunked, however it is split into buffers |
| Issue.BufferSizeBoundary | ngx_http_jwt_module.c:233-278 | a body of exactly `jwt_issue_buffer_size` bytes is accepted with a declared length and refused when chunked |
| Accumulator.Absorbed | ngx_http_jwt_module.c:272-286 | the loop over the chain as a function: it copies at most every buffer, stops early exactly on a refused buffer, and keeps the bytes already held as a prefix of the result |
| Accumulator.FitsAsWritten | ngx_http_jwt_module.c:278 | the bound check as written, with `length - 1` reduced modulo the `size_t` range (a definition; FitsAgreesWithWrittenCheck and ZeroCapacityWrapsAround state its properties) |
| Accumulator.Fits | ngx_http_jwt_module.c:278 | the bound check as intended: the buffer and the NUL fit in what is left of the capacity (a definition; FitsAgreesWithWrittenCheck relates it to the check as written) |
| Accumulator.AbsorbedAppendsPrefix | ngx_http_jwt_module.c:272-286 | offering a chain appends, in order and exactly, the buffers before the first one that does not fit; the refused one and the rest are not copied; whatever was accepted leaves room for the NUL |
| Accumulator.AbsorbedAcceptsIffFits | ngx_http_jwt_module.c:272-286 | a chain is accepted in full iff the bytes held, all its bytes and the NUL fit in the capacity |
| Accumulator.AbsorbedSplit | ngx_http_jwt_module.c:261-289 | a body delivered over several filter calls accumulates as if it came in one chain |
| Accumulator.Context.Absorb | ngx_http_jwt_module.c:261-289 | allocates the body buffer on the first call only; then the new contents, the consumed `pos` of every buffer and the outcome (413, wait for more, complete on `last_buf`) are those of Absorbed |
| Accumulator.Context.Collect | ngx_http_jwt_module.c:269-289 | the copying loop: each buffer is checked against the capacity before it is copied; a refused buffer stops the loop with the earlier ones copied and consumed |
| Accumulator.Context.Take | ngx_http_jwt_module.c:284-285 | copies a buffer's pending bytes at the cursor, advances the cursor by their number and consumes that buffer alone |
| Accumulator.Plan | ngx_http_jwt_module.c:272-286 | the loop's course: after each accepted buffer the accumulator holds the earlier contents plus that buffer, each accepted buffer fitted when offered, and the first refused one did not |
| Accumulator.Copy | ngx_http_jwt_module.c:284 | the bytes are written at the offset; the bytes before the offset and after the copy are kept |
| Accumulator.Context.Terminate | ngx_http_jwt_module.c:309 | the NUL write is in bounds and does not change the bytes collected, nor the C string libjwt reads |
| Accumulator.FitsAgreesWithWrittenCheck | ngx_http_jwt_module.c:278 | with a capacity of at least one byte, the bound check as written and the corrected one agree |
| Accumulator.ZeroCapacityWrapsAround | ngx_http_jwt_module.c:278 | with a capacity of zero the check as written lets any non-empty buffer through and the corrected one refuses it |
| Issue.Sign | ngx_http_jwt_module.c:300-332 | a token is produced exactly when `jwt_set_alg` accepts the algorithm and key, `jwt_add_grants_json` accepts the body as a C string and `jwt_encode_str` succeeds; the token then is the string `jwt_encode_str` returned, up to its first NUL as `strlen` measures it |
| Issue.Finish | ngx_http_jwt_module.c:300-325 | the completion step's outcome is Sign of the collected body, and the collected bytes are unchanged |
| Issue.BodyFilter | ngx_http_jwt_module.c:242-354 | passes the chain on untouched iff issuing is off, the chain is NULL or the status is not 200; without a context it fails and leaves the chain untouched; the capacity never changes; otherwise the body buffer is allocated on first use or kept, and the filter follows Absorbed: 413 on overflow, nothing sent without `last_buf`, and on completion either a failure or one fresh `last_buf` buffer holding Sign's token with `content_length_n` set to its length |
| Verify.CookieValue | ngx_http_jwt_module.c:377-384 | the `authorization` cookie is the first cookie whose name matches up to case; none when no cookie matches |
| Verify.Source | ngx_http_jwt_module.c:371-388 | with an authorization header the token is that header's value; otherwise the token is the first cookie named `authorization` up to case, if any, and there is none exactly when no cookie has that name |
| Verify.Claims | ngx_http_jwt_module.c:389-422 | claims are trusted exactly when the NUL-terminated token decodes under the key, its algorithm is not "none" and libjwt renders its grants; they then are that JSON as a C string |
| Verify.TokenErased | ngx_http_jwt_module.c:374 | taking a header token empties that header's value and keeps its key; the authorization position, the cookies and every other header are kept |
| Verify.Authorize | ngx_http_jwt_module.c:432-444 | afterwards the request's authorization header holds the value; an existing one keeps its place and key, otherwise one `Authorization` header is appended; cookies and all other headers are kept |
| Verify.Verified | ngx_http_jwt_module.c:356-448 | the whole handler as a function: the request stays valid, the cookies are never touched, the header list never gets shorter, every header other than the authorization header is kept as it was, and an error leaves the request unchanged |
| Verify.ErrorOnlyWithoutKey | ngx_http_jwt_module.c:356-367 | the handler fails iff verifying is on and the key is empty, and then changes nothing |
| Verify.NoTokenNoChange | ngx_http_jwt_module.c:357-384 | with verifying off, or neither header nor cookie present, the request is unchanged |
| Verify.UntrustedInjectsNothing | ngx_http_jwt_module.c:369-419 | a token that does not decode, uses alg "none" or has no grants injects no claims: the handler returns `NGX_OK`, a header token's value is erased while its key is kept, and the request is otherwise unchanged |
| Verify.TrustedClaimsForwarded | ngx_http_jwt_module.c:420-447 | a trusted token leaves the request's authorization header holding the base64 of its claims, which decodes back to exactly those claims |
| Verify.ClaimsHeaderPlacement | ngx_http_jwt_module.c:432-444 | an existing authorization header is overwritten in place; otherwise one `Authorization` header is appended and becomes the request's authorization header; all other headers are kept |
| Verify.Request.Handle | ngx_http_jwt_module.c:356-448 | the handler's return code and the request it leaves are Verified of the request it was given |
| Verify.Request.TakeToken | ngx_http_jwt_module.c:369-388 | the token is the header's value if there is one, else the cookie's; a header is erased where it stands |
| Verify.Request.Install | ngx_http_jwt_module.c:432-444 | the claims header is created or overwritten, as Authorize states |
| Base64.DecodeEncode | ngx_http_jwt_module.c:422-430 | decoding undoes the padded base64 encoding applied to the claims |
| Base64.Encode | ngx_http_jwt_module.c:424-430 | `ngx_encode_base64` of the claims; the encoding is exactly as long as `ngx_base64_encoded_length` reserves |
| Octets.CStrTerminated | ngx_http_jwt_module.c:309-310 | writing a NUL after a buffer does not change the C string read from it |

## Left out

- Reading `jwt_key_file` from disk is file I/O and is not modelled. Neither is directive registration, nor installing the filters and the handler.
- libjwt is not modelled inside. Its calls are parameters of the handlers, so every property holds for any library behaviour. A `jwt_new` failure is represented by `setAlg` returning false: both end in `NGX_ERROR` before the NUL write at `ngx_http_jwt_module.c:309`.
- `ngx_encode_base64` belongs to nginx core. It is modelled as padded base64 per section 4 of RFC 4648. `Base64.Decode` exists only as its inverse.
- Allocation failures are not modelled: `ngx_pcalloc`, `ngx_palloc`, `malloc`, `ngx_list_push`, `ngx_pool_cleanup_add`, `ngx_alloc_chain_link` and `ngx_calloc_buf` always succeed.
- The calls into the next header and body filters are not modelled. So the handling of their return codes and of `header_only` is out. The pass-through and the issued token are results of the model instead.
- Logging is not modelled, and neither is freeing memory with its acknowledged leaks. Token expiry is not implemented by the source.
- Cookie header parsing (`ngx_http_parse_multi_header_lines`, nginx core) is not part of this model. Cookies arrive already split into name and value pairs, and the first case-insensitive name match is taken.
- The comparison nginx's enum directive handler uses belongs to nginx core. It is taken to be ASCII case-insensitive equality.
- Issue.HeaderFilter: requires that an existing context has no body buffer yet. A buffer can already exist only when the body filter has answered 413 and nginx runs the header filters again for the error response. That response's status is not 200, so the body filter forwards it, and resetting `ctx->length` at `ngx_http_jwt_module.c:236` without reallocating the buffer is then harmless.
- Issue.HeaderFilter: requires `content_length_n >= -1`. These are the values nginx sets: -1 for unknown, otherwise the length.
- Issue.HeaderFilter: the `(off_t)` cast of a buffer size above 2^63 is not modelled.
- Issue.BodyFilter: the chain is one `Accumulator.Chain` object holding each link's buffer. So an `ngx_buf_t` shared by two links is not modelled. Only in-memory buffers are modelled, so file-backed buffers are out.
- Accumulator.Context.Absorb: `pos + size` is not reduced modulo the `size_t` range. No buffer in memory can make it wrap.
- Accumulator.Context.Absorb: uses the corrected bound check `Fits` rather than the one as written (see Findings).
- Accumulator.Absorbed, Issue.AcceptsUpToLimit, Issue.BufferSizeBoundary: state the behaviour of the corrected check `Fits`. With `jwt_issue_buffer_size 0` and a chunked response, the code as written accepts every buffer instead (see Findings).

## Findings

| source | as written | input that shows it | evidently intended | confidence | as-written member | corrected member |
|---|---|---|---|---|---|---|
| ngx_http_jwt_module.c:278 | `pos + size > ctx->length - 1` computes `length - 1` in `size_t`, so a capacity of 0 wraps to the largest `size_t` | `jwt_issue_buffer_size 0` with a chunked 200 response: `ctx->length` is 0, the pool buffer has 0 bytes, and any non-empty buffer passes the check and is copied into it | refuse every non-empty buffer with 413 whenever it and the NUL do not fit: `pos + size < length` | not executed | Accumulator.ZeroCapacityWrapsAround | Accumulator.Fits, Accumulator.AbsorbedAppendsPrefix, Accumulator.Context.Terminate |
