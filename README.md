# OpenSSL FIPS provider bootstrap and bounded string helpers, in Dafny

This project models two small, sequential parts of OpenSSL and proves what
they promise.

- **`crypto/o_str.c`**: the bounded string and byte helpers.
  - `OPENSSL_memcmp` compares two buffers.
  - `OPENSSL_strnlen` is a length scan capped at `maxlen`.
  - `OPENSSL_strlcpy` and `OPENSSL_strlcat` copy and append BSD-style with truncation.
  - `OPENSSL_hexchar2int` decodes one hexadecimal digit.
- **`providers/fips/fipsprov.c`**: the bootstrap of the FIPS provider.
  - The external entry point `OSSL_provider_init`. It resolves the core's functions from a zero-terminated dispatch table, creates the library context and runs the known-answer self-test. When no context can be created it returns 0 at once. Otherwise it either publishes its dispatch table and context, or frees the context and fails.
  - The recursive entry point `fips_intern_provider_init`.
  - The algorithm query `fips_query`.
  - The parameter introspection `fips_get_param_types` and `fips_get_params`.
  - The module's static tables.

Files:

- `wrappers.dfy`: `Option`.
- `ostr.dfy`, module `OStr`.
  - A C string is a `seq<byte>` that holds a NUL.
  - A destination `char *` is an `array<byte>` plus the offset `d` it points at.
  - `strlcpy` and `strlcat` are methods that write the array in place. They are proved against the function `CopyImage`, which gives the buffer's contents after the call. The lemmas `CopyImageString` and `CatImageString` state, in string terms, what that image holds.
- `dispatch.dfy`, module `Dispatch`.
  - The `OSSL_DISPATCH` entries, with symbolic function ids.
  - The resolver as a fold `BindAll` over a run of entries.
  - The lemmas about the resolver's outcome.
- `fipsprov.dfy`, module `FipsProv`.
  - The module statics are the fields of the class `FipsModule`.
  - `OSSL_provider_init` is the method `FipsModule.ProviderInit`. Its resolver loop is proved against `BindAll`.
  - The caller's `*out`/`*provctx` are the fields of `InitOutputs`.
  - `OPENSSL_CTX` is the class `LibCtx`, which counts its frees.
  - `fips_query` writes the caller's `no_cache` variable, a `Flag`.
  - `fips_get_params` writes the caller's array of slots. It is proved against the function `FillKeys`, whose lemmas give the outcome.

Two details of the resolver:

- **Repeated ids.** The `switch` assigns the binding every time the id appears, so the last entry before the terminator wins (`Dispatch.BindAllLastWins`).
- **`c_OPENSSL_cleanse`.** It is declared (providers/fips/fipsprov.c:41) but no `case` binds it. `FipsModule.cleanse` starts NULL and `ProviderInit` leaves it unchanged.

## Model

| member | source | states |
|---|---|---|
| OStr.Memcmp | crypto/o_str.c:16-25 | returns 0 exactly when the first `n` bytes of the two buffers are equal, so 0 when `n == 0`; otherwise returns `c1[i] - c2[i]`, as unsigned bytes, at an index `i < n` where the two first differ |
| OStr.FirstDifferenceUnique | crypto/o_str.c:21-24 | the first differing index is unique, so the non-zero result of `Memcmp` is determined |
| OStr.StrLen | crypto/o_str.c:45 | `strlen`: the index of the first NUL, which is before the end and preceded by no NUL |
| OStr.Strnlen | crypto/o_str.c:27-34 | result is at most `maxlen` and at most the buffer length; no NUL before it; a result below `maxlen` is at a NUL; for a C string it equals `min(maxlen, strlen)` |
| OStr.Strlcpy | crypto/o_str.c:36-46 | returns `strlen(src)` whatever `size` is; the buffer afterwards is `CopyImage` of the buffer before |
| OStr.StrlcpyWithin | crypto/o_str.c:36-46 | with `src` inside the destination's own buffer after `dst`, the case openssl_strerror_r relies on: returns the original `strlen(src)`, and the buffer afterwards is the copy image of the original `src` |
| OStr.CopyLoopDone | crypto/o_str.c:39-44 | once the loop has written `min(size-1, strlen(src))` bytes of `src` and the NUL after them, and nothing else, the buffer is the copy image |
| OStr.CopyImage | crypto/o_str.c:38-45 | the buffer after strlcpy has the same length, and no byte outside the `size` bytes at `dst` changes |
| OStr.CopyImageString | crypto/o_str.c:38-45 | when `size >= 1`, the first `min(size-1, strlen(src))` bytes of `src` are written at `dst`, followed by a NUL inside the `size` bytes; the copy is complete exactly when `strlen(src) < size`; no byte before `dst` or past the terminator changes |
| OStr.CopyImageAt | crypto/o_str.c:39-44 | the byte the copy leaves at each index: source byte, terminator or the old byte |
| OStr.StrLenSuffix | crypto/o_str.c:45 | skipping `l` non-NUL bytes of a string leaves a string `l` bytes shorter, so `l + strlen(src)` after the copy loop is the length of the original `src` |
| OStr.Strlcat | crypto/o_str.c:48-54 | with no NUL in the first `size` bytes of `dst`: writes nothing and returns `size + strlen(src)`; otherwise returns `strlen(dst) + strlen(src)`, measured on the original `dst`, and the buffer is the copy of `src` at `dst`'s NUL with the remaining room |
| OStr.CatImageString | crypto/o_str.c:48-54 | after an append into a string of length `n`: the result is NUL-terminated inside `size` bytes; its length is `min(size-1, n + strlen(src))`; it is that prefix of `dst + src`; it is complete exactly when `n + strlen(src) < size` |
| OStr.CatImageAt | crypto/o_str.c:50-53 | the byte an append leaves at each index of the `size` bytes |
| OStr.HexCharToInt | crypto/o_str.c:56-97 | result in [-1, 15]; -1 exactly for non-hex bytes; `'0'..'9'` map to 0..9, and both `'a'..'f'` and `'A'..'F'` map to 10..15 |
| OStr.HexDigitRoundTrip | crypto/o_str.c:62-96 | decoding the lower-case or the upper-case digit of a nibble gives the nibble back |
| OStr.HexCharToIntInverse | crypto/o_str.c:62-96 | every byte that decodes is the lower-case or the upper-case digit of its value |
| Dispatch.TerminatorIndex | providers/fips/fipsprov.c:154 | the scan's extent: the first entry whose id is 0, with none before it |
| Dispatch.BindEntry | providers/fips/fipsprov.c:155-213 | one step of the `switch`: an entry with a recognised id makes its function the binding of that id; every other binding, and every binding for an unrecognised id, is unchanged |
| Dispatch.BindAll | providers/fips/fipsprov.c:154-214 | the resolver over a run of entries never removes a binding |
| Dispatch.BindAllSnoc | providers/fips/fipsprov.c:154-214 | resolving one more entry is one more step of the `switch` |
| Dispatch.BindAllLastWins | providers/fips/fipsprov.c:155-209 | each recognised id overwrites its binding, so a core function is bound to the last entry for it; a function no entry names keeps its old binding |
| Dispatch.BindAllKeys | providers/fips/fipsprov.c:154-214 | exactly the core functions named by recognised entries become bound, besides those already bound |
| Dispatch.BindAllOnlyRecognised | providers/fips/fipsprov.c:210-212 | the bindings depend only on the entries with recognised ids |
| Dispatch.BindAllIgnoresUnrecognised | providers/fips/fipsprov.c:210-212 | inserting or removing an entry whose id is not recognised leaves the bindings unchanged |
| Dispatch.ScanStopsAtTerminator | providers/fips/fipsprov.c:154 | two tables that agree up to and including the first zero id resolve to the same bindings, whatever follows |
| FipsProv.FipsModule.constructor | providers/fips/fipsprov.c:25-41 | all module bindings, `c_OPENSSL_cleanse` included, start NULL |
| FipsProv.FipsModule.ProviderInit | providers/fips/fipsprov.c:147-232 | the bindings become those of the entries before the terminator; `c_OPENSSL_cleanse` is unchanged; when context creation fails: returns 0, no context, `*out` and `*provctx` unwritten; when the self-test fails: returns 0, the new context freed exactly once, `*out` and `*provctx` unwritten; otherwise returns 1 with `*out` the FIPS dispatch table and `*provctx` the new, unfreed context |
| FipsProv.LibCtx.constructor | providers/fips/fipsprov.c:216 | a context that `OPENSSL_CTX_new` yields has not been released |
| FipsProv.LibCtx.Free | providers/fips/fipsprov.c:225 | each call of `OPENSSL_CTX_free` is one more release of the context |
| FipsProv.SelfTestVectors | providers/fips/fipsprov.c:56-61 | the self-test digests the 12 bytes of "Hello World!" without its NUL and expects 32 digest bytes |
| FipsProv.DummyEvpCall | providers/fips/fipsprov.c:52-83 | passes exactly when the SHA-256 pipeline yields a digest of `"Hello World!"` equal in length and bytes to the embedded one |
| FipsProv.FipsDispatchTableOffers | providers/fips/fipsprov.c:128-138 | the external table offers exactly teardown, get-param-types, get-params and query-operation, then its terminator at index 4 |
| FipsProv.InternDispatchTableOffers | providers/fips/fipsprov.c:141-144 | the internal table offers the query alone, then its terminator at index 1 |
| FipsProv.InternProviderInit | providers/fips/fipsprov.c:246-253 | always returns 1; `*out` becomes the query-only table; `*provctx` is untouched |
| FipsProv.DigestTableListsSha256 | providers/fips/fipsprov.c:110-113 | the digest table lists one algorithm, `"SHA256"` with property `"fips=yes"` and the SHA-256 functions, then its sentinel |
| FipsProv.Query | providers/fips/fipsprov.c:115-125 | always sets `*no_cache` to 0; returns the digest table (`"SHA256"`/`"fips=yes"`, then the sentinel) for the digest operation and NULL for every other |
| FipsProv.ParamTypesAdvertiseAnswers | providers/fips/fipsprov.c:44-49 | `fips_param_types` lists, in order, each key `fips_get_params` answers, typed as a UTF-8 pointer, then its sentinel |
| FipsProv.GetParamTypes | providers/fips/fipsprov.c:85-88 | the returned list advertises, as UTF-8 pointers, exactly the keys `fips_get_params` answers, in its order, then the sentinel |
| FipsProv.LocateFrom | providers/fips/fipsprov.c:95 | finds the first slot at or after a position that carries the key, or reports that none does |
| FipsProv.SetUtf8Ptr | providers/fips/fipsprov.c:96-102 | the set succeeds exactly when the slot is a UTF-8 pointer, and then the slot keeps its key and type and holds the value |
| FipsProv.Locate | providers/fips/fipsprov.c:95 | `OSSL_PARAM_locate`: the first slot with the key, or none |
| FipsProv.FillKeys | providers/fips/fipsprov.c:95-103 | answering keys never changes the number of slots, nor any slot's key or type |
| FipsProv.GetParams | providers/fips/fipsprov.c:90-106 | the result and the slots afterwards are those of answering name, version and build information in that order |
| FipsProv.FillKeysShape | providers/fips/fipsprov.c:95-103 | a slot whose key is not answered is never touched |
| FipsProv.FillKeysSucceeds | providers/fips/fipsprov.c:95-105 | the call succeeds exactly when no supplied slot of an answered key refuses a UTF-8 pointer; absent keys are skipped |
| FipsProv.FillKeysStopsAtRefusal | providers/fips/fipsprov.c:95-103 | at the first refused key the call fails; the slots are those left by the keys before it, and later keys are left unset |
| FipsProv.FillKeysAnswers | providers/fips/fipsprov.c:95-103 | on success, with distinct keys, the located slot of each answered key holds its value |
| FipsProv.GetParamsSucceeds | providers/fips/fipsprov.c:90-106 | `fips_get_params` returns 1 exactly when none of the name, version and build-information slots the caller supplied refuses a UTF-8 pointer |
| FipsProv.GetParamsAnswers | providers/fips/fipsprov.c:90-106 | on success, the name slot holds "OpenSSL FIPS Provider", the version slot the version, and the build-information slot the full version; slots with other keys are never touched |
| FipsProv.AdvertisedTypesAccepted | providers/fips/fipsprov.c:44-49 | a caller whose slots use the types `fips_param_types` advertises always gets 1 from `fips_get_params` |

## Left out

- `openssl_strerror_r` (crypto/o_str.c:99-145): a libc wrapper chosen by the preprocessor for each platform.
- The EBCDIC translation in `OPENSSL_hexchar2int` (crypto/o_str.c:58-60): a build-time character-set switch. The model decodes ASCII only.
- OStr.Memcmp: the contract does not state that no byte past the first difference is read. The loop does stop there, but reads of a `seq` are not observable in the contract.
- OStr.Strlcpy, OStr.Strlcat: `src` is a separate value from the destination buffer. For `strlcpy`, a `src` inside the buffer after `dst` is defined, and openssl_strerror_r relies on it (crypto/o_str.c:114-122); `OStr.StrlcpyWithin` covers that case. A `src` that starts before `dst` in the same buffer, and any overlap in `strlcat`, are not modelled. `size_t` is an unbounded `nat`, with no wrap-around.
- `strlen` is the C library's. It is modelled by the function `OStr.StrLen` on a buffer that holds a NUL.
- Function ids are symbolic constructors. Their numbers come from `core_numbers.h`, which is not part of this model. A recognised id `OSSL_FUNC_CORE_X` binds `c_X` by construction of the map key. Function pointers are opaque tokens, and casting and the `OSSL_DISPATCH` layout are not modelled.
- `Unrecognised(code)` stands only for a non-zero id that no `case` names, and `OtherOperation(code)` only for an operation id other than `OSSL_OP_DIGEST`'s. The numbers are not modelled, so the types do not exclude a code that equals a named id or 0.
- A recognised entry that carries a NULL pointer leaves its function bound to `Null`, which `Dispatch.Lookup` reports as `Some(Null)`, while a function never named reports `None`. C reads both as NULL.
- The allocator and error shims (providers/fips/fipsprov.c:255-352). They are one-line calls through the bound host pointers, with no logic of their own.
- The SHA-256 computation and the EVP calls in `dummy_evp_call` (providers/fips/fipsprov.c:54-74). They are a parameter `evpDigest`: the digest the pipeline yields for a message, or `None` when any step fails. Only the length-and-bytes check of line 75 is modelled. That line calls the C library's `memcmp`; the model uses `OStr.Memcmp`, which agrees with it on whether the result is zero.
- `OPENSSL_CTX_new` is a boolean parameter: whether it yields a context.
- The body of `OPENSSL_CTX_free`, which is also the teardown function, is not part of this model. `LibCtx.Free` counts releases only, so teardown of a NULL context is not modelled.
- `OSSL_PARAM_locate` and `OSSL_PARAM_set_utf8_ptr` are not part of this model.
  - Locate returns the first slot with the key.
  - The set fails, writing nothing, exactly when the slot's type is not a UTF-8 pointer.
  - The slot array's end is its length rather than a NULL-key terminator.
- The parameter keys `"name"`, `"version"` and `"buildinfo"` stand for `OSSL_PROV_PARAM_NAME`, `OSSL_PROV_PARAM_VERSION` and `OSSL_PROV_PARAM_BUILDINFO` from `core_names.h`, which is not part of this model. `FipsProv.GetParamsAnswers` relies on the three keys being distinct.
- `OPENSSL_VERSION_STR` and `OPENSSL_FULL_VERSION_STR` are build-time strings, passed to `GetParams` as parameters.
- The provider handle `prov`/`provider` that every function ignores, and the `in` table that `fips_intern_provider_init` ignores. `InternProviderInit` keeps `in` as a parameter it does not read.
- Concurrency on the module statics: the code has no locking and is modelled as single-threaded.
