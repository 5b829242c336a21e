# FlickrAPI request signing, in Dafny

This project models how the Go package `FlickrAPI` (file `flickr.go`) builds a signed call to the Flickr REST API:

- `Request.sign` signs the request's parameter map in place. It drops a stale `api_sig` and puts in `api_key` and `method`. It collects and sorts the keys, then concatenates the secret with `key + value` for every non-empty value. It takes `api_key` and `method` out again and stores the lower-case hexadecimal MD5 digest under `api_sig`.
- `Request.url` puts `api_key` and `method` back into the map and renders it after the REST endpoint. `encodeQuery` builds the query string.
- `Connection.execute` creates the HTTP client lazily and refuses a request without key or method. Otherwise it performs the GET.
- `PhotosSearch` and `PhotosGetSizes` run sign, then url, then execute on the caller's own query map.

The files:

- `order.dfy` (module `StringOrder`): ascending string order and the reference `Sort`. `SortStrings` is `sort.Strings` as an in-place sort of an `array<string>`. `SortedKeys` is the ascending order of a key set.
- `hex.dfy` (module `Digests`): bytes, 16-byte digests, and `%x` (`Hex`) with its inverse.
- `query.dfy` (module `Query`):
  - `EncodeQuery` is the loop of `encodeQuery`.
  - `QueryString` is its value for a given visiting order.
  - `ParseQuery` reads a query string back.
- `signing.dfy` (module `Signing`): what `sign` computes, stated on map values. This covers `SigningString`, `Signature`, `Signed` and `Sent`, with the properties of each.
- `flickr.dfy` (module `Flickr`): the imperative model.
  - `StringMap` is a Go map shared by reference. `Request.args` is the caller's own map object, so the caller sees every change `sign` and `url` make.
  - `Request.Sign` and `Request.Url` update that map.
  - `Connection` carries a nullable `client` field that `Execute` sets.

MD5, `url.QueryEscape` and the HTTP round trip are parameters of the operations: `md5: string -> Digest`, `escape: string -> string` and `roundTrip: string -> Outcome`. Go's map iteration order is unspecified. The model picks each next key with `:|` and returns the order it used as a ghost out-parameter. Every statement about the result holds for whichever order was taken.

Two behaviours of the code are modelled as written.

- **Padding slots in the key slice.** `sign` sizes its key slice as `len(args) + 2` before it inserts `api_key` and `method`. For each of those two keys the caller had already supplied, one slot keeps Go's zero value `""`. Blanks sort first, and each one contributes the value stored under the key `""`, if that value is non-empty.
  - `SigningString` includes that term (`Repeat(Lookup(m, ""), BlankSlots(args))`).
  - `NoBlankClash` states when the term is empty.
  - `SigningStringIsCanonical`, `SignIdempotent` and `ServerRecomputesSignature` hold under `NoBlankClash`.
  - `BlankClashChangesSignature` shows a map for which signing twice hashes different strings.
- **No client reuse through the wrappers.** `PhotosSearch` and `PhotosGetSizes` take the connection by value (`self Connection`). The lazy client creation in `execute` therefore happens on a copy, and the caller's `Client` field stays as it was. One could read the connection as creating its client once and reusing it; the code does not do that. `Connection.Call` copies the connection before executing, and the wrappers do not modify the connection.

## Model

| member | source | states |
|---|---|---|
| StringOrder.SortStrings | flickr.go:54 | `sort.Strings` leaves the slice sorted and a permutation of its old contents, equal to the reference `Sort` of them |
| StringOrder.SortSorts | flickr.go:54 | the reference sort yields a sorted permutation of its input |
| StringOrder.SortedUnique | flickr.go:48-54 | two sorted sequences holding the same keys are equal, so the signing order is fixed by the keys alone |
| StringOrder.SortWithBlanks | flickr.go:43-54 | sorting the padded key slice puts its blank slots first, then the keys in ascending order |
| Digests.Hex | flickr.go:75 | `%x` gives two lower-case hexadecimal digits per byte |
| Digests.HexRoundTrip | flickr.go:75 | the bytes can be read back from their `%x` rendering |
| Digests.HexInjective | flickr.go:75 | distinct digests give distinct `api_sig` values |
| Query.EncodeQuery | flickr.go:78-89 | the result is the `k=escape(v)` pairs of the map, joined by `&` in some order that visits each key exactly once; an empty map gives "" |
| Query.QueryShape | flickr.go:78-89 | when keys and escaped values hold no `&`, a map of n entries gives n-1 separators, none leading or trailing |
| Query.QueryRoundTrip | flickr.go:78-89 | when keys hold no `&`/`=` and escaped values no `&`, reading the query string back yields every entry exactly once with its escaped value, whatever the visiting order |
| Signing.SignedParamsSize | flickr.go:43-46 | the key slice has room for every signed key plus one blank slot per `api_key`/`method` the caller had already supplied |
| Signing.Signature | flickr.go:70-75 | `api_sig` is `%x` of an MD5 digest: exactly 32 lower-case hexadecimal characters |
| Signing.Signed | flickr.go:37-76 | after signing, the map holds `api_sig` (32 hexadecimal digits), holds neither `api_key` nor `method`, and every other entry is as it was |
| Signing.SignedSteps | flickr.go:64-75 | the signed map is the signed parameter set less the two temporary keys, with `%x` of the MD5 of the signing string stored under `api_sig` |
| Signing.SigningStringOfSlice | flickr.go:56-62 | the secret followed by the contributions of the sorted padded key slice is the signing string |
| Signing.SigningStringIsCanonical | flickr.go:43-62 | when the blank slots contribute nothing, the signed string is the secret followed by `key + value` of the signed parameter set, ascending by key, empty values skipped |
| Signing.CanonicalInAscendingOrder | flickr.go:56-62 | the canonical serialization is the concatenation over any sorted enumeration of the keys |
| Signing.CanonicalAddEmpty | flickr.go:59 | a key with an empty value adds nothing to the canonical serialization |
| Signing.EmptyValueIgnored | flickr.go:59 | adding a parameter other than `api_key` or `method` (which `sign` overwrites) with value "" signs the same string, and gives the same `api_sig`, as leaving it out |
| Signing.SignIdempotent | flickr.go:41 | when the blank slots contribute nothing (`NoBlankClash`), signing an already signed map gives the same map, because the stale `api_sig` is dropped first |
| Signing.CanonicalValueMatters | flickr.go:56-62 | two different values under one key give different canonical serializations |
| Signing.ParamValueMatters | flickr.go:43-62 | for every parameter other than `api_sig`, `api_key` and `method`, two different values (one possibly "") give different signed strings; this includes the key "", whose value is also signed once per blank slot |
| Signing.BlankKeyValueMatters | flickr.go:43-62 | two different values under the key "" give different signed strings, blank slots included |
| Signing.ApiKeyMatters | flickr.go:45-62 | two different API keys give different signed strings |
| Signing.MethodMatters | flickr.go:46-62 | two different method names give different signed strings |
| Signing.BlankClashChangesSignature | flickr.go:43-62 | with a non-empty value under "" and a caller-supplied `method`, signing twice hashes different strings |
| Signing.SentIsSigned | flickr.go:91-96 | after sign and url, the map sent less `api_sig` is exactly the parameter set that was signed, and the `api_sig` sent is the computed signature |
| Signing.ServerRecomputesSignature | flickr.go:37-96 | when the blank slots contribute nothing, the `api_sig` sent equals `%x` of the MD5 of the secret and the canonical serialization of the other parameters sent |
| Signing.CanonicalOfThree | flickr.go:56-62 | a three-key map serializes as its three contributions in ascending key order |
| Signing.ExampleParams | flickr.go:41-46 | `{foo: bar}` signed with key `abc` and method `flickr.test` has the parameter set `{api_key: abc, foo: bar, method: flickr.test}` and no blank slots |
| Signing.ExampleCanonical | flickr.go:56-62 | `{api_key: abc, foo: bar, method: flickr.test}` serializes as `api_keyabcfoobarmethodflickr.test` |
| Signing.SigningStringExample | flickr.go:56-62 | the string signed for `{foo: bar}`, key `abc`, method `flickr.test`, secret `xyz` is `xyzapi_keyabcfoobarmethodflickr.test` |
| Signing.SigningStringAmbiguous | flickr.go:60 | concatenating key and value without a separator signs `{a: bc}` and `{ab: c}` with the same string |
| Flickr.Deliver | flickr.go:118-124 | a delivered body is returned as the result, a transport error as the error |
| Flickr.FillKeys | flickr.go:49-53 | the first `|m|` slots of the slice hold each key once, in map iteration order, and the remaining slots stay "" |
| Flickr.SortedKeySlice | flickr.go:43-54 | the filled and sorted slice is the blank slots followed by the keys in ascending order |
| Flickr.Concatenate | flickr.go:57-62 | the accumulated string is the secret followed by `key + value` for every slot, in slice order, whose value is non-empty |
| Flickr.Request.Sign | flickr.go:37-76 | the request's map becomes exactly `Signed` of its old contents |
| Flickr.Request.Url | flickr.go:91-96 | the map gains `api_key` and `method`; the URL is the endpoint followed by the query string of the whole map in some order that visits each key once |
| Flickr.Connection.Execute | flickr.go:109-124 | the client is non-null afterwards, even on the error path, and is created only when it was null. Without a key or method the result is the error "Need both API key and method" and the map is untouched. Otherwise the map gains `api_key`/`method` and the result is what the GET of the request URL delivered |
| Flickr.Connection.Call | flickr.go:158-166 | sign, then execute on a copy of the connection: the caller's map becomes the sent map, or only the signed one when the key is empty, and the result is that of the GET of its URL |
| Flickr.Connection.PhotosSearch | flickr.go:158-172 | `flickr.photos.search`: the caller's query map is mutated into the sent, signed map, and the result is that of the GET of its URL |
| Flickr.Connection.PhotosGetSizes | flickr.go:198-213 | `flickr.photos.getSizes`: the same, for that method |

## Left out

- HTTP transport (`http.NewRequest`, `Client.Do`, `ioutil.ReadAll`, closing the body) is the parameter `roundTrip`, which maps a URL to a body or a transport error. A failure of `ioutil.ReadAll` is ignored by the code and is not modelled.
- Flickr.Connection.Execute: does not model the panic on an unparsable URL. `execute` discards the error of `http.NewRequest`. Keys are not escaped, so a caller key holding a control character makes the URL unparsable. The code then calls `Client.Do` with a nil request, which panics. The model instead hands every URL to `roundTrip`.
- XML decoding into `PhotosSearchResponse`/`PhotosGetSizesResponse` and the response structs `Photo`, `Photos`, `Size` and `Sizes` are not modelled. `PhotosSearch` and `PhotosGetSizes` return the body that would be decoded, so an error from `xml.Unmarshal` does not appear.
- MD5 (RFC 1321) is an uninterpreted function to 16 bytes; its internals are not modelled.
- `url.QueryEscape` is an uninterpreted function. The query-string properties hold when its results contain no `&`.
- The concrete iteration order of Go maps is left nondeterministic.
- Thread safety of the lazy client initialisation and concurrent use of a shared map are not modelled.
- A nil `query` map is not modelled. Go panics when `sign` writes to a nil map, and here `StringMap` references are never null.
- `Error.Error` is the `message` field of `Result.Err`. The wrappers' `error` return value is `Result`.
- Strings are sequences of Unicode characters rather than bytes. Comparing characters in order gives the same order as Go's byte-wise comparison of UTF-8 strings.
