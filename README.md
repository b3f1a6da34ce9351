# ts-axios request core in Dafny

This project models the request path of ts-axios, a promise-based HTTP client for the
browser, and proves properties of that model. The model covers:

- **URL helpers** (`src/helpers/url.ts`):
  - the relaxed query encoder `encode`;
  - the absolute-URL test `isAbsoluteURL`;
  - the base-URL join `combineURL`;
  - the query-string builder `buildURL`.
- **Dispatcher** (`src/core/dispatchRequest.ts`):
  - the cancellation check;
  - the in-place preparation of the configuration (URL, then body, then headers);
  - the hand-over to the transport;
  - the transformation of the response body.
- **Browser transport** (`src/core/xhr.ts`):
  - the method and URL passed to `open`;
  - the in-place editing of the headers object;
  - the ordered `setRequestHeader` calls;
  - the event handlers that settle the request's promise exactly once.
- **Error record** (`src/helpers/error.ts`): the `AxiosError` record and `createError`.

Modules, one per file:

- `Js` (js.dfy):
  - JavaScript values, truthiness, and `String(v)`.
  - Objects used as ordered string-keyed maps (`Dict`), with `d[k]`, `d[k] = v` and `delete d[k]`.
  - The runtime functions the client calls without defining them, gathered in `Host`.
- `UriEncoding` (encoding.dfy): `encodeURIComponent` as section 19.2.6 of ECMA-262 defines it. It uses UTF-8 octets and upper-case `%XY` escapes. The module also models global replacement of a three-character escape.
- `Url` (url.dfy): the four URL helpers.
  - `buildURL` is a method with the source's nested loops. It is proved against the function `BuiltURL`.
- `Types` (types.dfy): the configuration, response and cancel-token objects, as classes with mutable fields.
- `Errors` (error.dfy): `AxiosError` as a datatype. Its `isAxiosError` member is the constant `true`.
- `Xhr` (xhr.dfy):
  - The `Request` class holds the opened method and URL, the headers sent, the body sent, the aborted flag and the promise state (`Pending`, `Resolved` or `Rejected`).
  - Header preparation is a sequence of edits to the configuration's headers, followed by the emission loop.
- `Dispatch` (dispatch.dfy): `dispatchRequest` and its helpers.

Inputs with no definition in the model:

- The browser state (`isURLSameOrigin`, `cookie.read`) is an input of type `Browser`.
- The runtime and helper functions are fields of `Host`:
  - `btoa`, `JSON.stringify`, `Date.prototype.toISOString`, number and date to string, `parseHeaders`, `flattenHeaders`, `transform`.
- The transport's events are method calls on `Request`:
  - `HandleLoad` (with the ready state, status, status text, raw headers and body);
  - `HandleError`, `HandleTimeout`, `OnCancel`.

The `Authorization` value is modelled exactly as the code builds it: `"Basic"` directly followed by the base64 text, with no space. Section 2 of RFC 7617 puts a space there.

## Model

| member | source | states |
|---|---|---|
| Url.Encode | src/helpers/url.ts:8-17 | `encode` equals its character-by-character reference: `@ : $ , [ ]` are kept, a space becomes `+`, and every other character is percent-encoded as `encodeURIComponent` does it |
| Url.ReplacementsRelax | src/helpers/url.ts:9-16 | the seven global replacements applied to `encodeURIComponent(s)` give the reference encoding of `s`, for every `s` |
| UriEncoding.EncodeURIComponent | src/helpers/url.ts:9 | the encoding is at least as long as its input and holds only unreserved characters and `%` |
| Url.RestoredEscape | src/helpers/url.ts:10-16 | each character `encode` puts back is escaped by `encodeURIComponent` as exactly the pattern its replacement matches |
| Url.RestoredRelaxed | src/helpers/url.ts:10-16 | each replacement's text is the reference encoding of the character it restores (`+` for the space) |
| Url.EncodeHasNoUndoneEscape | src/helpers/url.ts:8-17 | the output of `encode` contains none of `%40 %3A %24 %2C %20 %5B %5D`, in either case, at any position |
| Url.EncodeCharRelaxed | src/helpers/url.ts:9-16 | the replacement chain turns the encoding of each single character into that character's reference encoding |
| Url.UndoEscape | src/helpers/url.ts:10-16 | each of the seven replacements turns its own escape back into `@ : $ , + [ ]` and leaves the others alone |
| Url.ReplaceEachAppend | src/helpers/url.ts:10-16 | the replacement chain distributes over concatenation of escaped text, so it acts token by token |
| Url.EncodeDelimiterFree | src/helpers/url.ts:8-17 | `encode` output never contains `&` or `=` |
| UriEncoding.ReplaceAppend | src/helpers/url.ts:10-16 | one global replacement of an escape acts on escaped text token by token |
| UriEncoding.ReplaceNothing | src/helpers/url.ts:10-16 | a global replacement leaves text that has none of its escapes unchanged |
| Url.IsAbsoluteURL | src/helpers/url.ts:19-21 | a URL starting with `//` is absolute; an absolute URL starts with `//` or with an ASCII letter followed later by `:` |
| Url.IsAbsoluteURLMatches | src/helpers/url.ts:19-21 | `isAbsoluteURL(u)` holds iff `u` starts with an optional ASCII letter, then scheme characters (letters, digits, `+ - .`) and `:`, followed by `//`; letters match in either case |
| Url.SchemeEndIsFirst | src/helpers/url.ts:20 | the scheme scan stops at the first character that cannot be part of a scheme |
| Url.TrimTrailingSlashes | src/helpers/url.ts:24 | the result is a prefix, only `/` was removed, and it does not end in `/` |
| Url.TrimLeadingSlashes | src/helpers/url.ts:24 | the result is a suffix, only `/` was removed, and it does not start with `/` |
| Url.CombineURL | src/helpers/url.ts:23-25 | an empty or missing relative URL gives the base URL. Otherwise the result starts with the base up to its trailing slashes, then exactly one `/`, then a character other than `/` or nothing |
| Url.CombineURLSlashes | src/helpers/url.ts:23-25 | with a non-empty relative URL, the base without its trailing slashes and the relative URL without its leading slashes are joined by exactly one `/`; a relative URL made of slashes only gives the base followed by one `/` |
| Url.IndexOf | src/helpers/url.ts:69 | `indexOf` gives -1 iff the character is absent, otherwise its first position |
| Url.WithoutFragment | src/helpers/url.ts:69-72 | the URL is cut before its first `#`; the result has no `#` |
| Url.BuildURL | src/helpers/url.ts:27-77 | the method, with the source's loops, equals `BuiltURL` |
| Url.BuiltURL | src/helpers/url.ts:27-77 | falsy params return the URL untouched. An empty serialisation returns the URL untouched, fragment and all. Otherwise the fragment is removed, then `?` is added if the rest has no `?` (else `&`), then the serialised params |
| Url.SerializedParams | src/helpers/url.ts:34-66 | a given serializer's text is used. Otherwise URLSearchParams give their own query text. Otherwise the text is the pairs of the own properties joined with `&` |
| Url.OwnEntries | src/helpers/url.ts:41-42 | the properties `Object.keys` visits with their values: an object's own entries; an array's or a string's indices written as decimal text, each key once, with the element or the one-character string; nothing for any other value |
| Url.IndexKeys | src/helpers/url.ts:41 | index keys written as decimal text are all distinct |
| Url.Prepared | src/helpers/url.ts:56-60 | a Date or plain object becomes a string (ISO text, JSON text); any other value is unchanged; no Date or plain object is left |
| Url.EntryParts | src/helpers/url.ts:42-62 | null or undefined gives no pair; an array gives one pair per element; any other value gives one pair; every part is a `key=value` pair |
| Url.ValuePartsArePairs | src/helpers/url.ts:55-62 | every string the inner loop pushes is a `key=value` pair |
| Url.SerializeEntries | src/helpers/url.ts:39-63 | the outer `forEach` pushes exactly the pairs `Parts` gives for the properties, in key order |
| Url.PushEntry | src/helpers/url.ts:42-62 | one property pushes nothing if null or undefined. An array pushes the pairs of its elements under `key[]`. Any other value pushes the pairs of the one-element list holding it |
| Url.PushValues | src/helpers/url.ts:55-62 | the inner loop pushes exactly one `encode(key)=encode(value)` pair per value, in order. Dates go as ISO text, plain objects as JSON |
| Url.PartsSnoc | src/helpers/url.ts:41-63 | visiting one more property appends exactly its pairs |
| Url.PartsAppend | src/helpers/url.ts:41-63 | the pairs of a sequence of properties are those of its parts, in order |
| Url.AbsentValueSkipped | src/helpers/url.ts:44-46 | a null or undefined property contributes no pair, wherever it stands |
| Url.AllAbsentNoParts | src/helpers/url.ts:41-46 | properties that are all null or undefined give no pair |
| Url.EntryPartsShape | src/helpers/url.ts:47-62 | an array gives exactly one `encode(key[])=encode(value)` pair per element, in element order, and none if empty. Any other present value gives exactly one pair |
| Url.PartSplits | src/helpers/url.ts:61 | a pair has no `&`, and its first `=` separates `encode(key)` from `encode(value)` |
| Url.SerializedEmptyIffNoPairs | src/helpers/url.ts:65-68 | with neither a serializer nor URLSearchParams, the serialisation is empty iff no pair was pushed |
| Url.QuerySplitsIntoPairs | src/helpers/url.ts:65 | splitting the built-in query at `&` gives back exactly the pairs, in order |
| Url.SplitJoin | src/helpers/url.ts:65 | joining with a separator the items do not contain and splitting again is the identity |
| Errors.CreateError | src/helpers/error.ts:10-40 | `createError` returns an error whose message, config, code, request and response are its arguments, and `isAxiosError` is true. An omitted code, request or response stays undefined |
| Xhr.Request.Open | src/core/xhr.ts:10-15 | undefined data becomes null. The method defaults to `get` and is upper-cased for `open`. The URL and settings are read from the configuration. Nothing is sent yet and the promise is pending |
| Xhr.PreparedHeaders | src/core/xhr.ts:91-105 | after the edits: with credentials `Authorization` holds `Basic` and the base64 text; an added XSRF header holds the cookie unless named `Authorization`; a FormData body leaves no `Content-Type` unless the XSRF header is so named; every other header is as it was |
| Xhr.Kept | src/core/xhr.ts:107-113 | the emission loop keeps no more headers than there are |
| Xhr.WithoutFormDataType | src/core/xhr.ts:92-94 | with a FormData body, `Content-Type` is no longer a key and every other key keeps its value. Otherwise the headers are unchanged |
| Xhr.XsrfValue | src/core/xhr.ts:96-101 | the XSRF header is added iff (with credentials or same origin) and a cookie name is set and the cookie is non-empty and a header name is set. Its value is the cookie |
| Xhr.WithXsrf | src/core/xhr.ts:96-101 | when added, the XSRF header holds the cookie value and other keys are unchanged. Otherwise the headers are unchanged |
| Xhr.BasicAuthorization | src/core/xhr.ts:104 | the value is `Basic`, with no space, followed by the base64 text of `username:password` |
| Xhr.WithAuth | src/core/xhr.ts:103-105 | with credentials, `Authorization` holds that value and no other key changes. Without credentials the headers are unchanged |
| Xhr.KeptMembers | src/core/xhr.ts:107-113 | a header is kept (and sent) iff it is a property and not (no body and its lower-cased name is `content-type`). With a body, all are kept |
| Xhr.KeptAppend | src/core/xhr.ts:107-113 | the headers sent keep the key order |
| Xhr.KeptDistinct | src/core/xhr.ts:107-113 | every header is sent at most once |
| Xhr.EmitHeaders | src/core/xhr.ts:107-113 | the loop over a snapshot of the keys leaves exactly the kept headers in the object and sends exactly the kept headers, in order, with their values |
| Xhr.Request.ProcessHeaders | src/core/xhr.ts:91-114 | the headers object ends as the kept subset of the prepared headers. The prepared headers are: FormData type removed, then XSRF, then Authorization. The sent headers are extended by the same sequence |
| Xhr.FormDataSendsNoContentType | src/core/xhr.ts:92-94 | with a FormData body, no `Content-Type` header is sent, unless the XSRF header itself is named so |
| Xhr.AuthorizationSent | src/core/xhr.ts:103-113 | with credentials, the `Authorization` header is among those sent |
| Xhr.Request.Outcome | src/core/xhr.ts:127-133 | resolve iff `validateStatus` is absent or accepts the status. Otherwise reject with `Request failed with status code <status>`, code null, the request and the response |
| Xhr.Request.HandleResponse | src/core/xhr.ts:127-133 | the promise takes that outcome unless already settled |
| Xhr.Request.HandleLoad | src/core/xhr.ts:50-72 | nothing happens unless ready state is 4 and status is not 0. Otherwise a fresh response is built (body from `responseText` iff the response type is `text`, parsed headers, this config and request) and handled |
| Xhr.Request.NetworkError | src/core/xhr.ts:74-76 | message `Network error`, code null, the request, no response |
| Xhr.Request.TimeoutText | src/core/xhr.ts:79 | `undefined` when not set; otherwise the canonical decimal text of the timeout (no leading zero), which reads back as the timeout |
| Js.NatToStringValue | src/core/xhr.ts:79 | the decimal text of a whole number reads back as that number |
| Js.NatToStringInjective | src/core/xhr.ts:131 | distinct whole numbers have distinct decimal texts |
| Xhr.Request.TimeoutError | src/core/xhr.ts:78-80 | message `Timeout of <timeout> ms exceeded`, code `ECONNABORTED`, the request, no response |
| Xhr.Request.HandleError | src/core/xhr.ts:74-76 | a pending promise is rejected with the network error; a settled one is unchanged |
| Xhr.Request.HandleTimeout | src/core/xhr.ts:78-80 | a pending promise is rejected with the timeout error; a settled one is unchanged |
| Xhr.Request.OnCancel | src/core/xhr.ts:116-124 | with a token that has a reason, the request is aborted and a pending promise is rejected with the reason itself, not an error. Without a token nothing happens |
| Xhr.Settle | src/core/xhr.ts:9 | a resolve or reject call settles a pending promise with its outcome and leaves a settled one unchanged |
| Xhr.SettleAllIsFirst | src/core/xhr.ts:9 | a promise settles once: after any series of resolve/reject calls it holds the first settling outcome, and a settled promise never changes |
| Xhr.Request.Send | src/core/xhr.ts:25 | the body sent is the request's data (null when the configuration had none) |
| Xhr.Xhr | src/core/xhr.ts:8-26 | opening, then header preparation, then `send`. The result has the opened method and URL, the kept headers sent and also left in `config.headers`, the body sent, and a pending promise |
| Dispatch.TargetURL | src/core/dispatchRequest.ts:24-27 | with a base URL and a relative URL the two are combined. With an absolute URL or no base URL, the URL is used as is |
| Dispatch.TargetURLJoins | src/core/dispatchRequest.ts:25-26 | a base URL and a non-absolute relative URL are joined by exactly one `/`, whatever slashes end the base and with at most one slash leading the relative URL |
| Dispatch.ProtocolRelativeKept | src/core/dispatchRequest.ts:25 | a URL starting with `//` is absolute, so it is used as is, whatever the base URL |
| Dispatch.TransformURL | src/core/dispatchRequest.ts:23-29 | the result is `buildURL` of the target URL with the configuration's params and serializer |
| Dispatch.ThrowIfCancellationRequested | src/core/dispatchRequest.ts:36-40 | without a token nothing is thrown. With a token, its reason is thrown if it has one |
| Js.Truthy | src/helpers/url.ts:28 | undefined and null are falsy; a string is truthy iff non-empty; arrays, objects, dates, FormData and URLSearchParams are truthy |
| Js.ToJsString | src/helpers/url.ts:61 | a string converts to itself; an empty array to the empty string; an array of strings to its elements joined with `,` |
| Dispatch.ProcessConfig | src/core/dispatchRequest.ts:16-21 | only `url`, `data` and `headers` change. The URL is built. The body is transformed with the headers as they were. Then the headers are flattened with the method |
| Dispatch.TransformResponseData | src/core/dispatchRequest.ts:31-34 | only the response's `data` changes, transformed with its headers and the response transformers; the same object is returned |
| Dispatch.DispatchRequest | src/core/dispatchRequest.ts:7-13 | a token already cancelled throws its reason before the configuration changes and before any request exists. Otherwise the configuration is processed and a request is opened and sent for the processed URL, body and headers |
| Dispatch.Completion | src/core/dispatchRequest.ts:10-12 | a resolved request has its response body transformed; a rejection passes through |

## Left out

- The XMLHttpRequest wiring is not modelled. This covers the `responseType`, `timeout` and `withCredentials` assignments and the progress callbacks (src/core/xhr.ts:28-40, 82-88). These are transport settings with no effect on what the client computes.
- Real asynchrony is not modelled. Settlement is a one-shot state change driven by calls to the handler methods.
- The internals of `CancelToken` and `Cancel` are not part of this model. A token is a reason that is either present or absent, and `throwIfRequested` throws the reason when present.
- The following are inputs without a definition, fields of `Host` or `Browser`. They are not part of this model:
  - `isURLSameOrigin` and `resolveURl` (src/helpers/url.ts:79-95);
  - `cookie.read`, `btoa`, `parseHeaders`, `flattenHeaders`, `transform`;
  - `JSON.stringify`, `Date.prototype.toISOString`, `Date.prototype.toString`, `Number.prototype.toString`.
- The instance factory, `mergeConfig` defaults and `Promise.all`/`spread` (src/axios.ts) are not modelled. Neither are the JSON helpers (src/helpers/data.ts). They are outside the request core.
- Transformers that mutate the headers object they receive are not modelled. A transformer is a function from body and headers to body.
- Numbers: the status in the rejection message (src/core/xhr.ts:131) and the timeout (src/core/xhr.ts:79) are whole numbers written by `NatToString`. Any other number's text (`String(n)` on a `params` value) is the `Host` function `numberToString`. NaN is not modelled.
- Xhr.Request.TimeoutText: the timeout is whole milliseconds (`Option<nat>`). Fractional timeouts, and the exponent notation JavaScript uses for numbers of 10^21 and more, are not modelled.
- Js.Put: a new key is appended last. JavaScript lists integer-like keys (such as `"0"`) before the other keys, in numeric order, and the model does not. This matters for the order of `setRequestHeader` calls (src/core/xhr.ts:107) only when a header name is integer-like.
- `toUpperCase` and `toLowerCase` are modelled on ASCII letters only. HTTP method names and header names are ASCII.
- `btoa` throws on non-Latin-1 input, which is not modelled.
- `request.open` throws for a method name that is not a token (src/core/xhr.ts:15). `setRequestHeader` throws for an invalid header name or value (src/core/xhr.ts:111). Neither exception is modelled.
- Xhr.Kept: its own contract gives only the length bound; `KeptMembers`, `KeptAppend` and `KeptDistinct` state which headers are kept, in what order, and that none repeats.
- The characters of a string-valued `params` are indexed by code point, not by UTF-16 code unit. Likewise `encodeURIComponent` cannot meet a lone surrogate.
- A configuration is modelled with a `url` always set. The source asserts `url!` itself.
- Where the source reads a value through `config`, the model reads the value each field holds:
  - the `isDate`, `isPlainObject`, `isURLSearchParams` and `isFormData` checks are the constructors of `JsValue`;
  - `validateStatus` is a function from status to boolean.
- Xhr.Request.OnCancel: the callback is a method run by the caller once the token has its reason; the subscription to the token's promise (src/core/xhr.ts:119) and when it fires are not modelled.
- Xhr.FormDataSendsNoContentType: stated only for an XSRF header name other than `Content-Type`, since an XSRF header of that name is sent.
