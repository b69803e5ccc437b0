# A Dafny model of the proxy hook, config store, socket client, codec and logger

This project models the logic of a small SvelteKit front end:

- the server hook that forwards every request under `/api/proxy` to an upstream API at a fixed base URL;
- the backend-configuration store with its two persistence backends, a `config.json` file on the server and a `localStorage` entry in the browser;
- the socket.io client singleton and its append-only message store;
- the string compression pipeline: UTF-8, then gzip, then a binary string, then base 64, and back;
- the interface picker `getLocalIPAddress`;
- the timestamped log-line format.

Everything is immutable data and pure functions, except `getLocalStorageSize` and `getLocalIPAddress`, which are methods with loops. I/O, the clock, the network, gzip and JSON are parameters.

Files, one module each:

| file | module | models |
|---|---|---|
| `wrappers.dfy` | `Wrappers` | `Option` and `Result`, usable with `:-` |
| `bytes.dfy` | `Bytes` | the `byte` type |
| `text.dfy` | `Text` | `String(n)` for integers and its inverse; UTF-16 length; first index of a character |
| `url.dfy` | `Urls` | `new URL(ref, base)`: the reference-resolution algorithm of section 5.2 of RFC 3986, with the WHATWG rules for special schemes that the hook can reach |
| `proxy_hook.dfy` | `ProxyHook` | `handle` of `src/hooks.server.js` |
| `config_store.dfy` | `ConfigStore` | `src/lib/stores/configStore.js` |
| `socket_client.dfy` | `SocketClient` | `src/lib/socket.js` |
| `utf8.dfy` | `Utf8` | UTF-8 as defined in RFC 3629 |
| `base64.dfy` | `Base64` | `btoa` and `atob`: section 4 of RFC 4648, read back with the WHATWG forgiving-base64 decoder |
| `utilities.dfy` | `Utilities` | `compressString`, `decompressString`, `getLocalIPAddress` |
| `logger.dfy` | `Logger` | `createLogger`'s line format, `formatDate`, `pad` |

The proxy hook:
- A request whose pathname starts with the raw text `/api/proxy` is forwarded; any other request goes to `resolve(event)`.
- The target is the pathname with its first `/api/proxy` replaced by nothing, resolved against `http://192.168.1.6:3000`, with the inbound query pairs appended in order.
- `fetch` and `resolve` are function parameters. A `fetch` that throws is the `FetchThrew` outcome.
- `new URL` sits outside the `try` block. When it throws, the hook itself rejects (`HookThrew`).
- `new Response(...)` sits inside the `try` block. When it throws on the upstream status or body, the result is the fixed 500 answer.

The config store:
- The backend is one optional string: the file's content, or the `backendConfig` entry. `None` means the file does not exist or the entry is absent.
- Fault flags say whether a read or a write throws during a call.
- `JSON.parse` and `JSON.stringify` are an abstract `Codec`. The proofs assume only the `Lawful` predicate: both renderings of a `Canonical` value parse back, and `""` does not parse. A canonical value is one that stands for a JavaScript value: safe-integer numbers, and objects with distinct keys in JavaScript's enumeration order.
- The store keeps every value the Svelte writable announced, so that subscribers can be reasoned about.

The socket client:
- A handle is an identifier with the URL and options it was opened with.
- Inbound events are values. What the module emits is recorded in a log.

In the compression pipeline, gzip is a pair of functions. The round-trip lemma assumes only that inflating what was deflated gives it back. The text comes back through `TextDecoder`, which drops a leading byte order mark, so the round trip returns the input less a leading U+FEFF. The model decodes the inflated bytes in one decoder call, which matches the library when the UTF-8 text is at most 64 KiB (see "## Left out").

In the logger, the calendar fields of the `Date` are inputs, and a small parser reads a line back. The formatting properties are of two kinds: read-backs, where parsing the formatted text recovers the fields (`PadReadsBack`, `TickReadsBack`, `FormatDateReadsBack`, `LogLineReadsBack`), and facts about the text's width, layout and characters (`PadWidth`, `FieldWidths`, `StampLayout`, `YearIsNotPadded`, `TimestampChars`).

## Behaviour worth noting

- The upstream base is the literal `http://192.168.1.6:3000` in `src/hooks.server.js:10`. Nothing in the configuration store affects it.
- An absolute URL written after the prefix stays on the upstream host only when a `/` separates the two. `/api/proxy/https://example.com/search` has the remainder `/https://example.com/search`, which is a rooted path, so the request goes to `http://192.168.1.6:3000/https://example.com/search` (`ProxyHook.AbsoluteUrlInPathStaysUpstream`).
- Without that `/`, the request leaves the upstream. `/api/proxyhttps://example.com/x` has the remainder `https://example.com/x`, an absolute URL, so `fetch` goes to `example.com`. `/api/proxyhttp://example.com/x` goes there too: a reference with the base's own scheme is read as the network path `//example.com/x` (`ProxyHook.SchemeRemainderLeavesUpstream`). A remainder `//host/...` does the same (`ProxyHook.NetworkPathLeavesUpstream`).
- The prefix test is on raw text. `/api/proxyX` is forwarded to `/X`, and `/api/proxy%2e` to the upstream root (`ProxyHook.PrefixIsNotSegmentAware`, `ProxyHook.DotLeafIsRoot`).
- `configStore.set` validates nothing. A browser `setItem` that throws rejects the call. A failed server write is only logged.
- `update` gives its updater the initialisation result (`await initializationPromise`), not the current value, so two updates do not compose (`ConfigStore.UpdatesDoNotCompose`).
- The default configuration has the keys `apiBaseUrl`, `websocketUrl` and `fileServer`.
- The upstream `statusText` is not relayed, because the response is rebuilt from status, headers and body only.
- Some errors escape the hook as a rejection instead of the 500 answer: a remainder such as `//` gives `new URL` an empty host, and that call is outside the `try` (`ProxyHook.SlashesOnlyRejects`).
- `sendMessage` throws whenever there is no current handle, including after `disconnectSocket`.
- `decompressString(compressString(s))` loses a leading U+FEFF (`Utilities.LeadingBomIsLost`).

## Model

| member | source | states |
|---|---|---|
| ProxyHook.Handle | src/hooks.server.js:1-47 | The request is passed through exactly when its pathname does not start with `/api/proxy`, and then the result is `resolve(event)`. A forwarded request carries the inbound query, the outbound options built from the request, and the relay of what `fetch` answered for that target and those options. Apart from passthrough and forwarding, the only outcome is a rejection because the target URL could not be built. |
| ProxyHook.FindText | src/hooks.server.js:9 | `String.replace` with a string pattern acts on the first occurrence. The position found holds the pattern, no earlier position does, and `None` means no position does. |
| ProxyHook.ReplacePrefixDropsIt | src/hooks.server.js:6-9 | For a pathname that starts with `/api/proxy`, the replacement removes exactly that leading prefix. |
| ProxyHook.ReplaceFirst | src/hooks.server.js:9 | `pathname.replace('/api/proxy', '')` replaces the first occurrence only. The position comes from `FindText`, and `ReplacePrefixDropsIt` states the result for a prefixed pathname. |
| ProxyHook.AppendEach | src/hooks.server.js:14-16 | Appending the inbound pairs one by one leaves the existing query followed by every inbound pair, in order, repeats kept. |
| ProxyHook.TargetOfPrefixed | src/hooks.server.js:8-16 | The target of a prefixed pathname is the remainder after the prefix, resolved against the base, with exactly the inbound query. The target fails exactly when that resolution fails. |
| ProxyHook.TargetUrl | src/hooks.server.js:8-16 | The target URL. `TargetOfPrefixed` states it: the remainder resolved against the base, carrying exactly the inbound query, and failing exactly when `new URL` throws. |
| ProxyHook.HandleOfPrefixed | src/hooks.server.js:6-16 | A prefixed request is forwarded to the resolved remainder carrying the inbound query, or rejected with the URL parser's error. |
| ProxyHook.OutboundOptions | src/hooks.server.js:20-29 | Method and headers are copied verbatim. A body is attached iff the method is neither GET nor HEAD and the request has one, and it is the request's body. `duplex` is `'half'` iff a body is attached, and absent otherwise. |
| ProxyHook.Relay | src/hooks.server.js:31-42 | A response `new Response` accepts keeps the upstream status, headers and body. Every thrown `fetch`, and every status or body the constructor rejects, gives the fixed 500 `Proxy error` answer. The status text is always empty. |
| ProxyHook.ForwardedResponse | src/hooks.server.js:31-42 | For a forwarded request, a thrown fetch gives the 500 answer. An upstream answer with status 200..599 keeps its status and headers, and keeps its body when the status allows one. |
| ProxyHook.EmptyRemainderIsRoot | src/hooks.server.js:8-11 | The pathname `/api/proxy` itself is forwarded to `http://192.168.1.6:3000/`, not rejected. |
| ProxyHook.PrefixIsNotSegmentAware | src/hooks.server.js:6-11 | The prefix test is on raw text. `/api/proxyX` is forwarded to `/X` on the upstream, for any single segment `X` that has no `:` and is not a dot segment, plain or percent-encoded. |
| ProxyHook.DotLeafIsRoot | src/hooks.server.js:6-11 | When what follows `/api/proxy` is a dot segment such as `.`, `%2e`, `..` or `.%2E`, the request is forwarded to the upstream root `/` with the inbound query. |
| ProxyHook.DotSegmentResolvesToRoot | src/hooks.server.js:8-11 | `new URL` of a single dot segment, plain or percent-encoded in either case, against the base is the base's root. |
| ProxyHook.BareLeafResolves | src/hooks.server.js:8-11 | A single segment without `:` that is not a dot segment, plain or percent-encoded, resolves to that segment under the base's root. |
| ProxyHook.RootedRemainderStaysUpstream | src/hooks.server.js:8-11 | A remainder starting with exactly one `/` stays on `192.168.1.6:3000`, with its dot segments removed, including the percent-encoded ones. A remainder with no such segments is forwarded as written. |
| ProxyHook.AbsoluteUrlInPathStaysUpstream | src/hooks.server.js:8-11 | An absolute URL written after the prefix and a `/` stays on the upstream host, with that whole text as the path. |
| ProxyHook.SchemeRemainderLeavesUpstream | src/hooks.server.js:8-11 | An absolute URL with a special scheme written straight after the prefix, with no `/` between, sends the request to the host it names, including when its scheme is `http` like the base's. |
| ProxyHook.NetworkPathLeavesUpstream | src/hooks.server.js:8-11 | A remainder `//host/...` is a network-path reference, and the request is sent to `host` instead of the upstream. |
| ProxyHook.SlashesOnlyRejects | src/hooks.server.js:8-11 | A remainder of two or more slashes and nothing else makes `new URL` throw before the `try`, so the hook rejects. |
| ProxyHook.SlashesOnlyFail | src/hooks.server.js:8-11 | Resolving only slashes against the base fails, because the host is empty. |
| Urls.SplitScheme | src/hooks.server.js:8-11 | A scheme that is found is non-empty and starts with a letter. It is followed by `:`, and the rest is everything after that colon. |
| Urls.Split | src/hooks.server.js:8-11 | Splitting at slashes gives at least one segment, and no segment contains a slash. |
| Urls.JoinSplit | src/hooks.server.js:8-11 | Joining the segments of a path gives back the path, behind a leading slash. |
| Urls.SplitJoin | src/hooks.server.js:8-11 | Splitting joined slash-free segments gives back the segments. |
| Urls.NormalizeFrom | src/hooks.server.js:8-11 | Dot-segment processing, as in section 5.2.4 of RFC 3986 with the WHATWG percent-encoded dot forms, introduces no dot segment and no slash inside a segment. A non-empty input leaves at least one segment. |
| Urls.NormalizeDotFree | src/hooks.server.js:8-11 | Segments that are none of `.`, `..` or their percent-encoded forms (`%2e`, `.%2e`, `%2e.`, `%2e%2e`, in either case) pass through dot-segment removal unchanged. |
| Urls.RemoveDotSegments | src/hooks.server.js:8-11 | The result of dot-segment removal on a rooted path is again a rooted path. |
| Urls.RemoveDotSegmentsKeepsCleanPath | src/hooks.server.js:8-11 | A rooted path without dot segments is its own normal form. |
| Urls.RemoveDotSegmentsIsClean | src/hooks.server.js:8-11 | The normal form contains no dot segment. |
| Urls.RemoveDotSegmentsIdempotent | src/hooks.server.js:8-11 | Removing dot segments twice is the same as removing them once. |
| Urls.Directory | src/hooks.server.js:8-11 | The merge base is a prefix of the base path that ends in `/`. It is non-empty for a rooted path. |
| Urls.DropSlashes | src/hooks.server.js:8-11 | The special-scheme parser keeps a suffix of the input that does not start with `/`. |
| Urls.AuthorityEnd | src/hooks.server.js:8-11 | The authority is the slash-free text up to the first `/`. |
| Urls.WithHost | src/hooks.server.js:8-11 | A special-scheme URL fails exactly when its host is empty. |
| Urls.ResolveRelative | src/hooks.server.js:8-11 | A scheme-less reference keeps the base's scheme. `""` is the base itself. A rooted path keeps the base authority, with dots removed. A relative path is merged with the base directory. |
| Urls.Resolve | src/hooks.server.js:8-11 | A reference without a scheme resolves relative to the base. A reference with the base's scheme resolves what follows its colon relative to the base. A reference with another special scheme takes its host from what follows the colon and its slashes, and fails when that host is empty. A reference with a non-special scheme is read generically. A successful resolution has no query unless it is the base itself. |
| Urls.SchemeReferenceHost | src/hooks.server.js:8-11 | `scheme://host/...` with a special scheme resolves to a URL whose authority is `host`, whether or not the scheme is the base's. |
| Urls.NetworkPathHost | src/hooks.server.js:8-11 | A reference `//host` followed by a rooted or empty tail takes `host` as its authority. |
| ConfigStore.Publish | src/lib/stores/configStore.js:12 | The writable's `set` makes `v` the value, leaves the backend untouched, and announces `v` unless nothing changed. Afterwards subscribers have heard the current value last. |
| ConfigStore.InitializeServer | src/lib/stores/configStore.js:27-51 | A file that reads and parses sets the value and is returned. A missing file is created with the pretty default when the write succeeds, and the default is returned with the value untouched. A throwing read or a parse error returns the default and changes nothing. Any result other than the default came from the file. |
| ConfigStore.InitializeBrowser | src/lib/stores/configStore.js:54-69 | A non-empty stored entry that parses sets the value and is returned. An absent or empty entry, a throwing read or a parse error returns the default and changes nothing. The storage entry is never written. |
| ConfigStore.Boot | src/lib/stores/configStore.js:5-15 | The writable is created with the default and announces it first. After loading, the value equals the initialisation result. |
| ConfigStore.Set | src/lib/stores/configStore.js:81-98 | `set(v)` fails exactly in the browser when the storage write throws, and then nothing changes. Otherwise the value becomes `v` without validation. The browser entry holds `stringify(v)`. The server file holds the pretty `v`, or is unchanged when the write failed. |
| ConfigStore.Update | src/lib/stores/configStore.js:99-104 | `update(f)` fails exactly when setting `f(init)` fails. Otherwise the store is exactly what `set(f(init))` leaves, persisted copy included. It applies `f` to the initialisation result, not to the current value, and returns the result. |
| ConfigStore.Reload | src/lib/stores/configStore.js:108-111 | `reload()` keeps the initialisation result. Any result other than the default was parsed from storage. A readable, non-empty stored text that parses is the result and the new value. A throwing read or a parse error changes nothing. With nothing stored, the result is the default and the value stays as it was. Storage is left as it was, except that on the server a missing file is created holding the pretty-printed default unless that write throws. |
| ConfigStore.Initialize | src/lib/stores/configStore.js:72-76 | Initialisation on the current backend. It has the same read-from-storage guarantees as `reload()`, and keeps the backend kind and the recorded initialisation result. Storage is left as it was, except that on the server a missing file is created holding the pretty-printed default unless that write throws. |
| ConfigStore.WaitForInit | src/lib/stores/configStore.js:106 | `waitForInit()`. `WaitForInitIsStable` states that it yields the boot-time initialisation result after any calls. |
| ConfigStore.WaitForInitIsStable | src/lib/stores/configStore.js:72-106 | After any sequence of `set`, `update` and `reload` calls, `waitForInit` still yields the boot-time initialisation result. |
| ConfigStore.SubscribersSeeCurrentValue | src/lib/stores/configStore.js:12 | After loading and any sequence of calls, the last value announced to subscribers is the current value. |
| ConfigStore.UpdatesDoNotCompose | src/lib/stores/configStore.js:99-104 | After two successful updates, both the value and the second result are `second(init)`, so the first update is lost. |
| ConfigStore.RenderingIsNotEmpty | src/lib/stores/configStore.js:57-58 | A rendering of a canonical value that parses back is never `""`, which the browser would read as absent. |
| ConfigStore.SetThenReload | src/lib/stores/configStore.js:81-111 | On either backend, once `set(v)` has persisted a canonical `v`, a `reload()` without read faults returns `v` and leaves `v` as the value. |
| ConfigStore.UpdateThenReload | src/lib/stores/configStore.js:99-111 | On either backend, once `update(f)` has persisted a canonical `f(init)`, a `reload()` without read faults returns `f(init)` and leaves it as the value. |
| ConfigStore.ReloadWithNothingStored | src/lib/stores/configStore.js:108-111 | With nothing stored, `reload()` returns the default and leaves the value as it was. |
| ConfigStore.LocalStorageSize | src/lib/stores/configStore.js:116-130 | The total is the sum over entries of key length plus value length in UTF-16 units, and 0 when `localStorage` is missing. It lies between the code-point count and twice it. |
| ConfigStore.StorageSizeBounds | src/lib/stores/configStore.js:123 | The UTF-16 total of all keys and values lies between their code-point count and twice it. |
| SocketClient.GetSocket | src/lib/socket.js:23-68 | An existing handle is returned unchanged whatever the URL. Otherwise a handle to `url` is opened with reconnection on, unbounded attempts, delay 1000, maximum delay 5000 and timeout 10000, and it is new. Messages and emissions are untouched. |
| SocketClient.GetSocketIsIdempotent | src/lib/socket.js:23-67 | A second `getSocket`, with any URL, returns the first call's handle and changes nothing. |
| SocketClient.DisconnectSocket | src/lib/socket.js:70-76 | The current handle, if any, is closed and forgotten. With no handle, nothing changes. |
| SocketClient.DisconnectThenGetIsFresh | src/lib/socket.js:70-76 | After a disconnect, `getSocket` opens a handle to the new URL that differs from every closed handle. |
| SocketClient.SendMessage | src/lib/socket.js:117-120 | It throws exactly when there is no handle. Otherwise it emits `m` on the `message` channel of the current handle and changes nothing else. |
| SocketClient.Receive | src/lib/socket.js:35-64 | A `message` event appends its payload at the end of `messages`. Every other event leaves the state unchanged. |
| SocketClient.ReceiveAll | src/lib/socket.js:35-64 | A run of events keeps the handle and the emission log. |
| SocketClient.MessagesAreAppendOnly | src/lib/socket.js:44-47 | While a handle is open, `messages` becomes the earlier messages followed by every `message` payload in arrival order. No other event adds to it. |
| SocketClient.Notify | src/lib/socket.js:13-18 | The subscription callback stores the announced value and changes nothing else. |
| SocketClient.NotifyAllKeepsLast | src/lib/socket.js:13-18 | After a run of announcements, the mirror holds the last one. |
| SocketClient.MirrorFollowsStore | src/lib/socket.js:13-18 | Whenever it subscribed, the module's `config` equals the store's current value. |
| Utilities.BinaryString | src/lib/utilities.js:13 | `String.fromCharCode(...bytes)` has one character per byte, and that byte is its code. |
| Utilities.CharCodes | src/lib/utilities.js:23 | Storing `charCodeAt(0)` in a `Uint8Array` keeps each code modulo 256, one byte per character. |
| Utilities.CharCodesOfBinaryString | src/lib/utilities.js:13-23 | Bytes to binary string to bytes is the identity, and every character code is below 256. |
| Utilities.Btoa | src/lib/utilities.js:13 | `btoa` succeeds exactly on strings of codes below 256. Its output decodes to those codes. |
| Utilities.Atob | src/lib/utilities.js:20 | `atob` succeeds exactly when the base 64 decoding succeeds, and yields a binary string. |
| Utilities.CompressString | src/lib/utilities.js:4-14 | The output length is a multiple of 4, it uses only the RFC 4648 alphabet and `=`, and it decodes to the gzip of the UTF-8 bytes. |
| Utilities.DecompressString | src/lib/utilities.js:16-33 | A base 64 error is rethrown. Input that is not gzip is an error. Success means both steps succeeded, and the text is one `TextDecoder` decoding of all the inflated bytes. There is no fallback value. |
| Utilities.DecompressCompress | src/lib/utilities.js:4-33 | For every string, decompressing its compression gives it back less a leading U+FEFF, when ungzip inverts gzip and the text is decoded in one call. That is pako's behaviour for UTF-8 text of at most 64 KiB. |
| Utilities.DecompressCompressWithoutBom | src/lib/utilities.js:4-33 | A string that does not start with U+FEFF comes back unchanged, under single-call decoding. |
| Utilities.LeadingBomIsLost | src/lib/utilities.js:4-33 | A string that starts with U+FEFF comes back without it, under single-call decoding. |
| Utilities.FirstExternal | src/lib/utilities.js:47-53 | Returns the first position whose interface is IPv4 and not internal, or `None` when there is none. |
| Utilities.GetLocalIPAddress | src/lib/utilities.js:45-55 | The address of the first external IPv4 interface, by name and then by position, or `127.0.0.1` when there is none. |
| Utf8.EncodeChar | src/lib/utilities.js:7 | A scalar value takes one to four bytes: one exactly below U+0080, then continuation bytes. |
| Utf8.Encode | src/lib/utilities.js:7 | `new TextEncoder().encode(input)`. `DecodeEncode` and `EncodeIsInjective` state that it loses nothing, and `EncodeStartsWithBom` says when it begins with EF BB BF. |
| Utf8.DecodeOneOfEncodeChar | src/lib/utilities.js:7 | Decoding the head of an encoded character gives that character and consumes all of its bytes. |
| Utf8.DecodeEncode | src/lib/utilities.js:7 | Plain UTF-8 decoding, with no byte-order-mark handling, inverts `TextEncoder.encode` on every string. |
| Utf8.Decode | src/lib/utilities.js:26 | UTF-8 decoding with replacement of malformed bytes. `DecodeEncode` states that it inverts encoding. |
| Utf8.TextDecode | src/lib/utilities.js:26 | One `TextDecoder.decode` call, as `pako.ungzip(…, { to: 'string' })` makes for each output chunk: leading bytes EF BB BF are consumed, and the rest is decoded. |
| Utf8.EncodeStartsWithBom | src/lib/utilities.js:7-26 | An encoding starts with EF BB BF exactly when the string starts with U+FEFF. |
| Utf8.TextDecodeEncode | src/lib/utilities.js:7-26 | `TextDecoder` after `TextEncoder` gives the string back less a leading U+FEFF. |
| Utf8.EncodeIsInjective | src/lib/utilities.js:7 | Distinct strings have distinct encodings. |
| Base64.ValueOf | src/lib/utilities.js:20 | The value of an alphabet character is the one Table 1 of RFC 4648 maps to it. |
| Base64.EncodeDigits | src/lib/utilities.js:13 | The unpadded encoding uses only the alphabet. Its length is four per whole group plus one more than the bytes of a final partial group. |
| Base64.DigitCountClosedForm | src/lib/utilities.js:13 | The unpadded length is `4*(n/3)`, plus `n%3+1` when a partial group is left. |
| Base64.PaddingCompletes | src/lib/utilities.js:13 | The padding brings the length to a multiple of four, and the digits alone never leave one character over. |
| Base64.PaddingClosedForm | src/lib/utilities.js:13 | Two `=` follow a final single byte, one a final pair, and none follow whole groups. |
| Base64.Encode | src/lib/utilities.js:13 | The `btoa` output length is a multiple of four, with only alphabet characters and `=`. |
| Base64.EncodeLength | src/lib/utilities.js:13 | Four characters for every started group of three bytes. |
| Base64.PaddingOnlyAtEnd | src/lib/utilities.js:13 | Any `=` is among the last two characters, and only `=` follow it. |
| Base64.StripWhitespace | src/lib/utilities.js:20 | The forgiving decoder's first step leaves no ASCII whitespace and is never longer than its input. `StripWhitespaceCounts` and `StripWhitespaceAround` state that every other character is kept, in order. |
| Base64.StripWhitespaceCounts | src/lib/utilities.js:20 | Stripping keeps every non-whitespace character exactly as many times as it occurs in the input. |
| Base64.StripWhitespaceAppend | src/lib/utilities.js:20 | Stripping a concatenation is the concatenation of the stripped parts, so kept characters stay in the order written. |
| Base64.StripWhitespaceAround | src/lib/utilities.js:20 | One character anywhere in the text is dropped by stripping when it is whitespace, and kept in its place otherwise. |
| Base64.DecodeOfStripped | src/lib/utilities.js:20 | `atob` gives the same result on the input and on the input with its whitespace stripped. |
| Base64.WhitespaceIsIgnored | src/lib/utilities.js:20 | Inserting one ASCII whitespace character anywhere in the input does not change `atob`'s result. |
| Base64.DecodeEncodeDigits | src/lib/utilities.js:13-20 | Decoding the unpadded digits of any bytes gives back those bytes. |
| Base64.UnpadOfEncode | src/lib/utilities.js:13-20 | Removing the padding of an encoding leaves exactly its digits. |
| Base64.DecodeEncode | src/lib/utilities.js:13-20 | `atob(btoa(b)) == b` for every byte sequence. |
| Base64.Decode | src/lib/utilities.js:20 | The forgiving-base64 decoder behind `atob`. `DecodeEncode`, `WhitespaceIsIgnored`, `MissingPaddingIsAccepted` and `LoneCharacterIsRefused` state what it accepts and returns. |
| Base64.MissingPaddingIsAccepted | src/lib/utilities.js:20 | The unpadded digits decode as well. |
| Base64.LoneCharacterIsRefused | src/lib/utilities.js:20 | Text with one character over its groups of four is refused. |
| Text.NatToString | src/lib/logger.js:10 | `String(n)` is at least one decimal digit, with no leading zero. |
| Text.ParseIntOfIntToString | src/lib/logger.js:10-11 | Reading `String(n)` back gives `n` for every integer. |
| Text.IntToString | src/lib/logger.js:10-18 | `String(num)` and `String(date.getTime())`. `ParseIntOfIntToString` states that it reads back as the number for every integer. |
| Text.NatToStringLength | src/lib/logger.js:10 | A natural number has at most `k` digits exactly when it is below `10^k`. |
| Logger.Pad | src/lib/logger.js:10 | `pad(num, size)` has length `max(size, |String(num)|)`. |
| Logger.PadShape | src/lib/logger.js:10 | A padded field is zeros followed by the whole decimal text. |
| Logger.PadReadsBack | src/lib/logger.js:10 | A padded non-negative number still reads as that number. |
| Logger.PadWidth | src/lib/logger.js:10 | A padded non-negative number is exactly `size` characters iff it is below `10^size`, so a longer number is kept whole. |
| Logger.FieldWidths | src/lib/logger.js:12-17 | In their normal ranges, MM, dd, HH, mm and ss are 2 characters and SSS is 3. |
| Logger.JanuaryIsZeroOne | src/lib/logger.js:12 | Month index 0 is printed `01`. |
| Logger.YearIsNotPadded | src/lib/logger.js:11-20 | The timestamp starts with the unpadded year, followed by `-`. |
| Logger.LastEight | src/lib/logger.js:18 | `slice(-8)` is the last eight characters, or the whole string when it is shorter, and it is a suffix. |
| Logger.TickReadsBack | src/lib/logger.js:18 | The tick of a non-negative clock reads as the clock modulo `10^8`. |
| Logger.StampLayout | src/lib/logger.js:20 | The timestamp is exactly `yyyy-MM-dd HH:mm:ss.SSS tick`, with these literal separators. |
| Logger.Stamp | src/lib/logger.js:20 | The template literal of `formatDate`. `StampLayout` states its exact layout, and `StampReadsBack` that its fields read back. |
| Logger.StampReadsBack | src/lib/logger.js:20 | A stamp whose fields have the template widths and each read as a number reads back as those numbers. |
| Logger.FormatDateReadsBack | src/lib/logger.js:9-21 | For a non-negative year and clock and the other fields in range, the timestamp reads back as the year, the one-based month, day, hours, minutes, seconds and milliseconds, and the clock modulo `10^8`. |
| Logger.FormatDate | src/lib/logger.js:9-21 | `formatDate(date)`. `FormatDateReadsBack`, `StampLayout`, `FieldWidths` and `TimestampChars` state its properties. |
| Logger.TimestampChars | src/lib/logger.js:9-21 | A timestamp is only digits, `-`, ` `, `:` and `.`. |
| Logger.LogLineReadsBack | src/lib/logger.js:5 | A line `timestamp [routeName]: message` splits back into those three parts whenever the route name holds no `]`. |
| Logger.LogLine | src/lib/logger.js:5 | The line `createLogger` prints. `LogLineReadsBack` states that it splits back into timestamp, route name and message. |
| Logger.SplitLine | src/lib/logger.js:5 | Any text without `[` followed by ` [`, a name without `]`, `]: ` and a message splits back into those parts. |

## Left out

- Console logging everywhere, and `response.statusText` in the hook's log line: output only.
- The real `fetch`, streaming and backpressure of bodies, and SvelteKit's `resolve`: parameters.
- Utilities.CharCodes: one byte per character, where `split('')` gives one per UTF-16 code unit. They differ only above U+FFFF, and only the binary strings `atob` yields, all below U+0100, reach it.
- Base64.StripWhitespace: its own contract states only that no whitespace is left and that the result is no longer than the input. The facts that the other characters are kept, in count and in order, are the lemmas `StripWhitespaceCounts` and `StripWhitespaceAround`. Stating them on the function itself made every proof that unfolds it too costly for the solver.
- Urls.Resolve: no query or fragment in the reference, no percent-encoding of path characters, no IPv6 or port validation, no host parsing beyond "non-empty", and no backslash handling. The `file` scheme is resolved generically. The hook's remainder is cut from an already-parsed pathname, which has no backslash, `?` or `#` and whose characters are already percent-encoded. Dot segments, including `%2e` forms, are modelled.
- The `fs`, `path` and dynamic `import` calls, `process.cwd()` and `localStorage`: a backend slot with fault flags. Loading `fs` or `path` is assumed not to fail.
- JSON itself: an abstract `Codec`. `JSON.parse` of text that does not hold an object, and `set` of values `JSON.stringify` cannot render, are not distinguished.
- The `socket.js` subscriber reads `config.fileServer` only to log it. A `null` value stored in the config would make that callback throw; this is not modelled.
- Svelte's `writable` internals beyond `safe_not_equal`, and the interleaving of concurrent `async` calls: calls are run one after another.
- `initializeSocket` in `src/lib/socket.js:78-83`: never called and not exported.
- The socket.io transport, backoff and timers. Only the options record and the event handlers belong to the module.
- gzip: an abstract pair of functions.
- Utf8.Decode: replaces each offending byte with U+FFFD, where `TextDecoder` replaces each maximal ill-formed subpart. The two agree on every encoding of a string, which is all the round-trip lemmas decode.
- Utilities.DecompressCompress: decodes the whole inflated output in one `TextDecoder` call. pako 2.1's `ungzip(…, { to: 'string' })` decodes each 64 KiB output chunk with a fresh decoder, so a U+FEFF whose bytes begin any later chunk is dropped as well. The model's result is exact for UTF-8 text of at most 65536 bytes. The chunking depends on the pako version and is not modelled.
- Utilities.DecompressString: same single-call decoding as `DecompressCompress`, so a U+FEFF at the start of a later 64 KiB chunk is kept in the model and dropped by pako 2.1.
- Utilities.DecompressCompressWithoutBom: exact for UTF-8 text of at most 65536 bytes. Longer text with a U+FEFF at a later chunk start loses it in pako 2.1.
- Utilities.LeadingBomIsLost: exact for UTF-8 text of at most 65536 bytes. Longer text may also lose a U+FEFF at each later chunk start in pako 2.1.
- Utilities.CompressString: JavaScript strings may hold lone surrogates, which `TextEncoder` turns into U+FFFD. A Dafny `char` is a Unicode scalar value, so such strings are not represented.
- ConfigStore.WaitForInitIsStable: updaters are assumed not to mutate their argument. `update` hands its updater the initialisation object itself, by reference. An updater that changes it in place changes what `waitForInit` yields, and the shared default object too when initialisation returned the default.
- ConfigStore.UpdatesDoNotCompose: likewise assumes updaters do not mutate their argument. Two updaters that change the initialisation object in place do compose.
- ConfigStore.SetThenReload: holds for canonical values only. Non-integer numbers are not modelled: `JNum` holds an integer, and a canonical one lies within ±(2^53 - 1). A `Json` object with repeated keys or keys out of JavaScript's enumeration order stands for no JavaScript value.
- The argument-count limit of `String.fromCharCode(...)` for very large inputs.
- `os.networkInterfaces()`: the table is an input, in `Object.keys` order.
- Logger.FormatDateReadsBack: only non-negative years and clocks are read back. A negative year prints a `-`, and the reader takes the first `-` to end the year.
- The extraction of calendar fields from a `Date`, which depends on the clock and time zone: the fields are inputs.
- `getLineNumber` in `src/lib/logger.js:23-41`: its only call is commented out.
- The rest arguments `...args` of the log function: passed to `console.log` unchanged.
