# http-proxy-ipv6-pool, modelled in Dafny

http-proxy-ipv6-pool is a proxy that sends each outgoing connection from its
own IPv6 address, drawn from a configured subnet. It also has two forwarding
relays:

- A TLS tunnel relay (src/forward.rs). Each listening address is mapped to a
  remote server, reached directly or through an HTTP CONNECT or SOCKS5 proxy.
- A libcurl relay (src/forward/forward.rs). It parses the client's HTTP/1.1
  request, re-issues it through libcurl-impersonate, and writes the response
  back.

This project models the logic of these programs that is independent of I/O.
Each relay has a forward-mapping parser and an access check. The libcurl relay
also does HTTP head handling: it builds a header map, a target URL and a body,
filters the outgoing headers and rewrites the Referer, relays the response
headers and writes a status line. The tunnel relay chooses a route and runs the
HTTP CONNECT handshake. The hyper proxy chooses an outbound IPv6 address with
its address cache and builds its system-route command lines. Finally, there are
the Rust and C response-accumulator callbacks that libcurl calls.

Modules, one per area of the source:

| module | file | source |
|---|---|---|
| `Wrappers` | wrappers.dfy | `Option` |
| `Text` | text.dfy | the Rust `str`/`[u8]` operations used: prefix and substring search, `split`, `to_lowercase`, decimal formatting |
| `Utf8` | utf8.dfy | `std::str::from_utf8` and `as_bytes` (UTF-8 decoding and encoding) |
| `ForwardMapping` | forward_mapping.dfy | `parse_forward_mapping` in both relays |
| `AccessPolicy` | access_policy.dfy | `is_allowed_ip` in both relays |
| `ForwardRelay` | forward_relay.dfy | the HTTP head handling of src/forward/forward.rs |
| `ProxyHandshake` | proxy_handshake.dfy | route choice and `connect_via_http_proxy` in src/forward.rs |
| `OutboundAddress` | outbound_address.dfy | `get_rand_ipv6`, `IP_MAP`, the command strings of src/proxy.rs |
| `CurlFfi` | curl_ffi.dfy | `Display for CURLcode`, `header_callback`, `write_callback` in src/forward/curl_ffi.rs |
| `CurlCallbacks` | curl_callbacks.dfy | `write_callback`, `header_callback` in curl_callbacks.c, over the structs of curl_callbacks.h |

How the model represents the source:

- **Parsers and predicates as parameters.** Several things the program relies
  on become parameters of the model:
  - socket-address parsing (`str::parse::<SocketAddr>`), a function `string -> Option<A>`;
  - CIDR containment (`Ipv4Cidr::contains`, `Ipv6Cidr::contains`), a function `(C, T) -> bool`;
  - the httparse verdict on the received bytes, a `HeadParse` value;
  - the text of an IPv6 address, a string;
  - random values, plain inputs.
- **Hash-map iteration order.** The request-header loop visits the keys in an
  order the program does not fix, so that order is an input sequence that
  enumerates the keys.
- **Reads from the proxy.** They are a script of read results, each holding
  some bytes or an error. A zero-length read, or the end of the script, means
  the proxy closed the connection.
- **`u128` values.** A `u128` is a sequence of 128 bits, most significant
  first. `<<`, `>>` and `|` are written out on those bits.
- **Lowercasing.** `to_lowercase` maps ASCII `A`-`Z` and KELVIN SIGN (U+212A)
  to lower case and leaves every other character alone. KELVIN SIGN is the
  only non-ASCII character whose lower-case form is ASCII. So every comparison
  the source makes against a lower-case ASCII constant comes out the same as
  with the full Unicode mapping.
- **Mutable state as classes.** The global `IP_MAP` is the `AddressCache`
  class. The shared vectors behind the Rust callbacks are the `HeaderVec` and
  `BodyVec` classes. `MemoryStruct` and `HeaderStruct` are classes over
  arrays. An allocation is a fresh array filled by copy loops, and whether an
  allocation succeeds is a boolean input.

## Model

| member | source | states |
|---|---|---|
| ForwardMapping.ParseSucceedsIff | src/forward/forward.rs:45-96 | A mapping parses exactly when: it has 3 to 5 comma-separated fields; field 0 is a socket address; with 4 or more fields, at least one `\|`-separated entry of field 3 is accepted; with 5 fields, field 4 names a proxy kind. |
| ForwardMapping.ParsedFields | src/forward/forward.rs:59-110 | A parsed mapping holds the local address parsed from field 0. It holds fields 1 and 2 verbatim, and the accepted entries of field 3. Its kind is `NoProxy` with 3 fields and `Http` with 4. With 5 fields, the kind is the one field 4 names. |
| ForwardMapping.KindIgnoresCase | src/forward/forward.rs:89-96 | The proxy kind does not depend on letter case. |
| ForwardMapping.KindExamples | src/forward.rs:78-85 | "HTTP", "Socks5" and "SOCKS5" name kinds; "https" and "" do not. |
| ForwardMapping.ProxyKindMatchesList | src/forward.rs:86-91 | A parsed mapping has kind `NoProxy` exactly when its proxy list is empty. |
| ForwardMapping.FilterMapAppend | src/forward.rs:54-65 | The entry filter keeps the order of the surviving entries: it distributes over concatenation. |
| ForwardMapping.FilterMapMembers | src/forward.rs:54-65 | A value is in the filtered list exactly when some entry maps to it. |
| ForwardMapping.FilterMapEmpty | src/forward.rs:67-70 | The filtered list is empty exactly when no entry is accepted. |
| ForwardMapping.ColonEntry | src/forward/forward.rs:66-73 | An entry is kept, unchanged, exactly when it contains ':'. |
| ForwardMapping.ParseCurlMapping | src/forward/forward.rs:44-111 | Every kept proxy contains ':'. The kind is `NoProxy` exactly when there are no proxies. A field count outside 3..5 fails. |
| ForwardMapping.CurlProxyEntries | src/forward/forward.rs:62-83 | In the libcurl relay, the proxy list is exactly the entries of field 3 that contain ':', in their order. |
| ForwardMapping.ParseTunnelMapping | src/forward.rs:34-100 | The local address is field 0 parsed. Three fields give no proxies. Every proxy is the parse of some entry of field 3. The kind is `NoProxy` exactly when there are no proxies. |
| ForwardMapping.ThreeFields | src/forward/forward.rs:59-102 | `local,remote,sni` parses, in both relays, to the mapping with no proxies and kind `NoProxy`. |
| ForwardMapping.FourFields | src/forward/forward.rs:62-99 | `local,remote,sni,p1\|...\|pn`, where every entry contains ':', parses to exactly those proxies with kind `Http`. |
| ForwardMapping.TooFewFieldsExample | src/forward/forward.rs:46-49 | A one-field mapping fails in both relays. |
| AccessPolicy.AnyContains | src/forward/forward.rs:127-128 | `any` is true exactly when some subnet contains the address. |
| AccessPolicy.IsAllowedIp | src/forward/forward.rs:114-130 | An address on the allow-list is allowed. Otherwise, it is allowed exactly when a subnet of its own family contains it. |
| AccessPolicy.OtherFamilyIgnored | src/forward.rs:261-277 | Changing the subnets of the other family never changes the verdict. |
| AccessPolicy.NothingConfigured | src/forward.rs:261-277 | With no allow-list and no subnets of the address's family, the address is refused. |
| ForwardRelay.HeaderMapLookup | src/forward/forward.rs:196-201 | A key is in the header map exactly when some header's lowercased name equals it. Its value is that of the last such header. |
| ForwardRelay.BuildHeaderMap | src/forward/forward.rs:194-201 | The insert loop builds exactly the map `HeaderMapOf` of the headers. |
| ForwardRelay.TargetUrl | src/forward/forward.rs:202-213 | The URL is absolute and ends with the path. It equals the path exactly when the path is absolute. Otherwise it is "https://" + the Host header (or nothing) + the path. |
| ForwardRelay.RequestBody | src/forward/forward.rs:217-223 | With a CR LF CR LF in the buffer, the body is what follows its first occurrence. Without one, the body is the bytes from offset 4 on. |
| ForwardRelay.BareLfRequestBody | src/forward/forward.rs:219-224 | For the request "GET / HTTP/1.1\nHost: h\n\nXY", whose head lines end in a bare LF, the body is the buffer from offset 4 on, not "XY". |
| ForwardRelay.ParseHttpRequest | src/forward/forward.rs:181-226 | A malformed head is an error and a partial head is "Incomplete HTTP request". A complete head yields its method and path, the header map, the body and the target URL. |
| ForwardRelay.RunEnd | src/forward/forward.rs:427-428 | The `[^/]+` run stops at the first '/' or at the end. |
| ForwardRelay.FirstOrigin | src/forward/forward.rs:427-428 | Finds the leftmost offset where `https://[^/]+` matches, or reports that there is none. |
| ForwardRelay.RewriteReferer | src/forward/forward.rs:426-429 | Without a match the value is unchanged. Otherwise the leftmost `https://<non-slash run>` becomes "https://test.com" and the rest is kept. |
| ForwardRelay.RewriteRefererIdempotent | src/forward/forward.rs:427-428 | Rewriting an already rewritten Referer changes nothing. |
| ForwardRelay.OutgoingHeadersMembers | src/forward/forward.rs:421-441 | An entry is in the header list exactly when it is the `key: value` entry of a key that is not dropped. For a Referer, the value is rewritten. |
| ForwardRelay.ForwardedHeaders | src/forward/forward.rs:421-441 | For any iteration order of the map, every key that is not dropped has its entry in the list. |
| ForwardRelay.BuildHeaderList | src/forward/forward.rs:420-441 | The loop appends the entries in map-iteration order, skipping dropped keys. |
| ForwardRelay.StatusText | src/forward/forward.rs:617-627 | The text is "Unknown Status" exactly when the code is not 200, 400, 401, 403, 404 or 500. |
| ForwardRelay.StatusTextsDistinct | src/forward/forward.rs:617-627 | Known codes have distinct texts. |
| ForwardRelay.RelayHeaders | src/forward/forward.rs:586-604 | The relay loop makes exactly the writes `RelayedLines` lists. |
| ForwardRelay.RelayedLinesAppend | src/forward/forward.rs:586-604 | Relayed lines keep their order. |
| ForwardRelay.RelayedLinesMembers | src/forward/forward.rs:586-601 | A line is written exactly when it comes from a line that is not skipped: verbatim, or as the recomputed Content-Length. |
| ForwardRelay.RelayedLinesClean | src/forward/forward.rs:587-598 | No written line starts with HTTP/1, HTTP/2, Date or content-encoding. Every written Content-Length line carries the true body length. |
| ForwardRelay.ContentLengthReadsBack | src/forward/forward.rs:597 | The Content-Length line is recognised as one, and its number reads back as the body length. |
| ForwardRelay.StatusLine | src/forward/forward.rs:559 | The corrected status line ends with CR LF. |
| ForwardRelay.StatusLineIsFirstLine | src/forward/forward.rs:559-578 | With the corrected status line, the first line of the response is "HTTP/1.1 <code>", whatever headers follow. |
| ForwardRelay.ResponseBytes | src/forward/forward.rs:571-609 | The bytes sent to the client start with the status line and end with the body. |
| ForwardRelay.ResponseIsHeadThenBody | src/forward/forward.rs:571-609 | The bytes sent are the status line and the relayed lines, written one after another, then the body. |
| ForwardRelay.ResponseFirstLine | src/forward/forward.rs:559-609 | With the corrected status line, the first CR LF the client receives ends "HTTP/1.1 <code>", whatever headers and body follow. |
| ForwardRelay.AsWrittenResponseRunsOn | src/forward/forward.rs:559-609 | As written, for the example headers and an empty body, the client receives the bytes of "HTTP/1.1 200Server: x\r\n\r\n". |
| ForwardRelay.AsWrittenStatusLineRunsOn | src/forward/forward.rs:559-600 | As written, for headers ["HTTP/1.1 200 OK\r\n", "Server: x\r\n", "\r\n"], the client receives "HTTP/1.1 200Server: x\r\n\r\n". |
| ProxyHandshake.ChooseRoute | src/forward.rs:162-191 | `NoProxy` connects directly. Any other kind with no proxies gives "Proxy addresses not specified". Otherwise the route goes through the picked proxy of that kind. |
| ProxyHandshake.ConnectRequest | src/forward.rs:219 | The request starts with "CONNECT ", names the target at offset 8, ends with a blank line, and is 2·\|target\| + 29 characters long. |
| ProxyHandshake.ConnectRequestIsOneHead | src/forward.rs:219 | For a target without CR, the first line is "CONNECT <target> HTTP/1.1", and the only blank line is the final one. |
| ProxyHandshake.Handshake | src/forward.rs:226-245 | "Connected" means the response holds the blank line and "200". "Refused" means it holds the blank line but no "200". Either way the response extends what was read. |
| ProxyHandshake.HandshakeDecidesAt | src/forward.rs:226-245 | When read k is the first to complete the head, the handshake is decided there: "Connected" with everything read if it contains "200", "Refused" otherwise. |
| ProxyHandshake.HandshakeFailsAt | src/forward.rs:226-231 | If the reads before read j brought data but no complete head, a zero-length read (or the end of the script) at j gives "Proxy server closed connection", and a failed read at j gives the read error. |
| ProxyHandshake.HandshakeStopsAtHeadEnd | src/forward.rs:226-237 | The loop stops at the first read that completes the head. The response is all bytes read up to and including that read, and the bytes before it held no blank line. |
| ProxyHandshake.ReadProxyResponse | src/forward.rs:222-245 | The read loop returns exactly what `Handshake` specifies. |
| OutboundAddress.NetPart | src/proxy.rs:174 | The network part is the top p bits of the base, followed by zeros. |
| OutboundAddress.HostPart | src/proxy.rs:175 | The host part is p zeros, followed by the low 128-p bits of the random value. |
| OutboundAddress.NewAddress | src/proxy.rs:173-177 | The address's top p bits are the base's and its low 128-p bits are the random value's. |
| OutboundAddress.NewAddressUnique | src/proxy.rs:173-177 | Those two conditions determine the address. |
| OutboundAddress.NewAddressEdges | src/proxy.rs:174-175 | With the corrected shifts, a /0 prefix yields the random value and a /128 prefix yields the base. |
| OutboundAddress.AsWrittenAgrees | src/proxy.rs:174-176 | For prefixes 1..127, the source's shifts compute the intended address. |
| OutboundAddress.AsWrittenEdgeCases | src/proxy.rs:174-176 | For a /0 or /128 prefix, the source's release-build shifts give base OR random, and concrete inputs differ from the intended address. |
| OutboundAddress.Allocate | src/proxy.rs:164-183 | For a prefix length of 1 to 127: on a hit, the cached address is returned and the map is unchanged. On a miss, the map gains exactly hostname ↦ a new address with the prefix of the base. Existing entries never change. |
| OutboundAddress.AllocateStable | src/proxy.rs:168-170 | Two calls for one hostname return the same address, whatever random values are used. |
| OutboundAddress.AllocationPersists | src/proxy.rs:168-180 | After any series of requests, an earlier entry keeps its address and every requested hostname is present. |
| OutboundAddress.AddressCache.GetRandIpv6 | src/proxy.rs:164-183 | `get_rand_ipv6` returns and stores exactly what `Allocate` describes. |
| OutboundAddress.AddressCache.GetRandIpv6SocketAddr | src/proxy.rs:152-155 | The socket address's IP is what `get_rand_ipv6` gives for the same key; only the port comes from the random input. |
| OutboundAddress.RouteCommands | src/proxy.rs:87-97 | Without system routing, nothing is run. With it, the add command runs first, then the traceroute command exactly when a gateway is set. |
| OutboundAddress.AddAddressCommandWords | src/proxy.rs:89 | `ip addr add <addr>/<p> dev <iface>` splits into exactly those six words. |
| OutboundAddress.TracerouteCommandWords | src/proxy.rs:93 | `traceroute -s <addr> <gateway>` splits into exactly those four words. |
| CurlFfi.CurlCodeName | src/forward/curl_ffi.rs:28-38 | The name is "Unknown CURLcode" exactly when the code is not 0, 1 or 2. |
| CurlFfi.CurlCodeNamesDistinct | src/forward/curl_ffi.rs:28-38 | The three known codes have distinct names. |
| CurlFfi.TrimEndCrlf | src/forward/curl_ffi.rs:118 | The result does not end with CR LF, and the input is the result followed by some number of CR LF pairs. |
| CurlFfi.TrimAppended | src/forward/curl_ffi.rs:118 | Trimming a line that does not end in CR LF, with any number of CR LF pairs appended, gives the line back. |
| CurlFfi.TrimIdempotent | src/forward/curl_ffi.rs:118 | Trimming twice is trimming once. |
| CurlFfi.HeaderEntry | src/forward/curl_ffi.rs:116-121 | At most one entry is added, and exactly one when the bytes are valid UTF-8. |
| CurlFfi.HeaderEntryOfText | src/forward/curl_ffi.rs:116-121 | The UTF-8 bytes of a line plus line endings are stored as the line. |
| CurlFfi.HeaderCallback | src/forward/curl_ffi.rs:101-124 | With null userdata, it returns 0 and changes nothing. Otherwise it returns size·nmemb and appends exactly `HeaderEntry` of the bytes; earlier entries are unchanged. |
| CurlFfi.WriteCallback | src/forward/curl_ffi.rs:127-148 | With null userdata, it returns 0 and changes nothing. Otherwise it returns size·nmemb, and the body becomes the old body followed by the bytes. |
| CurlFfi.CollectBody | src/forward/curl_ffi.rs:127-148 | A series of write callbacks collects the chunks' concatenation. |
| CurlFfi.FlattenLength | src/forward/curl_ffi.rs:145 | The collected body is as long as all chunks together. |
| CurlCallbacks.WriteCallback | curl_callbacks.c:8-25 | On allocation failure, it returns 0 with data and size unchanged. On success, it returns the byte count, the size grows by it, the contents are the old contents followed by the bytes, and data[size] is NUL. |
| CurlCallbacks.HeaderCallback | curl_callbacks.c:28-55 | If either allocation fails, it returns 0 with headers and count unchanged. On success, it returns the byte count, count grows by one, and the last entry is the raw bytes plus NUL; earlier entries are unchanged. |
| CurlCallbacks.UpToNul | src/forward/forward.rs:540-543 | `CStr::from_ptr` reads a NUL-free prefix, stopping at a NUL or at the end. |
| CurlCallbacks.StoredHeaderReadsBack | src/forward/forward.rs:540-543 | A stored header without NUL bytes reads back exactly. |
| CurlCallbacks.NulTruncatesHeader | src/forward/forward.rs:540-543 | A header with an embedded NUL reads back only up to that NUL. |
| Text.JoinSplit | src/forward/forward.rs:45 | Joining the pieces of `split` gives the input back. |
| Text.SplitJoin | src/forward/forward.rs:45 | Splitting a join of separator-free pieces gives the pieces back. |
| Text.DecimalRoundTrip | src/forward/forward.rs:597 | Decimal formatting of a natural number parses back to it. |
| Utf8.DecodeEncode | src/forward/curl_ffi.rs:117 | `from_utf8` accepts the UTF-8 encoding of any string and returns that string. |
| Utf8.EncodeDecode | src/forward/curl_ffi.rs:117 | Bytes that `from_utf8` accepts are the encoding of the decoded string. |

## Left out

- Sockets, tokio tasks, TLS and hyper: listeners, accept loops,
  `copy_bidirectional` and `tokio::io::copy`, the hyper client and server, and
  the CONNECT upgrade. These are I/O and concurrency.
- The SOCKS5 handshake (`Socks5Stream::connect`): it is a library call, and
  only its route is modelled.
- The libcurl call sequence in the `spawn_blocking` closure: setting options,
  `perform`, getinfo, `curl_slist_append` and the frees. These are foreign
  calls with effects that cannot be observed. The model stops at the header
  list the loop builds and at the lines and body the callbacks collect. Some
  early exits (impersonation failure and two `?` exits) do not free the
  buffers; the model does not cover that.
- `set_curl_option_string`, `set_curl_option_void` and `get_response_code`:
  thin wrappers around foreign calls.
- `execute_command`: it runs a shell. Only the command strings are modelled.
- The random number generator and `choose`: their values are inputs.
- httparse, CIDR parsing and containment, `SocketAddr` parsing and
  `Display for Ipv6Addr`: these are parameters of the model, not modelled.
- `String::from_utf8_lossy` of header values: header values enter the model
  already as text.
- `CString::new(..).unwrap()` on a header entry with a NUL byte: a panic,
  not modelled.
- Mutex poisoning (`lock().unwrap()`) and the `println!`/`eprintln!` logging.
- ProxyHandshake.Handshake: success is tested on the raw bytes containing
  "200". The source tests the lossily decoded text. The two agree because
  lossy decoding keeps every ASCII byte, and its replacement character is
  neither '2' nor '0'.
- ProxyHandshake.ReadProxyResponse: a script that runs out is treated like a
  zero-length read. A real socket would block waiting for more data.
- OutboundAddress.Allocate, OutboundAddress.AllocateStable,
  OutboundAddress.AllocationPersists, OutboundAddress.AddressCache.GetRandIpv6,
  OutboundAddress.AddressCache.GetRandIpv6SocketAddr: they require a prefix
  length of 1 to 127. At /0 and /128 the source shifts a `u128` by 128
  (see Findings), so these calls are not modelled there.
- OutboundAddress.NewAddress: it requires a prefix length of at most 128, the
  range `Ipv6Cidr::network_length` produces (src/main.rs:65-69). The source's
  `128 - prefix_len` on a `u8` would underflow above 128.
- OutboundAddress.AsWrittenAddress: it models a release build, where a `u128`
  shift amount is reduced modulo 128. A debug build panics on the shift by 128
  instead; that panic is not modelled.
- CurlFfi.HeaderCallback, CurlFfi.WriteCallback, CurlCallbacks.WriteCallback,
  CurlCallbacks.HeaderCallback: `size * nmemb` is computed on unbounded
  integers, so `usize` overflow is not modelled.
- CurlCallbacks.WriteCallback, CurlCallbacks.HeaderCallback: `realloc` is
  modelled as always moving to a fresh block. Aliasing with the old block is
  not modelled.
- ForwardRelay.RelayHeaders: a Content-Length line is written only in place
  of one that upstream sent. With no upstream Content-Length, none is added.
  A Transfer-Encoding line is relayed as it is.
- ForwardRelay.RequestBody: when the buffer has no CR LF CR LF, the body is
  modelled as the source computes it (bytes from offset 4 on). The head
  parser's verdict is an input not tied to the buffer. A head whose lines end
  in a bare LF has no CR LF CR LF and reaches that case
  (`BareLfRequestBody`). Whether httparse completes such heads is not part of
  this model.
- A bounded, evicting pool of addresses provisioned on an interface: no such
  pool exists in these source files. The only address state is `IP_MAP`.

## Findings

| source | as written | input that shows it | evidently intended | confidence | as-written member | corrected member |
|---|---|---|---|---|---|---|
| src/proxy.rs:174-175 | The address is built with `u128` shifts by `128 - prefix_len` and by `prefix_len`. For a /0 or /128 subnet, these shift by 128: a debug build panics, and a release build shifts by 0 and ORs the base with the random value. | Subnet /128 with base 0 and random value 1 gives address 1, not the configured address. Subnet /0 with base 1 and random value 0 gives 1, not 0. | A /128 prefix yields the base address and a /0 prefix yields the random value. | not executed | OutboundAddress.AsWrittenEdgeCases | OutboundAddress.NewAddressEdges |
| src/forward/forward.rs:559 | The status line is `format!("HTTP/1.1 {}", code)` with no CR LF. It is written just before the relayed headers, and the upstream status line is skipped, so the first header runs into it. | Response headers ["HTTP/1.1 200 OK\r\n", "Server: x\r\n", "\r\n"] with code 200 give "HTTP/1.1 200Server: x\r\n\r\n". | The status line ends with CR LF, so the first line is "HTTP/1.1 200". | not executed | ForwardRelay.AsWrittenStatusLineRunsOn | ForwardRelay.StatusLineIsFirstLine |
