# NetworkToolkit request handles, modelled in Dafny

This project models `HttpRequest`, the reusable request store of NetworkToolkit's
HTTP primitives, and the small pure helpers in the same file.

A store keeps a private 32-bit generation (`_version`). `GetValueRequest` hands
out a `ValueHttpRequest`, which is the pair (store, generation now). `Reset`
advances the generation with `Interlocked.Increment`. Every operation receives
the caller's generation, and `IsDisposed(v)` is exactly `v != _version`. So a
handle taken before a reset is refused with an `ObjectDisposedException`. The
store's abstract operations (configure, write the request line, headers,
content, flush, complete, read, dispose) are each modelled as a class method
with that check. A call that passes the check is appended to `log`, the list of
calls handed on to the implementation.

Files, one module each:

- `wrappers.dfy`: `Option`.
- `ascii.dfy`: bytes, and `Encoding.ASCII.GetBytes`. A character outside ASCII
  becomes `?` (0x3F), the encoder's replacement byte.
- `text.dfy`: `int` formatting and parsing, character search, `string.Join`,
  and `Split`, the inverse used to state what `Join` produces.
- `generation.dfy`: the 32-bit counter and its wrap-around.
- `http_request.dfy`: the method constants, the authority, the `HttpRequest`
  class and the `ValueHttpRequest` handle.

Generation safety, as proved:

- A fresh handle is valid (`GetValueRequest`).
- Exactly one generation is live at a time (`LiveGeneration`). `Reset` makes
  the handles of the current generation stale and changes nothing else.
- Those handles stay stale for any number of further resets from 1 to
  2^32 - 1 (`ResetRepeatedly`, on the store itself).
- A successful `DisposeAsync` resets, so the disposing handle is refused from
  then on (`UseAfterDispose`).
- The counter is a wrapping 32-bit `int`. After `k` resets an old handle is
  stale exactly when `k` is not a multiple of 2^32 (`GenerationReturns` on the
  counter, `ResetRepeatedly` on the store). Exactly 2^32 resets would make it
  valid again.

The doc comments of the three `IsDisposed` overloads (HttpRequest.cs lines
235-238, 247-249 and 275-277) say they return true when the request is NOT
disposed. The code returns `version != _version`, which is true when the
request IS disposed. The model follows the code.

## Model

| member | source | states |
|---|---|---|
| `HttpPrimitives.GetMethod` | NetworkToolkit/Http/Primitives/HttpRequest.cs:21 | the GET constant is the ASCII encoding of "GET" and decodes back to it |
| `HttpPrimitives.PostMethod` | NetworkToolkit/Http/Primitives/HttpRequest.cs:26 | the POST constant is the ASCII encoding of "POST" |
| `HttpPrimitives.PutMethod` | NetworkToolkit/Http/Primitives/HttpRequest.cs:31 | the PUT constant is the ASCII encoding of "PUT" |
| `HttpPrimitives.ConnectMethod` | NetworkToolkit/Http/Primitives/HttpRequest.cs:36 | the CONNECT constant is the ASCII encoding of "CONNECT" |
| `HttpPrimitives.HttpRequest.constructor` | NetworkToolkit/Http/Primitives/HttpRequest.cs:38 | a new store starts at generation 0, read type None, no response version, status 0, nothing admitted |
| `Generation.Increment` | NetworkToolkit/Http/Primitives/HttpRequest.cs:79 | `Interlocked.Increment` is +1 modulo 2^32 in the signed 32-bit range, and always changes the value |
| `Generation.IncrementNWraps` | NetworkToolkit/Http/Primitives/HttpRequest.cs:78-79 | k resets move the generation by k modulo 2^32 |
| `Generation.GenerationReturns` | NetworkToolkit/Http/Primitives/HttpRequest.cs:78-79 | after k resets the generation equals an earlier snapshot iff k is a multiple of 2^32 (stale for every 0 < k < 2^32) |
| `HttpPrimitives.HttpRequest.Reset` | NetworkToolkit/Http/Primitives/HttpRequest.cs:73-79 | the generation advances by one (wrapping); the previous snapshot is now disposed and the new handle differs from the old; read type, version, status code and admitted calls are unchanged |
| `HttpPrimitives.HttpRequest.GetValueRequest` | NetworkToolkit/Http/Primitives/HttpRequest.cs:84-90 | the handle refers to this store and is not disposed: it carries the current generation |
| `HttpPrimitives.LiveGeneration` | NetworkToolkit/Http/Primitives/HttpRequest.cs:240 | IsDisposed(v) is false exactly for the generation the store's current handle carries, and that generation is disposed after the next reset |
| `HttpPrimitives.ResetRepeatedly` | NetworkToolkit/Http/Primitives/HttpRequest.cs:78-90 | after k resets of the store its generation is k increments on, and a handle taken before is disposed exactly when k is not a multiple of 2^32 |
| `HttpPrimitives.HttpRequest.ThrowIfDisposed` | NetworkToolkit/Http/Primitives/HttpRequest.cs:224-229 | returns normally exactly for the current handle's generation, otherwise throws ObjectDisposedException naming HttpRequest |
| `HttpPrimitives.HttpRequest.IsDisposedTask` | NetworkToolkit/Http/Primitives/HttpRequest.cs:251-267 | true exactly when ThrowIfDisposed would throw, then with a faulted task carrying that same exception; otherwise false with the default task |
| `HttpPrimitives.HttpRequest.IsDisposedTaskOf` | NetworkToolkit/Http/Primitives/HttpRequest.cs:279-295 | the same agreement for `ValueTask<T>` |
| `HttpPrimitives.HttpRequest.Admit` | NetworkToolkit/Http/Primitives/HttpRequest.cs:95 | a synchronous operation throws exactly what ThrowIfDisposed throws, and is handed on (with the caller's generation) only when it does not |
| `HttpPrimitives.HttpRequest.AdmitAsync` | NetworkToolkit/Http/Primitives/HttpRequest.cs:95 | an asynchronous operation returns the IsDisposed task, and is handed on only when that task is not faulted |
| `HttpPrimitives.HttpRequest.DisposeAsync` | NetworkToolkit/Http/Primitives/HttpRequest.cs:101 | a stale generation gets the faulted task and changes nothing; a current one is handed on and resets the store, after which that generation is disposed |
| `HttpPrimitives.HttpRequest.ConfigureRequest` | NetworkToolkit/Http/Primitives/HttpRequest.cs:109 | throws on a stale generation; otherwise hands on the content length and trailing-header flag |
| `HttpPrimitives.HttpRequest.WriteConnectRequest` | NetworkToolkit/Http/Primitives/HttpRequest.cs:116 | throws on a stale generation; otherwise hands on the authority |
| `HttpPrimitives.HttpRequest.WriteRequest` | NetworkToolkit/Http/Primitives/HttpRequest.cs:125 | throws on a stale generation; otherwise hands on method, authority and path bytes |
| `HttpPrimitives.HttpRequest.WriteHeader` | NetworkToolkit/Http/Primitives/HttpRequest.cs:133 | throws on a stale generation; otherwise hands on the name and value bytes |
| `HttpPrimitives.HttpRequest.WriteHeaders` | NetworkToolkit/Http/Primitives/HttpRequest.cs:140 | throws on a stale generation; otherwise hands on the header set |
| `HttpPrimitives.HttpRequest.WriteTrailingHeader` | NetworkToolkit/Http/Primitives/HttpRequest.cs:149 | throws on a stale generation; otherwise hands on the trailing name and value bytes |
| `HttpPrimitives.HttpRequest.FlushHeadersAsync` | NetworkToolkit/Http/Primitives/HttpRequest.cs:157 | faulted task on a stale generation, else handed on |
| `HttpPrimitives.HttpRequest.WriteContentAsync` | NetworkToolkit/Http/Primitives/HttpRequest.cs:166 | faulted task on a stale generation, else the buffer is handed on |
| `HttpPrimitives.HttpRequest.WriteContentBuffersAsync` | NetworkToolkit/Http/Primitives/HttpRequest.cs:175 | faulted task on a stale generation, else the buffers are handed on in order |
| `HttpPrimitives.HttpRequest.FlushContentAsync` | NetworkToolkit/Http/Primitives/HttpRequest.cs:183 | faulted task on a stale generation, else handed on |
| `HttpPrimitives.HttpRequest.CompleteRequestAsync` | NetworkToolkit/Http/Primitives/HttpRequest.cs:191 | faulted task on a stale generation, else handed on |
| `HttpPrimitives.HttpRequest.ReadAsync` | NetworkToolkit/Http/Primitives/HttpRequest.cs:193-199 | a stale generation gets the faulted task and leaves ReadType alone; otherwise the parsed read type is returned and becomes ReadType, and Version and StatusCode are set only for a final or informational response |
| `HttpPrimitives.HttpRequest.ReadHeadersAsync` | NetworkToolkit/Http/Primitives/HttpRequest.cs:209 | a stale generation gets the faulted task and the sink receives nothing; otherwise the sink receives the parsed headers in order |
| `HttpPrimitives.HttpRequest.ReadContentAsync` | NetworkToolkit/Http/Primitives/HttpRequest.cs:218 | a stale generation gets the faulted task and no bytes; otherwise the result is the number of bytes placed in the buffer, at most the buffer's length |
| `HttpPrimitives.Authority` | NetworkToolkit/Http/Primitives/HttpRequest.cs:305-310 | the authority is the host, bracketed when IPv6, then ':' and the decimal port, and nothing else: parsing it back gives exactly that host and port |
| `HttpPrimitives.AuthorityShape` | NetworkToolkit/Http/Primitives/HttpRequest.cs:307-310 | an IPv6 host gives "[" + host + "]:" + port, any other host gives host + ":" + port |
| `HttpPrimitives.HttpRequest.WriteRequestForUri` | NetworkToolkit/Http/Primitives/HttpRequest.cs:303-318 | forwards, with the same generation, the ASCII method name, the ASCII authority of the URI's host and port, and the ASCII path and query |
| `HttpPrimitives.HttpRequest.WriteHeaderString` | NetworkToolkit/Http/Primitives/HttpRequest.cs:326-332 | forwards the ASCII bytes of name and value, with the same generation, to the byte overload |
| `HttpPrimitives.HttpRequest.WriteHeaderValues` | NetworkToolkit/Http/Primitives/HttpRequest.cs:341-344 | forwards exactly one header whose value is the values joined in order with the separator |
| `HttpPrimitives.HttpRequest.WriteTrailingHeaderString` | NetworkToolkit/Http/Primitives/HttpRequest.cs:353-359 | forwards the ASCII bytes of name and value, with the same generation, to the byte overload |
| `HttpPrimitives.HttpRequest.WriteTrailingHeaderValues` | NetworkToolkit/Http/Primitives/HttpRequest.cs:369-372 | forwards exactly one trailing header whose value is the values joined in order with the separator |
| `HttpPrimitives.UseAfterDispose` | NetworkToolkit/Http/Primitives/HttpRequest.cs:225-240 | through one handle: a write is admitted, dispose succeeds, and the same write afterwards throws ObjectDisposedException |
| `Text.Join` | NetworkToolkit/Http/Primitives/HttpRequest.cs:343 | the joined length is the values' total length plus one separator between each two neighbours |
| `Text.JoinSingleAndEmpty` | NetworkToolkit/Http/Primitives/HttpRequest.cs:371 | one value joins to itself; no values join to "" |
| `Text.JoinAppend` | NetworkToolkit/Http/Primitives/HttpRequest.cs:343 | joining a + b is join(a), the separator, then join(b): the values keep their order |
| `Text.JoinSplitRoundTrip` | NetworkToolkit/Http/Primitives/HttpRequest.cs:341-344 | with a one-character separator no value contains, splitting the joined string gives back the values |
| `Text.FormatIntRoundTrip` | NetworkToolkit/Http/Primitives/HttpRequest.cs:306-310 | the port's decimal text parses back to the port |
| `Ascii.GetBytes` | NetworkToolkit/Http/Primitives/HttpRequest.cs:313-315 | one byte per character, every byte below 0x80, each ASCII character keeps its value and each other character becomes '?', so ASCII strings decode back unchanged |
| `Ascii.GetBytesInjective` | NetworkToolkit/Http/Primitives/HttpRequest.cs:328-329 | distinct ASCII strings encode to distinct bytes |

## Left out

- The implementations of the abstract operations (the HTTP/1 connection with its pipelining queues, framing and header parser) are not part of this model. `log` stands for what they were handed, and what they produce (the parsed read type, status line, headers and content) is a parameter of the read methods.
- `ReadContentAsync` takes the bytes the connection placed in the buffer as a parameter and assumes the connection never places more than the buffer holds; the connection's reading is not part of this model.
- `ValueHttpRequest`'s own file is not part of this model; the handle is its two fields, and its methods forward to the store with its generation.
- `Reset` uses `Interlocked.Increment`; concurrency and atomicity are not modelled, the increment is sequential.
- `DisposeAsync` is modelled as the check followed by `Reset`, as the remarks on `Reset` require of implementations; draining unread response bytes is part of the connection and left out.
- Cancellation tokens, the captured stack trace of the faulted task, and the `ValueTask` machinery are left out; a task is its outcome.
- `LocalEndPoint`, `RemoteEndPoint` and `AltSvc` are left out: they are overridden by implementations and carry no logic here.
- `Uri` is reduced to the four values the request reads (`IdnHost`, `Port`, `HostNameType`, `PathAndQuery`); URI parsing is not modelled.
- `Ascii.GetBytes` works on Unicode scalar values; an unpaired UTF-16 surrogate, which a .NET string may hold, cannot be expressed.
- `Text.FormatInt` formats as the invariant culture does; a culture with another negative sign is not modelled.
- `Text.Join` takes a sequence without nulls; `string.Join`'s treatment of a null separator or null value as empty is not modelled.
- `WriteHeaders` takes the prepared header set as its list of name/value pairs; how the set is prepared is not modelled.
