/**
 * The generation-versioned HTTP request store (`HttpRequest`) and the handle
 * (`ValueHttpRequest`) that callers use to reach it.
 *
 * A store is reused for many requests. It keeps a private 32-bit generation;
 * a handle is the pair (store, generation at the time the handle was made).
 * Every operation receives the caller's generation and refuses it with an
 * `ObjectDisposedException` once the store has been reset since, for any
 * number of resets from 1 to 2^32 - 1 (the counter wraps after 2^32).
 */
module HttpPrimitives {
  import Wrappers
  import opened Ascii
  import opened Text
  import opened Generation

  // ---------------------------------------------------------------------------
  // Method constants

  /** The GET method. */
  function GetMethod(): (m: Bytes)
    ensures m == GetBytes("GET") && GetString(m) == "GET"
  {
    [0x47, 0x45, 0x54]
  }

  /** The POST method. */
  function PostMethod(): (m: Bytes)
    ensures m == GetBytes("POST") && GetString(m) == "POST"
  {
    [0x50, 0x4F, 0x53, 0x54]
  }

  /** The PUT method. */
  function PutMethod(): (m: Bytes)
    ensures m == GetBytes("PUT") && GetString(m) == "PUT"
  {
    [0x50, 0x55, 0x54]
  }

  /** The CONNECT method. */
  function ConnectMethod(): (m: Bytes)
    ensures m == GetBytes("CONNECT") && GetString(m) == "CONNECT"
  {
    [0x43, 0x4F, 0x4E, 0x4E, 0x45, 0x43, 0x54]
  }

  // ---------------------------------------------------------------------------
  // Values the operations exchange

  /** The name an `ObjectDisposedException` raised by the store carries. */
  const RequestTypeName: string := "HttpRequest"

  datatype Error = ObjectDisposed(objectName: string)

  /** What a synchronous operation does: return normally or throw. */
  datatype Outcome = Pass | Fail(error: Error)

  /**
   * A `ValueTask<T>`: the default value (completed successfully, with the
   * default result), a completed result, or a faulted task carrying an error.
   * The non-generic `ValueTask` is `ValueTask<()>`.
   */
  datatype ValueTask<T> = DefaultTask | FromResult(result: T) | FromException(error: Error) {
    predicate IsFaulted() {
      FromException?
    }
  }

  /** The kind of element a read produced. */
  datatype HttpReadType =
    | None
    | FinalResponse
    | InformationalResponse
    | Headers
    | Content
    | TrailingHeaders
    | EndOfStream
    | AltSvc

  datatype HttpVersion = HttpVersion(major: nat, minor: nat)

  /** What a status line carries: the response version and the status code. */
  datatype StatusLine = StatusLine(version: HttpVersion, statusCode: int)

  datatype Header = Header(name: Bytes, value: Bytes)

  /** `System.Net.Http.HttpMethod`, through the method name it carries. */
  datatype HttpMethod = HttpMethod(name: string)

  datatype UriHostNameType = Unknown | Basic | Dns | IPv4 | IPv6

  /** The parts of a `System.Uri` the request reads. */
  datatype Uri = Uri(idnHost: string, port: int, hostNameType: UriHostNameType, pathAndQuery: string)

  /** A call the store admitted and handed on to its implementation. */
  datatype Operation =
    | Configure(contentLength: Wrappers.Option<int>, hasTrailingHeaders: bool)
    | WriteConnect(authority: Bytes)
    | WriteRequestLine(requestMethod: Bytes, authority: Bytes, pathAndQuery: Bytes)
    | WriteHeaderPair(header: Header)
    | WriteHeaderSet(headers: seq<Header>)
    | WriteTrailingHeaderPair(header: Header)
    | FlushHeaders
    | WriteContent(buffer: Bytes)
    | WriteContentBuffers(buffers: seq<Bytes>)
    | FlushContent
    | CompleteRequest
    | Read
    | ReadHeaders
    | ReadContent(bufferLength: nat)
    | Dispose

  /** An admitted call together with the generation the caller presented. */
  datatype Call = Call(version: Int32, op: Operation)

  /** A handle: the store and the generation it was taken at. */
  datatype ValueHttpRequest = ValueHttpRequest(request: HttpRequest, version: Int32)

  // ---------------------------------------------------------------------------
  // Authority

  /**
   * The authority for a host and port: the host, enclosed in brackets when it
   * is IPv6, then ':' and the decimal port. Nothing else is added, so both
   * read back from it unchanged.
   */
  function Authority(host: string, port: int, isIPv6: bool): (a: string)
    ensures ParseAuthority(a, isIPv6) == Wrappers.Some((host, port))
  {
    var hostPart := if isIPv6 then "[" + host + "]" else host;
    var p := FormatInt(port);
    LastIndexOfBeforeSuffix(hostPart, ':', p);
    assert (hostPart + [':'] + p)[..|hostPart|] == hostPart;
    assert (hostPart + [':'] + p)[|hostPart| + 1..] == p;
    FormatIntRoundTrip(port);
    hostPart + ":" + p
  }

  /** Splits an authority at its last ':' and removes the brackets of an IPv6 host. */
  function ParseAuthority(authority: string, isIPv6: bool): Wrappers.Option<(string, int)> {
    match LastIndexOf(authority, ':')
    case None => Wrappers.None
    case Some(i) =>
      var hostPart := authority[..i];
      match ParseInt(authority[i + 1..])
      case None => Wrappers.None
      case Some(port) =>
        if !isIPv6 then Wrappers.Some((hostPart, port))
        else if 2 <= |hostPart| && hostPart[0] == '[' && hostPart[|hostPart| - 1] == ']' then
          Wrappers.Some((hostPart[1..|hostPart| - 1], port))
        else Wrappers.None
  }

  /** An IPv6 host is written in brackets, any other host as it is. */
  lemma AuthorityShape(host: string, port: int)
    ensures Authority(host, port, true) == "[" + host + "]:" + FormatInt(port)
    ensures Authority(host, port, false) == host + ":" + FormatInt(port)
  {
  }

  // ---------------------------------------------------------------------------
  // The store

  class HttpRequest {
    /** The generation; a handle is valid while its snapshot equals this. */
    var version: Int32
    /** The kind of the element the last read produced. */
    var readType: HttpReadType
    /** The response's HTTP version (`Version`), set by a status line. */
    var httpVersion: Wrappers.Option<HttpVersion>
    /** The response's status code, set by a status line. */
    var statusCode: int
    /** The calls admitted so far, in order: what the implementation was asked to do. */
    var log: seq<Call>

    constructor ()
      ensures version == 0 && readType == None && httpVersion == Wrappers.None
      ensures statusCode == 0 && log == []
    {
      version := 0;
      readType := None;
      httpVersion := Wrappers.None;
      statusCode := 0;
      log := [];
    }

    /** True when `v` is not the current generation. */
    predicate IsDisposed(v: Int32)
      reads this
    {
      v != version
    }

    /** A handle on the current generation; it stays valid until the next reset. */
    function GetValueRequest(): (h: ValueHttpRequest)
      reads this
      ensures h.request == this && !IsDisposed(h.version)
    {
      ValueHttpRequest(this, version)
    }

    /**
     * Ends the current generation: the handles carrying it become stale
     * (`ResetRepeatedly` says for how many further resets they stay so).
     */
    method Reset()
      modifies this`version
      ensures version == Increment(old(version))
      ensures IsDisposed(old(version)) && GetValueRequest() != old(GetValueRequest())
      ensures readType == old(readType) && httpVersion == old(httpVersion)
      ensures statusCode == old(statusCode) && log == old(log)
    {
      version := Increment(version);
    }

    /** Throws `ObjectDisposedException` unless `v` is the current handle's generation. */
    function ThrowIfDisposed(v: Int32): (o: Outcome)
      reads this
      ensures o.Pass? <==> v == GetValueRequest().version
      ensures o.Fail? ==> o.error == ObjectDisposed(RequestTypeName)
    {
      if IsDisposed(v) then Fail(ObjectDisposed(RequestTypeName)) else Pass
    }

    /**
     * The `out ValueTask` check: true with a faulted task carrying what
     * `ThrowIfDisposed` would throw, or false with the default task.
     */
    function IsDisposedTask(v: Int32): (r: (bool, ValueTask<()>))
      reads this
      ensures r.0 <==> ThrowIfDisposed(v).Fail?
      ensures r.1.IsFaulted() <==> r.0
      ensures r.0 ==> r.1.error == ThrowIfDisposed(v).error
      ensures !r.0 ==> r.1 == DefaultTask
    {
      if IsDisposed(v) then (true, FromException(ObjectDisposed(RequestTypeName))) else (false, DefaultTask)
    }

    /** The `out ValueTask<T>` check, with the same agreement as `IsDisposedTask`. */
    function IsDisposedTaskOf<T>(v: Int32): (r: (bool, ValueTask<T>))
      reads this
      ensures r.0 <==> ThrowIfDisposed(v).Fail?
      ensures r.1.IsFaulted() <==> r.0
      ensures r.0 ==> r.1.error == ThrowIfDisposed(v).error
      ensures !r.0 ==> r.1 == DefaultTask
    {
      if IsDisposed(v) then (true, FromException(ObjectDisposed(RequestTypeName))) else (false, DefaultTask)
    }

    /** A synchronous operation: checked with `ThrowIfDisposed`, then handed on. */
    method Admit(v: Int32, op: Operation) returns (o: Outcome)
      modifies this`log
      ensures o == ThrowIfDisposed(v)
      ensures log == old(log) + if o.Pass? then [Call(v, op)] else []
    {
      o := ThrowIfDisposed(v);
      if o.Pass? {
        log := log + [Call(v, op)];
      }
    }

    /** An asynchronous operation: checked with `IsDisposedTask`, then handed on. */
    method AdmitAsync(v: Int32, op: Operation) returns (t: ValueTask<()>)
      modifies this`log
      ensures t.IsFaulted() <==> IsDisposed(v)
      ensures t == IsDisposedTask(v).1
      ensures log == old(log) + if t.IsFaulted() then [] else [Call(v, op)]
    {
      var disposed;
      disposed, t := IsDisposedTask(v).0, IsDisposedTask(v).1;
      if !disposed {
        log := log + [Call(v, op)];
      }
    }

    // --- the operations every implementation provides -----------------------

    method DisposeAsync(v: Int32) returns (t: ValueTask<()>)
      modifies this`version, this`log
      ensures t == old(IsDisposedTask(v)).1
      ensures t.IsFaulted() ==> version == old(version) && log == old(log)
      ensures !t.IsFaulted() ==> version == Increment(old(version)) && IsDisposed(v)
      ensures !t.IsFaulted() ==> log == old(log) + [Call(v, Dispose)]
    {
      t := AdmitAsync(v, Dispose);
      if !t.IsFaulted() {
        Reset();
      }
    }

    method ConfigureRequest(v: Int32, contentLength: Wrappers.Option<int>, hasTrailingHeaders: bool) returns (o: Outcome)
      modifies this`log
      ensures o == ThrowIfDisposed(v)
      ensures log == old(log) + if o.Pass? then [Call(v, Configure(contentLength, hasTrailingHeaders))] else []
    {
      o := Admit(v, Configure(contentLength, hasTrailingHeaders));
    }

    method WriteConnectRequest(v: Int32, authority: Bytes) returns (o: Outcome)
      modifies this`log
      ensures o == ThrowIfDisposed(v)
      ensures log == old(log) + if o.Pass? then [Call(v, WriteConnect(authority))] else []
    {
      o := Admit(v, WriteConnect(authority));
    }

    method WriteRequest(v: Int32, requestMethod: Bytes, authority: Bytes, pathAndQuery: Bytes) returns (o: Outcome)
      modifies this`log
      ensures o == ThrowIfDisposed(v)
      ensures log == old(log) + if o.Pass? then [Call(v, WriteRequestLine(requestMethod, authority, pathAndQuery))] else []
    {
      o := Admit(v, WriteRequestLine(requestMethod, authority, pathAndQuery));
    }

    method WriteHeader(v: Int32, name: Bytes, value: Bytes) returns (o: Outcome)
      modifies this`log
      ensures o == ThrowIfDisposed(v)
      ensures log == old(log) + if o.Pass? then [Call(v, WriteHeaderPair(Header(name, value)))] else []
    {
      o := Admit(v, WriteHeaderPair(Header(name, value)));
    }

    /** The prepared-header-set overload, with the set given as its name/value pairs. */
    method WriteHeaders(v: Int32, headers: seq<Header>) returns (o: Outcome)
      modifies this`log
      ensures o == ThrowIfDisposed(v)
      ensures log == old(log) + if o.Pass? then [Call(v, WriteHeaderSet(headers))] else []
    {
      o := Admit(v, WriteHeaderSet(headers));
    }

    method WriteTrailingHeader(v: Int32, name: Bytes, value: Bytes) returns (o: Outcome)
      modifies this`log
      ensures o == ThrowIfDisposed(v)
      ensures log == old(log) + if o.Pass? then [Call(v, WriteTrailingHeaderPair(Header(name, value)))] else []
    {
      o := Admit(v, WriteTrailingHeaderPair(Header(name, value)));
    }

    method FlushHeadersAsync(v: Int32) returns (t: ValueTask<()>)
      modifies this`log
      ensures t == IsDisposedTask(v).1
      ensures log == old(log) + if t.IsFaulted() then [] else [Call(v, FlushHeaders)]
    {
      t := AdmitAsync(v, FlushHeaders);
    }

    method WriteContentAsync(v: Int32, buffer: Bytes) returns (t: ValueTask<()>)
      modifies this`log
      ensures t == IsDisposedTask(v).1
      ensures log == old(log) + if t.IsFaulted() then [] else [Call(v, WriteContent(buffer))]
    {
      t := AdmitAsync(v, WriteContent(buffer));
    }

    method WriteContentBuffersAsync(v: Int32, buffers: seq<Bytes>) returns (t: ValueTask<()>)
      modifies this`log
      ensures t == IsDisposedTask(v).1
      ensures log == old(log) + if t.IsFaulted() then [] else [Call(v, WriteContentBuffers(buffers))]
    {
      t := AdmitAsync(v, WriteContentBuffers(buffers));
    }

    method FlushContentAsync(v: Int32) returns (t: ValueTask<()>)
      modifies this`log
      ensures t == IsDisposedTask(v).1
      ensures log == old(log) + if t.IsFaulted() then [] else [Call(v, FlushContent)]
    {
      t := AdmitAsync(v, FlushContent);
    }

    method CompleteRequestAsync(v: Int32) returns (t: ValueTask<()>)
      modifies this`log
      ensures t == IsDisposedTask(v).1
      ensures log == old(log) + if t.IsFaulted() then [] else [Call(v, CompleteRequest)]
    {
      t := AdmitAsync(v, CompleteRequest);
    }

    /**
     * Reads the next element. What the connection parsed (`parsed`, and the
     * status line when it is a response) is an input; the store records it.
     */
    method ReadAsync(v: Int32, parsed: HttpReadType, line: StatusLine) returns (t: ValueTask<HttpReadType>)
      modifies this`log, this`readType, this`httpVersion, this`statusCode
      ensures t.IsFaulted() <==> IsDisposed(v)
      ensures t.IsFaulted() ==> t == IsDisposedTaskOf<HttpReadType>(v).1
      ensures t.IsFaulted() ==> log == old(log) && readType == old(readType)
      ensures !t.IsFaulted() ==> t == FromResult(parsed) && readType == parsed
      ensures !t.IsFaulted() ==> log == old(log) + [Call(v, Read)]
      ensures if !t.IsFaulted() && parsed in {FinalResponse, InformationalResponse}
              then httpVersion == Wrappers.Some(line.version) && statusCode == line.statusCode
              else httpVersion == old(httpVersion) && statusCode == old(statusCode)
    {
      var disposed;
      disposed, t := IsDisposedTaskOf<HttpReadType>(v).0, IsDisposedTaskOf<HttpReadType>(v).1;
      if !disposed {
        log := log + [Call(v, Read)];
        readType := parsed;
        if parsed == FinalResponse || parsed == InformationalResponse {
          httpVersion := Wrappers.Some(line.version);
          statusCode := line.statusCode;
        }
        t := FromResult(parsed);
      }
    }

    /**
     * Reads headers into a sink. `parsed` is what the connection read; the
     * sink receives `delivered`, in order, and nothing for a stale generation.
     */
    method ReadHeadersAsync(v: Int32, parsed: seq<Header>) returns (t: ValueTask<()>, delivered: seq<Header>)
      modifies this`log
      ensures t == IsDisposedTask(v).1
      ensures delivered == if t.IsFaulted() then [] else parsed
      ensures log == old(log) + if t.IsFaulted() then [] else [Call(v, ReadHeaders)]
    {
      t := AdmitAsync(v, ReadHeaders);
      delivered := if t.IsFaulted() then [] else parsed;
    }

    /**
     * Reads content into a buffer of `bufferLength` bytes; `received` is what
     * the connection had for it. The result is the number of bytes read.
     */
    method ReadContentAsync(v: Int32, bufferLength: nat, received: Bytes) returns (t: ValueTask<int>, filled: Bytes)
      requires |received| <= bufferLength
      modifies this`log
      ensures t.IsFaulted() <==> IsDisposed(v)
      ensures t.IsFaulted() ==> t == IsDisposedTaskOf<int>(v).1 && filled == [] && log == old(log)
      ensures !t.IsFaulted() ==> t == FromResult(|received|) && filled == received
      ensures !t.IsFaulted() ==> 0 <= t.result <= bufferLength
      ensures !t.IsFaulted() ==> log == old(log) + [Call(v, ReadContent(bufferLength))]
    {
      var disposed;
      disposed, t := IsDisposedTaskOf<int>(v).0, IsDisposedTaskOf<int>(v).1;
      filled := [];
      if !disposed {
        log := log + [Call(v, ReadContent(bufferLength))];
        t, filled := FromResult(|received|), received;
      }
    }

    // --- convenience overloads built on the operations above ---------------

    /** Writes the request line for `uri`, with the authority built from its host and port. */
    method WriteRequestForUri(v: Int32, requestMethod: HttpMethod, uri: Uri) returns (o: Outcome)
      modifies this`log
      ensures o == ThrowIfDisposed(v)
      ensures log == old(log) +
        if o.Pass? then
          [Call(v, WriteRequestLine(GetBytes(requestMethod.name),
                                    GetBytes(Authority(uri.idnHost, uri.port, uri.hostNameType == IPv6)),
                                    GetBytes(uri.pathAndQuery)))]
        else []
    {
      var authority := Authority(uri.idnHost, uri.port, uri.hostNameType == IPv6);
      o := WriteRequest(v, GetBytes(requestMethod.name), GetBytes(authority), GetBytes(uri.pathAndQuery));
    }

    method WriteHeaderString(v: Int32, name: string, value: string) returns (o: Outcome)
      modifies this`log
      ensures o == ThrowIfDisposed(v)
      ensures log == old(log) + if o.Pass? then [Call(v, WriteHeaderPair(Header(GetBytes(name), GetBytes(value))))] else []
    {
      o := WriteHeader(v, GetBytes(name), GetBytes(value));
    }

    /** Writes several values of one header as a single value, joined with `separator`. */
    method WriteHeaderValues(v: Int32, name: string, values: seq<string>, separator: string) returns (o: Outcome)
      modifies this`log
      ensures o == ThrowIfDisposed(v)
      ensures log == old(log) +
        if o.Pass? then [Call(v, WriteHeaderPair(Header(GetBytes(name), GetBytes(Join(separator, values)))))] else []
    {
      o := WriteHeaderString(v, name, Join(separator, values));
    }

    method WriteTrailingHeaderString(v: Int32, name: string, value: string) returns (o: Outcome)
      modifies this`log
      ensures o == ThrowIfDisposed(v)
      ensures log == old(log) + if o.Pass? then [Call(v, WriteTrailingHeaderPair(Header(GetBytes(name), GetBytes(value))))] else []
    {
      o := WriteTrailingHeader(v, GetBytes(name), GetBytes(value));
    }

    /** Writes several values of one trailing header as a single value, joined with `separator`. */
    method WriteTrailingHeaderValues(v: Int32, name: string, values: seq<string>, separator: string) returns (o: Outcome)
      modifies this`log
      ensures o == ThrowIfDisposed(v)
      ensures log == old(log) +
        if o.Pass? then [Call(v, WriteTrailingHeaderPair(Header(GetBytes(name), GetBytes(Join(separator, values)))))] else []
    {
      o := WriteTrailingHeaderString(v, name, Join(separator, values));
    }
  }

  // ---------------------------------------------------------------------------
  // Generation safety across resets

  /**
   * Exactly one generation is live at a time: a snapshot passes the check
   * precisely when it is the one the store's current handle carries, and the
   * next reset takes it out of service.
   */
  lemma LiveGeneration(r: HttpRequest, v: Int32)
    ensures !r.IsDisposed(v) <==> ValueHttpRequest(r, v) == r.GetValueRequest()
    ensures !r.IsDisposed(v) ==> Increment(v) != r.version
  {
  }

  /**
   * Resets the store `k` times. A handle taken before is disposed afterwards
   * exactly when `k` is not a multiple of 2^32: it stays disposed for every
   * count of further resets from 1 to 2^32 - 1.
   */
  method ResetRepeatedly(r: HttpRequest, k: nat)
    modifies r`version
    ensures r.version == IncrementN(old(r.version), k)
    ensures r.IsDisposed(old(r.version)) <==> k % TwoTo32 != 0
  {
    var i := 0;
    while i < k
      invariant 0 <= i <= k
      invariant r.version == IncrementN(old(r.version), i)
    {
      r.Reset();
      i := i + 1;
    }
    GenerationReturns(old(r.version), k);
  }

  // ---------------------------------------------------------------------------
  // Generation safety, end to end

  /**
   * A handle used after its request was disposed is refused: on a new store,
   * a header written through a handle is admitted, the handle's dispose
   * succeeds, and the same header written through it afterwards throws
   * `ObjectDisposedException`.
   */
  method UseAfterDispose(name: string, value: string) returns (before: Outcome, disposed: ValueTask<()>, after: Outcome)
    ensures before == Pass && !disposed.IsFaulted()
    ensures after == Fail(ObjectDisposed(RequestTypeName))
  {
    var request := new HttpRequest();
    var handle := request.GetValueRequest();
    before := request.WriteHeaderString(handle.version, name, value);
    disposed := request.DisposeAsync(handle.version);
    after := request.WriteHeaderString(handle.version, name, value);
  }
}
