/** Binary HTTP messages of known length, section 3 of RFC 9292. */
module BinaryHttp {
  import opened Wrappers
  import opened Varint

  const MAX_HEADERS := 128

  datatype Header = Header(name: Bytes, value: Bytes)

  datatype Request = Request(
    verb: Bytes, scheme: Bytes, authority: Bytes, path: Bytes, headers: seq<Header>, content: Bytes)

  datatype Response = Response(status: int, headers: seq<Header>, content: Bytes)

  // ---------------------------------------------------------------------------------------------
  // Encoding.

  function LowerByte(b: Byte): Byte {
    if 65 <= b <= 90 then b + 32 else b
  }

  /** Field names are written in lower case. */
  function Lower(name: Bytes): (lower: Bytes)
    ensures |lower| == |name|
  {
    seq(|name|, i requires 0 <= i < |name| => LowerByte(name[i]))
  }

  function Lowered(headers: seq<Header>): (out: seq<Header>)
    ensures |out| == |headers|
  {
    seq(|headers|, i requires 0 <= i < |headers| => Header(Lower(headers[i].name), headers[i].value))
  }

  /** Write b in front of what follows, with its length. */
  function Prefixed(b: Bytes, rest: Option<Bytes>): Option<Bytes> {
    var n :- EncodeVarint(|b|);
    var tail :- rest;
    Some(n + b + tail)
  }

  function EncodeHeaders(headers: seq<Header>): Option<Bytes> {
    if headers == [] then Some([])
    else if headers[0].name == [] then None
    else Prefixed(Lower(headers[0].name), Prefixed(headers[0].value, EncodeHeaders(headers[1..])))
  }

  /** Field section, content and the empty trailer section. */
  function EncodeBody(headers: seq<Header>, content: Bytes): Option<Bytes> {
    var section :- EncodeHeaders(headers);
    Prefixed(section, Prefixed(content, Some([0])))
  }

  function EncodeRequest(q: Request): Option<Bytes> {
    var rest :- Prefixed(q.verb, Prefixed(q.scheme, Prefixed(q.authority, Prefixed(q.path, EncodeBody(q.headers, q.content)))));
    Some([0] + rest)
  }

  function EncodeResponse(p: Response): Option<Bytes> {
    var status :- EncodeVarint(p.status);
    var rest :- EncodeBody(p.headers, p.content);
    Some([1] + (status + rest))
  }

  lemma PrefixedIs(b: Bytes, rest: Option<Bytes>)
    ensures Prefixed(b, rest) == if EncodeVarint(|b|) == None then None else Before(EncodeVarint(|b|).value + b, rest)
  {
  }

  method EncodeFieldSection(headers: seq<Header>) returns (r: Option<Bytes>)
    ensures r == EncodeHeaders(headers)
  {
    hide EncodeVarint, Prefixed, Before;
    var parts: Bytes := [];
    var i := 0;
    assert headers[0..] == headers;
    BeforeNothing(EncodeHeaders(headers));
    while i < |headers|
      invariant 0 <= i <= |headers|
      invariant EncodeHeaders(headers) == Before(parts, EncodeHeaders(headers[i..]))
    {
      var lower, value := Lower(headers[i].name), headers[i].value;
      ghost var rest := EncodeHeaders(headers[i + 1..]);
      assert headers[i..][1..] == headers[i + 1..] && headers[i..][0] == headers[i];
      PrefixedIs(lower, Prefixed(value, rest));
      PrefixedIs(value, rest);
      BeforeNone(parts);
      if lower == [] {
        return None;
      }
      var n, m := EncodeVarint(|lower|), EncodeVarint(|value|);
      if n == None {
        return None;
      }
      BeforeNone(n.value + lower);
      if m == None {
        return None;
      }
      BeforeMore(parts, n.value + lower, Before(m.value + value, rest));
      BeforeMore(parts + (n.value + lower), m.value + value, rest);
      parts := parts + (n.value + lower) + (m.value + value);
      i := i + 1;
    }
    BeforeEnd(parts);
    return Some(parts);
  }

  // ---------------------------------------------------------------------------------------------
  // Decoding.

  /** Headers until only stop bytes are left; got have been read already. */
  function TakeHeaders(s: Bytes, stop: int, got: nat): Option<(seq<Header>, Bytes)>
    decreases |s|
  {
    if |s| <= stop then
      if |s| == stop then Some(([], s)) else None
    else
      var name :- TakeString(s);
      var value :- TakeString(name.1);
      if name.0 == [] || got + 1 > MAX_HEADERS then None
      else
        TakesSome(s);
        TakesSome(name.1);
        var more :- TakeHeaders(value.1, stop, got + 1);
        Some(([Header(name.0, value.0)] + more.0, more.1))
  }

  lemma TakesSome(s: Bytes)
    ensures TakeString(s).Some? ==> |TakeString(s).value.1| < |s|
  {
  }

  function TakeFields(s: Bytes): Option<(seq<Header>, Bytes)> {
    var n :- TakeVarint(s);
    TakeHeaders(n.1, |n.1| - n.0, 0)
  }

  /** Field section and content; a trailer section, if there is one, must be empty. */
  function TakeBody(s: Bytes): Option<(seq<Header>, Bytes)> {
    var fields :- TakeFields(s);
    var content :- TakeString(fields.1);
    if content.1 == [] then Some((fields.0, content.0))
    else
      var trailer :- TakeVarint(content.1);
      if trailer.0 != 0 then None else Some((fields.0, content.0))
  }

  function TakeRequest(s: Bytes): Option<Request> {
    var framing :- TakeVarint(s);
    if framing.0 != 0 then None
    else
      var verb :- TakeString(framing.1);
      var scheme :- TakeString(verb.1);
      var authority :- TakeString(scheme.1);
      var path :- TakeString(authority.1);
      var body :- TakeBody(path.1);
      if verb.0 == [] || scheme.0 == [] || path.0 == [] then None
      else Some(Request(verb.0, scheme.0, authority.0, path.0, body.0, body.1))
  }

  function TakeResponse(s: Bytes): Option<Response> {
    var framing :- TakeVarint(s);
    if framing.0 != 1 then None
    else
      var status :- TakeVarint(framing.1);
      if status.0 < 200 || status.0 > 599 then None
      else
        var body :- TakeBody(status.1);
        Some(Response(status.0, body.0, body.1))
  }

  method DecodeFieldSection(reader: Reader) returns (r: Option<seq<Header>>)
    requires reader.Valid()
    modifies reader
    ensures reader.Valid()
    ensures match TakeFields(old(reader.Rest()))
            case None => r == None
            case Some((headers, rest)) => r == Some(headers) && reader.Rest() == rest
  {
    hide TakeVarint, TakeString;
    var length :- reader.ReadVarint();
    var end := reader.offset + length;
    ghost var stop := |reader.Rest()| - length;
    ghost var whole := TakeHeaders(reader.Rest(), stop, 0);
    var headers: seq<Header> := [];
    ReadNone(whole);
    while reader.offset < end
      invariant reader.Valid() && end == |reader.bytes| - stop
      invariant |headers| <= MAX_HEADERS
      invariant whole == ReadBefore(headers, TakeHeaders(reader.Rest(), stop, |headers|))
      decreases |reader.Rest()|
    {
      ghost var s, before := reader.Rest(), headers;
      TakesSome(s);
      var name :- reader.ReadString();
      TakesSome(reader.Rest());
      var value :- reader.ReadString();
      if name == [] {
        return None;
      }
      headers := headers + [Header(name, value)];
      if |headers| > MAX_HEADERS {
        return None;
      }
      ReadMore(before, Header(name, value), TakeHeaders(reader.Rest(), stop, |headers|));
    }
    if reader.offset != end {
      return None;
    }
    assert headers + [] == headers;
    return Some(headers);
  }

  /** Headers read before, then the rest. */
  function ReadBefore(headers: seq<Header>, rest: Option<(seq<Header>, Bytes)>): Option<(seq<Header>, Bytes)> {
    if rest == None then None else Some((headers + rest.value.0, rest.value.1))
  }

  lemma ReadNone(rest: Option<(seq<Header>, Bytes)>)
    ensures ReadBefore([], rest) == rest
  {
    if rest.Some? { assert [] + rest.value.0 == rest.value.0; }
  }

  lemma ReadMore(headers: seq<Header>, h: Header, rest: Option<(seq<Header>, Bytes)>)
    ensures ReadBefore(headers, ReadBefore([h], rest)) == ReadBefore(headers + [h], rest)
  {
    if rest.Some? { assert headers + ([h] + rest.value.0) == headers + [h] + rest.value.0; }
  }

  method DecodeBody(reader: Reader) returns (r: Option<(seq<Header>, Bytes)>)
    requires reader.Valid()
    modifies reader
    ensures reader.Valid() && r == TakeBody(old(reader.Rest()))
  {
    hide TakeVarint, TakeString, TakeFields;
    var headers :- DecodeFieldSection(reader);
    var content :- reader.ReadString();
    if reader.offset < |reader.bytes| {
      var trailer :- reader.ReadVarint();
      if trailer != 0 {
        return None;
      }
    }
    return Some((headers, content));
  }

  method DecodeRequest(bytes: Bytes) returns (r: Option<Request>)
    ensures r == TakeRequest(bytes)
  {
    hide TakeVarint, TakeString, TakeBody;
    var reader := new Reader(bytes);
    var framing :- reader.ReadVarint();
    if framing != 0 {
      return None;
    }
    var verb :- reader.ReadString();
    var scheme :- reader.ReadString();
    var authority :- reader.ReadString();
    var path :- reader.ReadString();
    var body :- DecodeBody(reader);
    if verb == [] || scheme == [] || path == [] {
      return None;
    }
    return Some(Request(verb, scheme, authority, path, body.0, body.1));
  }

  method DecodeResponse(bytes: Bytes) returns (r: Option<Response>)
    ensures r == TakeResponse(bytes)
  {
    hide TakeVarint, TakeString, TakeBody;
    var reader := new Reader(bytes);
    var framing :- reader.ReadVarint();
    if framing != 1 {
      return None;
    }
    var status :- reader.ReadVarint();
    if status < 200 || status > 599 {
      return None;
    }
    var body :- DecodeBody(reader);
    return Some(Response(status, body.0, body.1));
  }

  // ---------------------------------------------------------------------------------------------
  // Round trips.

  /** A string written in front of anything reads back, leaving what follows. */
  lemma StringRoundTrip(b: Bytes, rest: Option<Bytes>)
    requires Prefixed(b, rest).Some?
    ensures rest.Some? && TakeString(Prefixed(b, rest).value) == Some((b, rest.value))
  {
    hide EncodeVarint, TakeVarint;
    EncodableIff(|b|);
    var n, tail := EncodeVarint(|b|).value, rest.value;
    assert n + b + tail == n + (b + tail);
    VarintRoundTrip(|b|, b + tail);
    assert (b + tail)[..|b|] == b && (b + tail)[|b|..] == tail;
  }

  /** Headers read back lowercased, unless there are more than the decoder accepts. */
  lemma {:induction false} HeadersRoundTrip(headers: seq<Header>, rest: Bytes, got: nat)
    requires EncodeHeaders(headers).Some? && got <= MAX_HEADERS
    ensures TakeHeaders(EncodeHeaders(headers).value + rest, |rest|, got)
            == if got + |headers| <= MAX_HEADERS then Some((Lowered(headers), rest)) else None
    decreases |headers|
  {
    hide EncodeVarint, TakeVarint, TakeString, Lower;
    var enc := EncodeHeaders(headers).value;
    if headers == [] {
      assert enc + rest == rest;
    } else {
      var name, value, more := Lower(headers[0].name), headers[0].value, EncodeHeaders(headers[1..]);
      assert Prefixed(value, more).Some? && more.Some?;
      PrefixedThen(name, Prefixed(value, more).value, rest);
      PrefixedThen(value, more.value, rest);
      StringRoundTrip(name, Some(Prefixed(value, more).value + rest));
      StringRoundTrip(value, Some(more.value + rest));
      NotEmptyAfter(enc, rest, name, Prefixed(value, more).value);
      if got < MAX_HEADERS {
        HeadersRoundTrip(headers[1..], rest, got + 1);
        LoweredFirst(headers);
      }
    }
  }

  lemma LoweredFirst(headers: seq<Header>)
    requires headers != []
    ensures Lowered(headers) == [Header(Lower(headers[0].name), headers[0].value)] + Lowered(headers[1..])
  {
    hide Lower;
  }

  lemma PrefixedThen(b: Bytes, tail: Bytes, rest: Bytes)
    requires Prefixed(b, Some(tail)).Some?
    ensures Prefixed(b, Some(tail)).value + rest == Prefixed(b, Some(tail + rest)).value
    ensures Prefixed(b, Some(tail + rest)).Some?
  {
    var n := EncodeVarint(|b|).value;
    assert n + b + tail + rest == n + b + (tail + rest);
  }

  lemma NotEmptyAfter(enc: Bytes, rest: Bytes, b: Bytes, tail: Bytes)
    requires Prefixed(b, Some(tail)) == Some(enc) && b != []
    ensures |enc + rest| > |rest|
  {
  }

  /** The body reads back, exactly when the decoder accepts that many headers. */
  lemma BodyRoundTrip(headers: seq<Header>, content: Bytes)
    requires EncodeBody(headers, content).Some?
    ensures TakeBody(EncodeBody(headers, content).value)
            == if |headers| <= MAX_HEADERS then Some((Lowered(headers), content)) else None
  {
    hide EncodeVarint, EncodeHeaders, TakeHeaders, TakeString, Lowered;
    var section := EncodeHeaders(headers).value;
    var tail := Prefixed(content, Some([0]));
    EncodableIff(|section|);
    assert tail.Some?;
    var n := EncodeVarint(|section|).value;
    assert EncodeBody(headers, content).value == n + (section + tail.value);
    VarintRoundTrip(|section|, section + tail.value);
    HeadersRoundTrip(headers, tail.value, 0);
    StringRoundTrip(content, Some([0]));
    ZeroTrailer();
  }

  lemma ZeroTrailer()
    ensures TakeVarint([0]) == Some((0, []))
  {
    hide TakeVarint;
    VarintRoundTrip(0, []);
    assert EncodeVarint(0).value + [] == [0];
  }

  lemma Framing(f: Byte, rest: Bytes)
    requires f <= 1
    ensures TakeVarint([f] + rest) == Some((f, rest))
  {
    hide TakeVarint;
    VarintRoundTrip(f, rest);
    assert EncodeVarint(f).value == [f];
  }

  /** Everything the encoder needs of a field section. */
  predicate Encodable(b: Bytes) {
    |b| <= VARINT_MAX
  }

  predicate HeadersEncodable(headers: seq<Header>) {
    forall i | 0 <= i < |headers| :: headers[i].name != [] && Encodable(headers[i].name) && Encodable(headers[i].value)
  }

  lemma {:induction false} HeadersEncodableIff(headers: seq<Header>)
    ensures EncodeHeaders(headers).Some? <==> HeadersEncodable(headers)
    decreases |headers|
  {
    hide EncodeVarint, Lower;
    if headers != [] {
      HeadersEncodableIff(headers[1..]);
      EncodableIff(|Lower(headers[0].name)|);
      EncodableIff(|headers[0].value|);
      assert headers == [headers[0]] + headers[1..];
      assert HeadersEncodable(headers) <==>
             HeadersEncodable(headers[1..]) && headers[0].name != [] && Encodable(headers[0].name) && Encodable(headers[0].value);
    }
  }

  /** Which bodies can be written. */
  ghost predicate BodyEncodable(headers: seq<Header>, content: Bytes) {
    HeadersEncodable(headers) && Encodable(content) && (EncodeHeaders(headers).Some? ==> Encodable(EncodeHeaders(headers).value))
  }

  lemma BodyEncodableIff(headers: seq<Header>, content: Bytes)
    ensures EncodeBody(headers, content).Some? <==> BodyEncodable(headers, content)
  {
    hide EncodeVarint, EncodeHeaders, HeadersEncodable;
    HeadersEncodableIff(headers);
    EncodableIff(|content|);
    if EncodeHeaders(headers).Some? { EncodableIff(|EncodeHeaders(headers).value|); }
  }

  /** A request is written exactly when its parts fit, and then reads back, with field names in lower
  case, exactly when it has a method, a scheme and a path and not too many headers. */
  lemma RequestRoundTrip(q: Request)
    ensures EncodeRequest(q).Some? <==>
              Encodable(q.verb) && Encodable(q.scheme) && Encodable(q.authority) && Encodable(q.path) && BodyEncodable(q.headers, q.content)
    ensures EncodeRequest(q).Some? ==>
              TakeRequest(EncodeRequest(q).value)
              == if q.verb != [] && q.scheme != [] && q.path != [] && |q.headers| <= 128
                 then Some(q.(headers := Lowered(q.headers))) else None
  {
    hide EncodeVarint, EncodeBody, TakeVarint, TakeString, TakeBody, Lowered, BodyEncodable, Encodable;
    var body := EncodeBody(q.headers, q.content);
    var d := Prefixed(q.path, body);
    var c := Prefixed(q.authority, d);
    var b := Prefixed(q.scheme, c);
    var a := Prefixed(q.verb, b);
    BodyEncodableIff(q.headers, q.content);
    StringEncodableIff(q.path, body);
    StringEncodableIff(q.authority, d);
    StringEncodableIff(q.scheme, c);
    StringEncodableIff(q.verb, b);
    if EncodeRequest(q).Some? {
      Framing(0, a.value);
      StringRoundTrip(q.verb, b);
      StringRoundTrip(q.scheme, c);
      StringRoundTrip(q.authority, d);
      StringRoundTrip(q.path, body);
      BodyRoundTrip(q.headers, q.content);
    }
  }

  lemma StringEncodableIff(b: Bytes, rest: Option<Bytes>)
    ensures Prefixed(b, rest).Some? <==> Encodable(b) && rest.Some?
  {
    hide EncodeVarint;
    EncodableIff(|b|);
  }

  /** The same for a response: it reads back exactly when its status is final and valid. */
  lemma ResponseRoundTrip(p: Response)
    ensures EncodeResponse(p).Some? <==> 0 <= p.status <= 1_073_741_823 && BodyEncodable(p.headers, p.content)
    ensures EncodeResponse(p).Some? ==>
              TakeResponse(EncodeResponse(p).value)
              == if 200 <= p.status <= 599 && |p.headers| <= 128
                 then Some(p.(headers := Lowered(p.headers))) else None
  {
    hide EncodeVarint, EncodeBody, TakeVarint, TakeBody, Lowered, BodyEncodable;
    BodyEncodableIff(p.headers, p.content);
    EncodableIff(p.status);
    if EncodeResponse(p).Some? {
      var status, rest := EncodeVarint(p.status).value, EncodeBody(p.headers, p.content).value;
      Framing(1, status + rest);
      VarintRoundTrip(p.status, rest);
      BodyRoundTrip(p.headers, p.content);
    }
  }

  /** Lowercasing again changes nothing. */
  lemma LoweredTwice(headers: seq<Header>)
    ensures Lowered(Lowered(headers)) == Lowered(headers)
  {
    forall i | 0 <= i < |headers|
      ensures Lower(Lower(headers[i].name)) == Lower(headers[i].name)
    {
    }
  }

  lemma {:induction false} TakesFew(s: Bytes, stop: int, got: nat)
    requires got <= MAX_HEADERS
    ensures TakeHeaders(s, stop, got).Some? ==> got + |TakeHeaders(s, stop, got).value.0| <= MAX_HEADERS
    decreases |s|
  {
    hide TakeString;
    if TakeHeaders(s, stop, got).Some? && |s| > stop {
      var name := TakeString(s).value;
      var value := TakeString(name.1).value;
      TakesSome(s);
      TakesSome(name.1);
      TakesFew(value.1, stop, got + 1);
    }
  }

  /** What decoding accepts is complete. */
  lemma DecodedIsComplete(s: Bytes)
    ensures TakeRequest(s).Some? ==>
              var q := TakeRequest(s).value; q.verb != [] && q.scheme != [] && q.path != [] && |q.headers| <= MAX_HEADERS
  {
    hide TakeVarint, TakeString, TakeHeaders;
    if TakeRequest(s).Some? {
      var framing := TakeVarint(s).value;
      var verb := TakeString(framing.1).value;
      var scheme := TakeString(verb.1).value;
      var authority := TakeString(scheme.1).value;
      var path := TakeString(authority.1).value;
      var n := TakeVarint(path.1).value;
      TakesFew(n.1, |n.1| - n.0, 0);
    }
  }

  /** A message and its lowercased form are written as the same bytes. */
  lemma {:induction false} LoweredWritesSame(headers: seq<Header>)
    ensures EncodeHeaders(Lowered(headers)) == EncodeHeaders(headers)
    decreases |headers|
  {
    hide EncodeVarint, Prefixed, Lower;
    if headers != [] {
      LoweredFirst(headers);
      LoweredWritesSame(headers[1..]);
      LowerTwice(headers[0].name);
      assert Lowered(headers)[1..] == Lowered(headers[1..]);
    }
  }

  lemma LowerTwice(name: Bytes)
    ensures Lower(Lower(name)) == Lower(name)
  {
  }

  /** Whatever bytes were decoded: if the request can be written again at all, it reads back with names
  in lower case, and that form is written as the same bytes, so from then on nothing changes. */
  lemma DecodedReencodes(s: Bytes)
    requires TakeRequest(s).Some? && EncodeRequest(TakeRequest(s).value).Some?
    ensures var q := TakeRequest(s).value; var low := q.(headers := Lowered(q.headers));
            TakeRequest(EncodeRequest(q).value) == Some(low) && EncodeRequest(low) == EncodeRequest(q)
  {
    hide TakeRequest, Lowered, Encodable, BodyEncodable, EncodeHeaders, Prefixed;
    var q := TakeRequest(s).value;
    DecodedIsComplete(s);
    RequestRoundTrip(q);
    LoweredWritesSame(q.headers);
  }
}
