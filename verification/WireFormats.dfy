/** The bytes themselves: what the codecs write and read, place by place. */
module WireFormats {
  import opened Wrappers
  import opened Varint
  import opened BinaryHttp
  import opened KeyConfigs

  // ---------------------------------------------------------------------------------------------
  // Numbers.

  /** One, two or four bytes, most significant first, marked 0, 1 or 2 in the top two bits. */
  lemma VarintWrites(value: int)
    ensures EncodeVarint(value).Some? <==> 0 <= value <= 1_073_741_823
    ensures EncodeVarint(value).Some? ==>
              var b := EncodeVarint(value).value;
              if value < 64 then b == [value]
              else if value < 16_384 then |b| == 2 && (b[0] as int) * 256 + b[1] as int == 16_384 + value
              else |b| == 4 && Four(b) == 2_147_483_648 + value
  {
    if EncodeVarint(value).Some? && value >= 16_384 { FourDigits(value); }
  }

  function Four(b: Bytes): int
    requires |b| >= 4
  {
    (b[0] as int) * 16_777_216 + (b[1] as int) * 65_536 + (b[2] as int) * 256 + b[3] as int
  }

  function Eight(b: Bytes): int
    requires |b| >= 8
  {
    Four(b) * 4_294_967_296 + Four(b[4..])
  }

  /** The reader gives this number and leaves the bytes from place n on. */
  predicate Gives(s: Bytes, v: int, n: nat) {
    n <= |s| && TakeVarint(s).Some? && TakeVarint(s).value.0 == v && TakeVarint(s).value.1 == s[n..]
  }

  /** The number the first bytes spell and what follows it, if they spell one up to 2^53 - 1. */
  lemma VarintReads(s: Bytes)
    ensures s == [] ==> TakeVarint(s) == None
    ensures s != [] && s[0] < 64 ==> Gives(s, s[0], 1)
    ensures s != [] && 64 <= s[0] < 128 ==>
              if |s| < 2 then TakeVarint(s) == None else Gives(s, (s[0] as int) * 256 + s[1] as int - 16_384, 2)
    ensures s != [] && 128 <= s[0] < 192 ==>
              if |s| < 4 then TakeVarint(s) == None else Gives(s, Four(s) - 2_147_483_648, 4)
    ensures s != [] && 192 <= s[0] ==>
              if |s| < 8 || Eight(s) - 13_835_058_055_282_163_712 > 9_007_199_254_740_991 then TakeVarint(s) == None
              else Gives(s, Eight(s) - 13_835_058_055_282_163_712, 8)
  {
    hide Digits;
    if s != [] && s[0] < 64 {
      assert s[1..1] == [];
      Digits0(s[0] % 0x40);
    } else if |s| >= 2 && 64 <= s[0] < 128 {
      assert s[1..2] == [s[1]];
      Digits1(s[0] % 0x40, s[1]);
    } else if |s| >= 4 && 128 <= s[0] < 192 {
      assert s[1..4] == [s[1], s[2], s[3]];
      Digits3(s[0] % 0x40, s[1], s[2], s[3]);
    } else if |s| >= 8 && 192 <= s[0] {
      Digits7(s[0] % 0x40, s);
    }
  }

  lemma Digits7(lead: nat, s: Bytes)
    requires |s| >= 8 && s[0] >= 192 && lead == s[0] % 0x40
    ensures Digits(lead, s[1..8]) == Eight(s) - 13_835_058_055_282_163_712
  {
    hide Digits;
    var a := s[1..4];
    assert a == [s[1], s[2], s[3]];
    Digits3(lead, s[1], s[2], s[3]);
    DigitsNext(lead, s, 4);
    DigitsNext(lead, s, 5);
    DigitsNext(lead, s, 6);
    DigitsNext(lead, s, 7);
  }

  lemma DigitsNext(lead: nat, s: Bytes, i: nat)
    requires 1 <= i < |s|
    ensures Digits(lead, s[1..i + 1]) == Digits(lead, s[1..i]) * 256 + s[i]
  {
    assert s[1..i + 1][..i - 1] == s[1..i];
  }

  /** A string is its length and then its bytes. */
  lemma StringReads(s: Bytes, b: Bytes, rest: Bytes)
    ensures TakeString(s) == Some((b, rest)) <==> TakeVarint(s) == Some((|b|, b + rest))
  {
    hide TakeVarint;
    assert (b + rest)[..|b|] == b && (b + rest)[|b|..] == rest;
    if TakeString(s) == Some((b, rest)) {
      var n := TakeVarint(s).value;
      assert n.1 == n.1[..n.0] + n.1[n.0..];
    }
  }

  // ---------------------------------------------------------------------------------------------
  // Messages.

  /** The upper case letters become lower case, and nothing else changes. */
  lemma LowerMeans(b: Byte)
    ensures 'A' as int <= b <= 'Z' as int ==> LowerByte(b) - 'a' as int == b - 'A' as int
    ensures b < 'A' as int || b > 'Z' as int ==> LowerByte(b) == b
  {
  }

  /** A length and the bytes. */
  function Sized(b: Bytes): Bytes
    requires |b| <= 1_073_741_823
  {
    EncodableIff(|b|);
    EncodeVarint(|b|).value + b
  }

  lemma PrefixedIsSized(b: Bytes, rest: Option<Bytes>)
    ensures Prefixed(b, rest).Some? ==> |b| <= 1_073_741_823 && rest.Some? && Prefixed(b, rest).value == Sized(b) + rest.value
  {
    hide EncodeVarint;
    EncodableIff(|b|);
  }

  /** Field after field: the name in lower case, then the value. */
  lemma {:induction false} HeadersLayout(headers: seq<Header>, h: Header)
    ensures EncodeHeaders([]) == Some([])
    ensures EncodeHeaders(headers + [h]).Some? ==>
              && h.name != [] && |Lower(h.name)| <= 1_073_741_823 && |h.value| <= 1_073_741_823 && EncodeHeaders(headers).Some?
              && EncodeHeaders(headers + [h]).value == EncodeHeaders(headers).value + Sized(Lower(h.name)) + Sized(h.value)
    decreases |headers|
  {
    hide EncodeVarint, Lower, Sized, Prefixed;
    var all := headers + [h];
    PrefixedIsSized(Lower(all[0].name), Prefixed(all[0].value, EncodeHeaders(all[1..])));
    PrefixedIsSized(all[0].value, EncodeHeaders(all[1..]));
    if headers == [] {
      assert all[1..] == [];
    } else {
      assert all[1..] == headers[1..] + [h];
      HeadersLayout(headers[1..], h);
      if EncodeHeaders(all).Some? {
        var more := EncodeHeaders(headers[1..]);
        PrefixedGoes(Lower(headers[0].name), headers[0].value, more);
        PrefixedIsSized(Lower(headers[0].name), Prefixed(headers[0].value, more));
        PrefixedIsSized(headers[0].value, more);
      }
    }
  }

  lemma PrefixedGoes(a: Bytes, b: Bytes, rest: Option<Bytes>)
    requires |a| <= 1_073_741_823 && |b| <= 1_073_741_823 && rest.Some?
    ensures Prefixed(a, Prefixed(b, rest)).Some?
  {
    hide EncodeVarint;
    EncodableIff(|a|);
    EncodableIff(|b|);
  }

  lemma BodyLayout(headers: seq<Header>, content: Bytes)
    requires EncodeBody(headers, content).Some?
    ensures EncodeHeaders(headers).Some? && |EncodeHeaders(headers).value| <= 1_073_741_823 && |content| <= 1_073_741_823
    ensures EncodeBody(headers, content).value == Sized(EncodeHeaders(headers).value) + Sized(content) + [0]
  {
    hide EncodeVarint, EncodeHeaders, Sized, Prefixed;
    PrefixedIsSized(EncodeHeaders(headers).value, Prefixed(content, Some([0])));
    PrefixedIsSized(content, Some([0]));
  }

  /** A request: 0, method, scheme, authority, path, fields, content, and 0 for no trailers. */
  lemma RequestLayout(q: Request)
    requires EncodeRequest(q).Some?
    ensures |q.verb| <= 1_073_741_823 && |q.scheme| <= 1_073_741_823 && |q.authority| <= 1_073_741_823 && |q.path| <= 1_073_741_823
    ensures EncodeHeaders(q.headers).Some? && |EncodeHeaders(q.headers).value| <= 1_073_741_823 && |q.content| <= 1_073_741_823
    ensures EncodeRequest(q).value ==
              [0] + Sized(q.verb) + Sized(q.scheme) + Sized(q.authority) + Sized(q.path)
              + Sized(EncodeHeaders(q.headers).value) + Sized(q.content) + [0]
  {
    hide EncodeVarint, EncodeHeaders, EncodeBody, Sized, Prefixed;
    var body := EncodeBody(q.headers, q.content);
    var d := Prefixed(q.path, body);
    var c := Prefixed(q.authority, d);
    var b := Prefixed(q.scheme, c);
    PrefixedIsSized(q.verb, b);
    PrefixedIsSized(q.scheme, c);
    PrefixedIsSized(q.authority, d);
    PrefixedIsSized(q.path, body);
    BodyLayout(q.headers, q.content);
  }

  /** A response: 1, status, fields, content, and 0 for no trailers. */
  lemma ResponseLayout(p: Response)
    requires EncodeResponse(p).Some?
    ensures EncodeVarint(p.status).Some?
    ensures EncodeHeaders(p.headers).Some? && |EncodeHeaders(p.headers).value| <= 1_073_741_823 && |p.content| <= 1_073_741_823
    ensures EncodeResponse(p).value ==
              [1] + EncodeVarint(p.status).value + Sized(EncodeHeaders(p.headers).value) + Sized(p.content) + [0]
  {
    hide EncodeVarint, EncodeHeaders, EncodeBody, Sized;
    BodyLayout(p.headers, p.content);
  }

  // ---------------------------------------------------------------------------------------------
  // What is read.

  lemma {:induction false} FieldsRead(s: Bytes, stop: int, got: nat)
    requires got <= 128
    ensures TakeHeaders(s, stop, got).Some? ==>
              var (headers, rest) := TakeHeaders(s, stop, got).value;
              |rest| == stop && got + |headers| <= 128 && forall i | 0 <= i < |headers| :: headers[i].name != []
    decreases |s|
  {
    hide TakeString;
    if TakeHeaders(s, stop, got).Some? && |s| > stop {
      var name := TakeString(s).value;
      var value := TakeString(name.1).value;
      TakesSome(s);
      TakesSome(name.1);
      FieldsRead(value.1, stop, got + 1);
    }
  }

  /** The field section is exactly as long as it says, has at most 128 fields, all with a name; after the
  content comes nothing or an empty trailer section. */
  lemma BodyReads(s: Bytes)
    ensures TakeBody(s).Some? ==>
              && TakeFields(s).Some? && TakeVarint(s).Some?
              && var (headers, content) := TakeBody(s).value;
                 var rest := TakeFields(s).value.1;
              && |rest| + TakeVarint(s).value.0 == |TakeVarint(s).value.1|
              && |headers| <= 128 && (forall i | 0 <= i < |headers| :: headers[i].name != [])
              && TakeString(rest).Some? && TakeString(rest).value.0 == content
              && var end := TakeString(rest).value.1;
                 end == [] || (TakeVarint(end).Some? && TakeVarint(end).value.0 == 0)
  {
    hide TakeVarint, TakeString, TakeHeaders;
    if TakeBody(s).Some? {
      var n := TakeVarint(s).value;
      FieldsRead(n.1, |n.1| - n.0, 0);
    }
  }

  /** A request read begins with 0 and has a method, a scheme and a path. */
  lemma RequestReads(s: Bytes)
    ensures TakeRequest(s).Some? ==>
              && TakeVarint(s).Some? && TakeVarint(s).value.0 == 0
              && var q := TakeRequest(s).value;
                 q.verb != [] && q.scheme != [] && q.path != [] && |q.headers| <= 128
  {
    hide TakeVarint, TakeString, TakeBody;
    DecodedIsComplete(s);
  }

  /** A response read begins with 1 and has a final status. */
  lemma ResponseReads(s: Bytes)
    ensures TakeResponse(s).Some? ==>
              TakeVarint(s).Some? && TakeVarint(s).value.0 == 1 && 200 <= TakeResponse(s).value.status <= 599
  {
    hide TakeVarint, TakeBody;
  }

  /** No bytes are read as both. */
  lemma NeverBoth(s: Bytes)
    ensures TakeRequest(s) == None || TakeResponse(s) == None
  {
    hide TakeRequest, TakeResponse, TakeVarint;
    RequestReads(s);
    ResponseReads(s);
  }

  // ---------------------------------------------------------------------------------------------
  // Key configurations.

  function Two(b: Bytes, i: nat): int
    requires i + 1 < |b|
  {
    (b[i] as int) * 256 + b[i + 1] as int
  }

  /** Id, KEM, 65 bytes of public key, the length 4, KDF and AEAD: 74 bytes. */
  lemma ConfigLayout(c: KeyConfig)
    ensures EncodeConfig(c).Some? <==> |c.publicKey| == 65
    ensures EncodeConfig(c).Some? ==>
              var b := EncodeConfig(c).value;
              && |b| == 74 && b[0] == c.keyId % 256 && Two(b, 1) == c.kemId % 65_536 && b[3..68] == c.publicKey
              && b[68] == 0 && b[69] == 4 && Two(b, 70) == c.kdfId % 65_536 && Two(b, 72) == c.aeadId % 65_536
  {
    U16RoundTrip(c.kemId);
    U16RoundTrip(c.kdfId);
    U16RoundTrip(c.aeadId);
  }

  /** Reading takes the same places, from 74 bytes on and with at least four bytes of algorithms. */
  lemma ConfigReads(b: Bytes)
    ensures DecodeConfig(b) ==
              if |b| < 74 || Two(b, 68) < 4 then None
              else Some(KeyConfig(b[0], Two(b, 1), Two(b, 70), Two(b, 72), b[3..68]))
  {
  }

  /** One configuration after the other, each behind its length in two bytes. */
  lemma {:induction false} CollectionLayout(configs: seq<KeyConfig>, i: nat)
    requires Concatenated(configs).Some? && i < |configs|
    ensures |Concatenated(configs).value| == 76 * |configs| && EncodeConfig(configs[i]).Some?
    ensures Concatenated(configs).value[76 * i..76 * i + 76] == [0, 74] + EncodeConfig(configs[i]).value
    decreases |configs|
  {
    hide EncodeConfig;
    var c, rest := EncodeConfig(configs[0]).value, Concatenated(configs[1..]).value;
    var s := Concatenated(configs).value;
    assert U16(74) == [0, 74];
    assert s == [0, 74] + c + rest;
    if |configs| > 1 {
      CollectionLayout(configs[1..], if i == 0 then 0 else i - 1);
    }
    if i > 0 {
      assert s[76 * i..76 * i + 76] == rest[76 * (i - 1)..76 * (i - 1) + 76];
    }
  }

  lemma {:induction false} FewConfigs(s: Bytes, got: nat)
    requires got <= 4
    ensures TakeConfigs(s, got).Some? ==> got + |TakeConfigs(s, got).value| <= 4 && (s != [] ==> TakeConfigs(s, got).value != [])
    decreases |s|
  {
    hide DecodeConfig, U16At;
    if TakeConfigs(s, got).Some? && s != [] { FewConfigs(s[2 + U16At(s, 0)..], got + 1); }
  }

  /** A collection read has one to four configurations. */
  lemma CollectionReads(s: Bytes)
    ensures ParseCollection(s).Some? ==> 1 <= |ParseCollection(s).value| <= 4
  {
    hide TakeConfigs;
    FewConfigs(s, 0);
  }
}
