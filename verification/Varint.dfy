/** QUIC variable-length integers, section 16 of RFC 9000, and a reader over a byte buffer. */
module Varint {
  import opened Wrappers

  type Byte = x: nat | x < 0x100

  type Bytes = seq<Byte>

  const VARINT_MAX := 0x3fff_ffff
  const SAFE_INTEGER := 0x1f_ffff_ffff_ffff

  // ---------------------------------------------------------------------------------------------
  // Encoding.

  function EncodeVarint(value: int): Option<Bytes> {
    if value < 0 || value > 0xffff_ffff then None
    else if value < 0x40 then Some([value])
    else if value < 0x4000 then Some([0x40 + value / 0x100, value % 0x100])
    else if value > VARINT_MAX then None
    else Some([0x80 + value / 0x100_0000, value / 0x1_0000 % 0x100, value / 0x100 % 0x100, value % 0x100])
  }

  // ---------------------------------------------------------------------------------------------
  // Decoding.

  /** The top two bits of the first byte give the length. */
  function LengthOf(first: Byte): nat {
    if first < 0x40 then 1 else if first < 0x80 then 2 else if first < 0xc0 then 4 else 8
  }

  /** Digits most significant first, after a leading value. */
  function Digits(lead: nat, tail: Bytes): nat {
    if tail == [] then lead else Digits(lead, tail[..|tail| - 1]) * 0x100 + tail[|tail| - 1]
  }

  /** Split a varint off the front. */
  function TakeVarint(s: Bytes): Option<(nat, Bytes)> {
    if s == [] || LengthOf(s[0]) > |s| then None
    else
      var n := LengthOf(s[0]);
      var value := Digits(s[0] % 0x40, s[1..n]);
      if value > SAFE_INTEGER then None else Some((value, s[n..]))
  }

  method DecodeVarint(bytes: Bytes, offset: nat) returns (r: Option<(nat, nat)>)
    ensures offset >= |bytes| ==> r == None
    ensures offset < |bytes| ==>
              match TakeVarint(bytes[offset..])
              case None => r == None
              case Some((value, rest)) => r.Some? && r.value.0 == value && offset + r.value.1 <= |bytes| && rest == bytes[offset + r.value.1..]
  {
    if offset >= |bytes| {
      return None;
    }
    var first := bytes[offset];
    var n := LengthOf(first);
    if offset + n > |bytes| {
      return None;
    }
    var value: nat := first % 0x40;
    ghost var s := bytes[offset..];
    for i := 1 to n
      invariant value == Digits(s[0] % 0x40, s[1..i])
    {
      assert s[1..i + 1][..i - 1] == s[1..i];
      value := value * 0x100 + bytes[offset + i];
    }
    assert s[n..] == bytes[offset + n..];
    if value > SAFE_INTEGER {
      return None;
    }
    return Some((value, n));
  }

  // ---------------------------------------------------------------------------------------------
  // Round trip.

  lemma EncodableIff(value: int)
    ensures EncodeVarint(value).Some? <==> 0 <= value <= 1_073_741_823
  {
  }

  lemma Digits1(lead: nat, a: Byte)
    ensures Digits(lead, [a]) == lead * 0x100 + a
  {
    assert [a][..0] == [];
  }

  lemma Digits3(lead: nat, a: Byte, b: Byte, c: Byte)
    ensures Digits(lead, [a, b, c]) == ((lead * 0x100 + a) * 0x100 + b) * 0x100 + c
  {
    assert [a, b, c][..2] == [a, b] && [a, b][..1] == [a];
    Digits1(lead, a);
  }

  lemma FourDigits(value: nat)
    ensures ((value / 0x100_0000 * 0x100 + value / 0x1_0000 % 0x100) * 0x100 + value / 0x100 % 0x100) * 0x100 + value % 0x100 == value
  {
    var a, b, c := value / 0x100, value / 0x1_0000, value / 0x100_0000;
    assert value == a * 0x100 + value % 0x100;
    assert a == b * 0x100 + a % 0x100;
    assert b == c * 0x100 + b % 0x100;
  }

  lemma TakeExact(b: Bytes, rest: Bytes, value: nat)
    requires b != [] && LengthOf(b[0]) == |b| && Digits(b[0] % 0x40, b[1..]) == value <= SAFE_INTEGER
    ensures TakeVarint(b + rest) == Some((value, rest))
  {
    var s := b + rest;
    assert s[|b|..] == rest && s[1..|b|] == b[1..];
  }

  lemma ReadsBack(value: nat)
    requires value <= VARINT_MAX
    ensures EncodeVarint(value).Some?
    ensures var b := EncodeVarint(value).value; b != [] && LengthOf(b[0]) == |b| && Digits(b[0] % 0x40, b[1..]) == value
  {
    hide Digits;
    var b := EncodeVarint(value).value;
    if |b| == 1 {
      assert b[1..] == [] && Digits(value, []) == value by { Digits0(value); }
    } else if |b| == 2 {
      assert b[1..] == [b[1]];
      Digits1(b[0] % 0x40, b[1]);
    } else {
      assert b[1..] == [b[1], b[2], b[3]];
      Digits3(b[0] % 0x40, b[1], b[2], b[3]);
      FourDigits(value);
    }
  }

  lemma Digits0(lead: nat)
    ensures Digits(lead, []) == lead
  {
  }

  /** Decoding undoes encoding and leaves what follows. */
  lemma VarintRoundTrip(value: nat, rest: Bytes)
    requires value <= VARINT_MAX
    ensures EncodeVarint(value).Some? && TakeVarint(EncodeVarint(value).value + rest) == Some((value, rest))
  {
    hide EncodeVarint, Digits, TakeVarint, LengthOf;
    ReadsBack(value);
    TakeExact(EncodeVarint(value).value, rest, value);
  }

  lemma {:induction false} DigitsBelow(lead: nat, tail: Bytes)
    requires lead < 0x40
    ensures |tail| == 0 ==> Digits(lead, tail) < 0x40
    ensures |tail| == 1 ==> Digits(lead, tail) < 0x4000
  {
    if |tail| == 1 {
      assert tail == [tail[0]];
      Digits1(lead, tail[0]);
    }
  }

  /** No shorter encoding decodes to the same value. */
  lemma VarintIsShortest(s: Bytes)
    requires TakeVarint(s).Some? && TakeVarint(s).value.0 <= VARINT_MAX
    ensures |EncodeVarint(TakeVarint(s).value.0).value| <= |s| - |TakeVarint(s).value.1|
  {
    DigitsBelow(s[0] % 0x40, s[1..LengthOf(s[0])]);
  }

  // ---------------------------------------------------------------------------------------------
  // The reader.

  function TakeBytes(s: Bytes, n: nat): Option<(Bytes, Bytes)> {
    if n > |s| then None else Some((s[..n], s[n..]))
  }

  function TakeString(s: Bytes): Option<(Bytes, Bytes)> {
    match TakeVarint(s)
    case None => None
    case Some((n, rest)) => TakeBytes(rest, n)
  }

  class Reader {
    const bytes: Bytes
    var offset: nat

    ghost predicate Valid()
      reads this
    {
      offset <= |bytes|
    }

    ghost function Rest(): Bytes
      requires Valid()
      reads this
    {
      bytes[offset..]
    }

    constructor (b: Bytes)
      ensures Valid() && bytes == b && Rest() == b
    {
      bytes, offset := b, 0;
    }

    method ReadVarint() returns (r: Option<nat>)
      requires Valid()
      modifies this
      ensures Valid()
      ensures match TakeVarint(old(Rest()))
              case None => r == None
              case Some((value, rest)) => r == Some(value) && Rest() == rest
    {
      var d := DecodeVarint(bytes, offset);
      if d == None {
        return None;
      }
      offset := offset + d.value.1;
      return Some(d.value.0);
    }

    method ReadBytes(n: nat) returns (r: Option<Bytes>)
      requires Valid()
      modifies this
      ensures Valid()
      ensures match TakeBytes(old(Rest()), n)
              case None => r == None
              case Some((b, rest)) => r == Some(b) && Rest() == rest
    {
      if offset + n > |bytes| {
        return None;
      }
      var out := bytes[offset..offset + n];
      assert out == old(Rest())[..n] && bytes[offset + n..] == old(Rest())[n..];
      offset := offset + n;
      return Some(out);
    }

    method ReadString() returns (r: Option<Bytes>)
      requires Valid()
      modifies this
      ensures Valid()
      ensures match TakeString(old(Rest()))
              case None => r == None
              case Some((b, rest)) => r == Some(b) && Rest() == rest
    {
      var n := ReadVarint();
      if n == None {
        return None;
      }
      r := ReadBytes(n.value);
    }
  }
}
