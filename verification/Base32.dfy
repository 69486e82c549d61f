/**
 The base 32 codec of util/base32_code.c (section 6 of RFC 4648).
 */
module Base32 {
  import opened Wrappers
  import opened Quanta

  // ----------------------------------------------------------------- alphabet

  /** to_b32[v] */
  function ToB32(v: nat): (c: byte)
    requires v < 32
    ensures c != PAD && c != 0
  {
    if v < 26 then 65 + v else 24 + v
  }

  /** un_b32[c] */
  function UnB32(c: byte): (v: byte)
    ensures v < 32 <==> v != INVALID
    ensures v < 32 ==> ToB32(v) == c
  {
    if 65 <= c <= 90 then c - 65 else if 50 <= c <= 55 then c - 24 else INVALID
  }

  lemma AlphabetInverse(v: nat)
    requires v < 32
    ensures UnB32(ToB32(v)) == v
  {
  }

  /** The loop that fills the lookup table the first time. */
  method InitTable() returns (un: array<byte>)
    ensures fresh(un) && un.Length == 256 && forall c :: 0 <= c < 256 ==> un[c] == UnB32(c)
  {
    un := new byte[256](_ => INVALID);
    for v := 0 to 32
      invariant forall c :: 0 <= c < 256 ==> un[c] == if UnB32(c) < v then UnB32(c) else INVALID
    {
      AlphabetInverse(v);
      un[ToB32(v)] := v;
    }
  }

  // ----------------------------------------------------------------- encoding

  // The digits that come from two neighbouring bytes.
  function Digit1(b0: byte, b1: byte): (d: nat) ensures d < 32 { b0 % 8 * 4 + b1 / 64 }
  function Digit3(b1: byte, b2: byte): (d: nat) ensures d < 32 { b1 % 2 * 16 + b2 / 16 }
  function Digit4(b2: byte, b3: byte): (d: nat) ensures d < 32 { b2 % 16 * 2 + b3 / 128 }
  function Digit6(b3: byte, b4: byte): (d: nat) ensures d < 32 { b3 % 4 * 8 + b4 / 32 }

  /** Up to five bytes as eight characters; missing bytes count as zero. */
  function EncodeQuantum(b: seq<byte>): seq<byte>
  {
    if |b| == 1 then
      [ToB32(b[0] / 8), ToB32(Digit1(b[0], 0)), PAD, PAD, PAD, PAD, PAD, PAD]
    else if |b| == 2 then
      [ToB32(b[0] / 8), ToB32(Digit1(b[0], b[1])), ToB32(b[1] % 64 / 2), ToB32(Digit3(b[1], 0)), PAD, PAD, PAD, PAD]
    else if |b| == 3 then
      [ToB32(b[0] / 8), ToB32(Digit1(b[0], b[1])), ToB32(b[1] % 64 / 2), ToB32(Digit3(b[1], b[2])),
       ToB32(Digit4(b[2], 0)), PAD, PAD, PAD]
    else if |b| == 4 then
      [ToB32(b[0] / 8), ToB32(Digit1(b[0], b[1])), ToB32(b[1] % 64 / 2), ToB32(Digit3(b[1], b[2])),
       ToB32(Digit4(b[2], b[3])), ToB32(b[3] % 128 / 4), ToB32(Digit6(b[3], 0)), PAD]
    else if |b| == 5 then
      [ToB32(b[0] / 8), ToB32(Digit1(b[0], b[1])), ToB32(b[1] % 64 / 2), ToB32(Digit3(b[1], b[2])),
       ToB32(Digit4(b[2], b[3])), ToB32(b[3] % 128 / 4), ToB32(Digit6(b[3], b[4])), ToB32(b[4] % 32)]
    else []
  }

  function Encode(s: seq<byte>): seq<byte>
  {
    EncodeAll(EncodeQuantum, 5, s)
  }

  /** How much of "======" goes after the characters for `count` bytes. */
  function PadCount(count: nat): nat
    requires count < 5
  {
    if count == 0 then 0 else if count == 1 then 6 else if count == 2 then 4 else if count == 3 then 3 else 1
  }

  /** n times '='. */
  function Pads(n: nat): seq<byte>
  {
    seq(n, _ => PAD)
  }

  /** One round of the loop in base32_encode: the characters for up to five bytes, without padding. */
  method EncodeRound(result: seq<byte>, b: seq<byte>, count: int) returns (r: seq<byte>, stop: bool)
    requires |b| >= 1 && (if count < 5 then |b| == count else |b| == 5)
    ensures stop <==> count < 5
    ensures r + Pads(if stop then PadCount(count) else 0) == result + EncodeQuantum(b)
  {
    r, stop := result + [ToB32(b[0] / 8)], true;
    if count < 2 {
      r := r + [ToB32(b[0] % 8 * 4)];
      return;
    }
    r := r + [ToB32(b[0] % 8 * 4 + b[1] / 64)];
    r := r + [ToB32(b[1] % 64 / 2)];
    if count < 3 {
      r := r + [ToB32(b[1] % 2 * 16)];
      return;
    }
    r := r + [ToB32(b[1] % 2 * 16 + b[2] / 16)];
    if count < 4 {
      r := r + [ToB32(b[2] % 16 * 2)];
      return;
    }
    r := r + [ToB32(b[2] % 16 * 2 + b[3] / 128)];
    r := r + [ToB32(b[3] % 128 / 4)];
    if count < 5 {
      r := r + [ToB32(b[3] % 4 * 8)];
      return;
    }
    r := r + [ToB32(b[3] % 4 * 8 + b[4] / 32)];
    r := r + [ToB32(b[4] % 32)];
    stop := false;
  }

  /** base32_encode */
  method EncodeString(s: seq<byte>) returns (r: seq<byte>)
    ensures r == Encode(s)
  {
    r := [];
    assert s[0..] == s;
    var cp, count := 0, |s|;
    while count > 0
      invariant 0 <= cp <= |s| && cp == |s| - count
      invariant r + Encode(s[cp..]) == Encode(s)
    {
      var end := if count > 5 then cp + 5 else |s|;
      EncodeStep(EncodeQuantum, 5, s, cp);
      Regroup(r, EncodeQuantum(s[cp..end]), Encode(s[end..]));
      var stop;
      r, stop := EncodeRound(r, s[cp..end], count);
      if stop {
        break;
      }
      assert r + Pads(0) == r;
      count, cp := count - 5, cp + 5;
    }
    if count > 0 {
      r := r + Pads(PadCount(count));
    }
  }

  // ----------------------------------------------------------------- decoding

  lemma {:induction false} CStrPads(n: nat)
    ensures CStr(Pads(n)) == Pads(n)
  {
    if n > 0 {
      CStrPads(n - 1);
      assert Pads(n)[1..] == Pads(n - 1) && Pads(n) == [PAD] + Pads(n - 1);
    }
  }

  function Byte0(v0: nat, v1: nat): byte
    requires v0 < 32 && v1 < 32
  {
    v0 * 8 + v1 / 4
  }

  function Byte1(v1: nat, v2: nat, v3: nat): byte
    requires v1 < 32 && v2 < 32 && v3 < 32
  {
    v1 % 4 * 64 + v2 * 2 + v3 / 16
  }

  function Byte2(v3: nat, v4: nat): byte
    requires v3 < 32 && v4 < 32
  {
    v3 % 16 * 16 + v4 / 2
  }

  function Byte3(v4: nat, v5: nat, v6: nat): byte
    requires v4 < 32 && v5 < 32 && v6 < 32
  {
    v4 % 2 * 128 + v5 * 4 + v6 / 8
  }

  function Byte4(v6: nat, v7: nat): byte
    requires v6 < 32 && v7 < 32
  {
    v6 % 8 * 32 + v7
  }

  /** The first eight characters of what is left: '=' is accepted where only '=' follows up to the end of the C string,
      in the eighth place whatever follows, and only if no bits are lost. */
  function DecodeQuantum(s: seq<byte>): Group
  {
    if |s| < 8 then Bad
    else
      var v0, v1, v2, v3, v4, v5, v6, v7 := UnB32(s[0]), UnB32(s[1]), UnB32(s[2]), UnB32(s[3]), UnB32(s[4]),
        UnB32(s[5]), UnB32(s[6]), UnB32(s[7]);
      if v0 == INVALID || v1 == INVALID then Bad
      else if s[2] == PAD && CStr(s[3..]) == Pads(5) && v1 % 4 == 0 then Last([Byte0(v0, v1)])
      else if v2 == INVALID || v3 == INVALID then Bad
      else if s[4] == PAD && CStr(s[5..]) == Pads(3) && v3 % 16 == 0 then Last([Byte0(v0, v1), Byte1(v1, v2, v3)])
      else if v4 == INVALID then Bad
      else if s[5] == PAD && CStr(s[6..]) == Pads(2) && v4 % 2 == 0
      then Last([Byte0(v0, v1), Byte1(v1, v2, v3), Byte2(v3, v4)])
      else if v5 == INVALID || v6 == INVALID then Bad
      else if s[7] == PAD && v6 % 8 == 0 then Last([Byte0(v0, v1), Byte1(v1, v2, v3), Byte2(v3, v4), Byte3(v4, v5, v6)])
      else if v7 == INVALID then Bad
      else More([Byte0(v0, v1), Byte1(v1, v2, v3), Byte2(v3, v4), Byte3(v4, v5, v6), Byte4(v6, v7)])
  }

  function Decode(s: seq<byte>): Option<seq<byte>>
  {
    DecodeWith(DecodeQuantum, 8, s)
  }

  lemma CharBytes(v0: nat, v1: nat, v2: nat, v3: nat, v4: nat)
    requires v0 < 32 && v1 < 32 && v2 < 32 && v3 < 32 && v4 < 32
    ensures Char(v0 * 8 + v1 / 4) == Byte0(v0, v1)
    ensures Char(v1 * 64 + v2 * 2 + v3 / 16) == Byte1(v1, v2, v3)
    ensures Char(v3 * 16 + v4 / 2) == Byte2(v3, v4)
  {
    CharOf(0, Byte0(v0, v1));
    CharOf(v1 / 4, Byte1(v1, v2, v3));
    CharOf(v3 / 16, Byte2(v3, v4));
  }

  lemma CharBytesUp(v4: nat, v5: nat, v6: nat, v7: nat)
    requires v4 < 32 && v5 < 32 && v6 < 32 && v7 < 32
    ensures Char(v4 * 128 + v5 * 4 + v6 / 8) == Byte3(v4, v5, v6)
    ensures Char(v6 * 32 + v7) == Byte4(v6, v7)
  {
    CharOf(v4 / 2, Byte3(v4, v5, v6));
    CharOf(v6 / 8, Byte4(v6, v7));
  }

  /** One round of the loop in base32_decode, at position cp. */
  method DecodeRound(un: array<byte>, result: seq<byte>, s: seq<byte>, cp: nat)
      returns (r: seq<byte>, ok: bool, stop: bool)
    requires cp + 8 <= |s| && un.Length == 256 && forall c :: 0 <= c < 256 ==> un[c] == UnB32(c)
    ensures ok <==> !DecodeQuantum(s[cp..]).Bad?
    ensures ok ==> r == result + DecodeQuantum(s[cp..]).bytes && (stop <==> DecodeQuantum(s[cp..]).Last?)
  {
    r, ok, stop := result, false, false;
    assert s[cp..][3..] == s[cp + 3..] && s[cp..][5..] == s[cp + 5..] && s[cp..][6..] == s[cp + 6..];
    var v0: nat := un[s[cp]];
    var v1: nat := un[s[cp + 1]];
    if v0 == INVALID || v1 == INVALID {
      return;
    }
    CharBytes(v0, v1, 0, 0, 0);
    r := r + [Char(v0 * 8 + v1 / 4)];
    if s[cp + 2] == PAD && CStr(s[cp + 3..]) == Pads(5) && v1 % 4 == 0 {
      return r, true, true;
    }
    var v2: nat := un[s[cp + 2]];
    if v2 == INVALID {
      return;
    }
    var v3: nat := un[s[cp + 3]];
    if v3 == INVALID {
      return;
    }
    CharBytes(v0, v1, v2, v3, 0);
    r := r + [Char(v1 * 64 + v2 * 2 + v3 / 16)];
    if s[cp + 4] == PAD && CStr(s[cp + 5..]) == Pads(3) && v3 % 16 == 0 {
      return r, true, true;
    }
    var v4: nat := un[s[cp + 4]];
    if v4 == INVALID {
      return;
    }
    CharBytes(v0, v1, v2, v3, v4);
    r := r + [Char(v3 * 16 + v4 / 2)];
    if s[cp + 5] == PAD && CStr(s[cp + 6..]) == Pads(2) && v4 % 2 == 0 {
      return r, true, true;
    }
    var v5: nat := un[s[cp + 5]];
    if v5 == INVALID {
      return;
    }
    var v6: nat := un[s[cp + 6]];
    if v6 == INVALID {
      return;
    }
    CharBytesUp(v4, v5, v6, 0);
    r := r + [Char(v4 * 128 + v5 * 4 + v6 / 8)];
    if s[cp + 7] == PAD && v6 % 8 == 0 {
      return r, true, true;
    }
    var v7: nat := un[s[cp + 7]];
    if v7 == INVALID {
      return;
    }
    CharBytesUp(v4, v5, v6, v7);
    r := r + [Char(v6 * 32 + v7)];
    return r, true, false;
  }

  /** The loop of base32_decode, for a function that is known to be DecodeQuantum. */
  method DecodeLoop(ghost dec: seq<byte> -> Group, s: seq<byte>) returns (r: seq<byte>, ok: bool)
    requires forall x {:trigger DecodeQuantum(x)} :: dec(x) == DecodeQuantum(x)
    requires |s| % 8 == 0
    ensures ok <==> DecodeAll(dec, 8, s).Some?
    ensures ok ==> r == DecodeAll(dec, 8, s).value
  {
    r := [];
    var un := InitTable();
    assert s[0..] == s;
    var count := 0;
    while count < |s|
      invariant 0 <= count <= |s| && count % 8 == 0
      invariant Continues([], DecodeAll(dec, 8, s), r, DecodeAll(dec, 8, s[count..]))
      modifies {}
    {
      assert s[count..][8..] == s[count + 8..];
      ghost var r1 := r;
      var stop;
      r, ok, stop := DecodeRound(un, r, s, count);
      if !ok {
        return r, false;
      }
      if stop {
        break;
      }
      ContinueMore([], DecodeAll(dec, 8, s), r1, dec(s[count..]).bytes, DecodeAll(dec, 8, s[count + 8..]));
      count := count + 8;
    }
    ok := true;
    assert [] + DecodeAll(dec, 8, s).value == DecodeAll(dec, 8, s).value;
  }

  /** base32_decode: refused input gives no result. */
  method DecodeString(s: seq<byte>) returns (r: seq<byte>, ok: bool)
    ensures ok <==> Decode(s).Some?
    ensures ok ==> r == Decode(s).value
  {
    if |s| % 8 != 0 {
      return [], false;
    }
    r, ok := DecodeLoop(DecodeQuantum, s);
  }

  // -------------------------------------------------------------- round trips

  lemma BytesLow(b0: byte, b1: byte, b2: byte)
    ensures Byte0(b0 / 8, Digit1(b0, b1)) == b0
    ensures Byte1(Digit1(b0, b1), b1 % 64 / 2, Digit3(b1, b2)) == b1
  {
    assert Digit1(b0, b1) / 4 == b0 % 8 && Digit1(b0, b1) % 4 == b1 / 64;
    assert Digit3(b1, b2) / 16 == b1 % 2;
    var c := b1 % 64;
    assert c % 2 == b1 % 2 && c == c / 2 * 2 + c % 2;
  }

  lemma BytesMiddle(b1: byte, b2: byte)
    ensures Byte2(Digit3(b1, b2), Digit4(b2, 0)) == b2
  {
    BytesHigh(b1, b2, 0, 0);
  }

  lemma BytesHigh(b1: byte, b2: byte, b3: byte, b4: byte)
    ensures Byte2(Digit3(b1, b2), Digit4(b2, b3)) == b2
    ensures Byte3(Digit4(b2, b3), b3 % 128 / 4, Digit6(b3, b4)) == b3
    ensures Byte4(Digit6(b3, b4), b4 % 32) == b4
  {
    assert Digit3(b1, b2) % 16 == b2 / 16;
    assert Digit4(b2, b3) / 2 == b2 % 16 && Digit4(b2, b3) % 2 == b3 / 128;
    assert Digit6(b3, b4) / 8 == b3 % 4 && Digit6(b3, b4) % 8 == b4 / 32;
  }

  lemma NoLostBits(b: byte)
    ensures Digit1(b, 0) % 4 == 0 && Digit3(b, 0) % 16 == 0 && Digit4(b, 0) % 2 == 0 && Digit6(b, 0) % 8 == 0
  {
  }

  lemma Inverses(b0: byte, b1: byte, b2: byte, b3: byte, b4: byte)
    ensures UnB32(ToB32(b0 / 8)) == b0 / 8 && UnB32(ToB32(Digit1(b0, b1))) == Digit1(b0, b1)
    ensures UnB32(ToB32(b1 % 64 / 2)) == b1 % 64 / 2 && UnB32(ToB32(Digit3(b1, b2))) == Digit3(b1, b2)
    ensures UnB32(ToB32(Digit4(b2, b3))) == Digit4(b2, b3) && UnB32(ToB32(b3 % 128 / 4)) == b3 % 128 / 4
    ensures UnB32(ToB32(Digit6(b3, b4))) == Digit6(b3, b4) && UnB32(ToB32(b4 % 32)) == b4 % 32
  {
  }

  lemma RoundTripOne(b: seq<byte>)
    requires |b| == 1
    ensures DecodeQuantum(EncodeQuantum(b)) == Last(b)
  {
    BytesLow(b[0], 0, 0);
    Inverses(b[0], 0, 0, 0, 0);
    NoLostBits(b[0]);
    CStrPads(5);
    assert EncodeQuantum(b)[3..] == Pads(5) && b == [b[0]];
  }

  lemma RoundTripTwo(b: seq<byte>)
    requires |b| == 2
    ensures DecodeQuantum(EncodeQuantum(b)) == Last(b)
  {
    BytesLow(b[0], b[1], 0);
    Inverses(b[0], b[1], 0, 0, 0);
    NoLostBits(b[1]);
    CStrPads(3);
    assert EncodeQuantum(b)[5..] == Pads(3) && b == [b[0], b[1]];
  }

  lemma RoundTripThree(b: seq<byte>)
    requires |b| == 3
    ensures DecodeQuantum(EncodeQuantum(b)) == Last(b)
  {
    BytesLow(b[0], b[1], b[2]);
    BytesMiddle(b[1], b[2]);
    Inverses(b[0], b[1], b[2], 0, 0);
    NoLostBits(b[2]);
    CStrPads(2);
    var q := EncodeQuantum(b);
    assert q[6..] == Pads(2) && b == [b[0], b[1], b[2]];
    assert q[4] != PAD && q[2] != PAD && q[5] == PAD;
    assert UnB32(q[0]) == b[0] / 8 && UnB32(q[1]) == Digit1(b[0], b[1]) && UnB32(q[2]) == b[1] % 64 / 2;
    assert UnB32(q[3]) == Digit3(b[1], b[2]) && UnB32(q[4]) == Digit4(b[2], 0);
  }

  lemma RoundTripFour(b: seq<byte>)
    requires |b| == 4
    ensures DecodeQuantum(EncodeQuantum(b)) == Last(b)
  {
    BytesLow(b[0], b[1], b[2]);
    BytesHigh(b[1], b[2], b[3], 0);
    Inverses(b[0], b[1], b[2], b[3], 0);
    NoLostBits(b[3]);
    assert b == [b[0], b[1], b[2], b[3]];
  }

  lemma RoundTripFive(b: seq<byte>, rest: seq<byte>)
    requires |b| == 5
    ensures DecodeQuantum(EncodeQuantum(b) + rest) == More(b)
  {
    BytesLow(b[0], b[1], b[2]);
    BytesHigh(b[1], b[2], b[3], b[4]);
    Inverses(b[0], b[1], b[2], b[3], b[4]);
    assert b == [b[0], b[1], b[2], b[3], b[4]];
  }

  lemma Inverse32()
    ensures Inverse(EncodeQuantum, DecodeQuantum, 5, 8)
  {
    forall b: seq<byte> | 1 <= |b| <= 5 ensures |EncodeQuantum(b)| == 8 {
    }
    forall b: seq<byte> | 1 <= |b| < 5 ensures DecodeQuantum(EncodeQuantum(b)) == Last(b) {
      if |b| == 1 { RoundTripOne(b); } else if |b| == 2 { RoundTripTwo(b); }
      else if |b| == 3 { RoundTripThree(b); } else { RoundTripFour(b); }
    }
    forall b: seq<byte>, rest: seq<byte> | |b| == 5 ensures DecodeQuantum(EncodeQuantum(b) + rest) == More(b) {
      RoundTripFive(b, rest);
    }
  }

  /** Decoding undoes encoding, for every byte string. */
  lemma RoundTrip(s: seq<byte>)
    ensures Decode(Encode(s)) == Some(s)
  {
    Inverse32();
    RoundTrips(EncodeQuantum, DecodeQuantum, 5, 8, s);
  }

  lemma DigitsFirst(v0: nat, v1: nat)
    requires v0 < 32 && v1 < 32
    ensures Byte0(v0, v1) / 8 == v0 && (v1 % 4 == 0 ==> Digit1(Byte0(v0, v1), 0) == v1)
  {
    assert Byte0(v0, v1) % 8 == v1 / 4;
  }

  lemma DigitsLow(v0: nat, v1: nat, v2: nat, v3: nat)
    requires v0 < 32 && v1 < 32 && v2 < 32 && v3 < 32
    ensures Byte0(v0, v1) / 8 == v0 && (v1 % 4 == 0 ==> Digit1(Byte0(v0, v1), 0) == v1)
    ensures Digit1(Byte0(v0, v1), Byte1(v1, v2, v3)) == v1
    ensures Byte1(v1, v2, v3) % 64 / 2 == v2
    ensures v3 % 16 == 0 ==> Digit3(Byte1(v1, v2, v3), 0) == v3
  {
    assert Byte0(v0, v1) % 8 == v1 / 4;
    assert Byte1(v1, v2, v3) / 64 == v1 % 4;
    assert Byte1(v1, v2, v3) % 64 == v2 * 2 + v3 / 16;
    assert Byte1(v1, v2, v3) % 2 == v3 / 16;
  }

  lemma DigitsMiddle(v1: nat, v2: nat, v3: nat, v4: nat)
    requires v1 < 32 && v2 < 32 && v3 < 32 && v4 < 32
    ensures Digit3(Byte1(v1, v2, v3), Byte2(v3, v4)) == v3
    ensures v4 % 2 == 0 ==> Digit4(Byte2(v3, v4), 0) == v4
  {
    assert Byte1(v1, v2, v3) % 2 == v3 / 16;
    assert Byte2(v3, v4) / 16 == v3 % 16;
    assert Byte2(v3, v4) % 16 == v4 / 2;
  }

  lemma DigitsHigh(v3: nat, v4: nat, v5: nat, v6: nat, v7: nat)
    requires v3 < 32 && v4 < 32 && v5 < 32 && v6 < 32 && v7 < 32
    ensures Digit4(Byte2(v3, v4), Byte3(v4, v5, v6)) == v4
    ensures Byte3(v4, v5, v6) % 128 / 4 == v5
    ensures v6 % 8 == 0 ==> Digit6(Byte3(v4, v5, v6), 0) == v6
    ensures Digit6(Byte3(v4, v5, v6), Byte4(v6, v7)) == v6 && Byte4(v6, v7) % 32 == v7
  {
    assert Byte2(v3, v4) % 16 == v4 / 2;
    ThirdByte(v4, v5, v6);
    FourthByte(v6, v7);
  }

  lemma ThirdByte(v4: nat, v5: nat, v6: nat)
    requires v4 < 32 && v5 < 32 && v6 < 32
    ensures Byte3(v4, v5, v6) / 128 == v4 % 2
    ensures Byte3(v4, v5, v6) % 128 == v5 * 4 + v6 / 8 && Byte3(v4, v5, v6) % 4 == v6 / 8
  {
  }

  lemma FourthByte(v6: nat, v7: nat)
    requires v6 < 32 && v7 < 32
    ensures Byte4(v6, v7) / 32 == v6 % 8 && Byte4(v6, v7) % 32 == v7
  {
  }

  lemma CStrWhole(s: seq<byte>, n: nat)
    requires CStr(s) == Pads(n) && |s| == n
    ensures s == Pads(n)
  {
  }

  lemma ReencodesOne(s: seq<byte>)
    requires |s| >= 8 && DecodeQuantum(s).Last? && |DecodeQuantum(s).bytes| == 1
    ensures PAD in s[..8] && (|s| == 8 ==> EncodeQuantum(DecodeQuantum(s).bytes) == s)
  {
    assert s[..8][2] == PAD;
    DigitsFirst(UnB32(s[0]), UnB32(s[1]));
    if |s| == 8 {
      CStrWhole(s[3..], 5);
      assert s == [s[0], s[1], s[2]] + s[3..];
    }
  }

  lemma ReencodesTwo(s: seq<byte>)
    requires |s| >= 8 && DecodeQuantum(s).Last? && |DecodeQuantum(s).bytes| == 2
    ensures PAD in s[..8] && (|s| == 8 ==> EncodeQuantum(DecodeQuantum(s).bytes) == s)
  {
    assert s[..8][4] == PAD;
    DigitsLow(UnB32(s[0]), UnB32(s[1]), UnB32(s[2]), UnB32(s[3]));
    if |s| == 8 {
      CStrWhole(s[5..], 3);
      assert s == [s[0], s[1], s[2], s[3], s[4]] + s[5..];
    }
  }

  lemma ReencodesThree(s: seq<byte>)
    requires |s| >= 8 && DecodeQuantum(s).Last? && |DecodeQuantum(s).bytes| == 3
    ensures PAD in s[..8] && (|s| == 8 ==> EncodeQuantum(DecodeQuantum(s).bytes) == s)
  {
    assert s[..8][5] == PAD;
    DigitsLow(UnB32(s[0]), UnB32(s[1]), UnB32(s[2]), UnB32(s[3]));
    DigitsMiddle(UnB32(s[1]), UnB32(s[2]), UnB32(s[3]), UnB32(s[4]));
    if |s| == 8 {
      CStrWhole(s[6..], 2);
      assert s == [s[0], s[1], s[2], s[3], s[4], s[5]] + s[6..];
    }
  }

  lemma ReencodesFour(s: seq<byte>)
    requires |s| >= 8 && DecodeQuantum(s).Last? && |DecodeQuantum(s).bytes| == 4
    ensures PAD in s[..8] && (|s| == 8 ==> EncodeQuantum(DecodeQuantum(s).bytes) == s)
  {
    assert s[..8][7] == PAD;
    DigitsLow(UnB32(s[0]), UnB32(s[1]), UnB32(s[2]), UnB32(s[3]));
    DigitsMiddle(UnB32(s[1]), UnB32(s[2]), UnB32(s[3]), UnB32(s[4]));
    DigitsHigh(UnB32(s[3]), UnB32(s[4]), UnB32(s[5]), UnB32(s[6]), 0);
    if |s| == 8 {
      assert s == [s[0], s[1], s[2], s[3], s[4], s[5], s[6], s[7]];
    }
  }

  lemma ReencodesFive(s: seq<byte>)
    requires |s| >= 8 && DecodeQuantum(s).More?
    ensures PAD !in s[..8] && EncodeQuantum(DecodeQuantum(s).bytes) == s[..8]
  {
    DigitsLow(UnB32(s[0]), UnB32(s[1]), UnB32(s[2]), UnB32(s[3]));
    DigitsMiddle(UnB32(s[1]), UnB32(s[2]), UnB32(s[3]), UnB32(s[4]));
    DigitsHigh(UnB32(s[3]), UnB32(s[4]), UnB32(s[5]), UnB32(s[6]), UnB32(s[7]));
    assert s[..8] == [s[0], s[1], s[2], s[3], s[4], s[5], s[6], s[7]];
  }

  lemma GroupSize(s: seq<byte>)
    ensures DecodeQuantum(s).Last? ==> 1 <= |DecodeQuantum(s).bytes| < 5
    ensures DecodeQuantum(s).More? ==> |DecodeQuantum(s).bytes| == 5
  {
  }

  lemma QuantumReencodes(s: seq<byte>)
    requires |s| >= 8
    ensures match DecodeQuantum(s)
            case Bad => true
            case Last(b) => 1 <= |b| < 5 && PAD in s[..8] && |EncodeQuantum(b)| == 8
              && (|s| == 8 ==> EncodeQuantum(b) == s)
            case More(b) => |b| == 5 && PAD !in s[..8] && EncodeQuantum(b) == s[..8]
  {
    GroupSize(s);
    match DecodeQuantum(s)
    case Bad =>
    case Last(b) =>
      if |b| == 1 { ReencodesOne(s); } else if |b| == 2 { ReencodesTwo(s); }
      else if |b| == 3 { ReencodesThree(s); } else { ReencodesFour(s); }
    case More(b) => ReencodesFive(s);
  }

  /** Nothing in a last quantum that is accepted is ignored. */
  predicate Tidy(q: seq<byte>)
  {
    true
  }

  lemma Reencodes32()
    ensures Reencodes(EncodeQuantum, DecodeQuantum, Tidy, 5, 8)
  {
    forall s: seq<byte> | |s| >= 8
      ensures match DecodeQuantum(s)
              case Bad => true
              case Last(b) => 1 <= |b| < 5 && PAD in s[..8] && |EncodeQuantum(b)| == 8
                && (|s| == 8 ==> (EncodeQuantum(b) == s <==> Tidy(s)))
              case More(b) => |b| == 5 && PAD !in s[..8] && EncodeQuantum(b) == s[..8] && (|s| == 8 ==> Tidy(s)) {
      QuantumReencodes(s);
    }
  }

  /** Accepted input is the canonical encoding of its result (section 3.5 of RFC 4648) exactly if every '=' lies in the
      last eight characters. */
  lemma ReencodesExactly(s: seq<byte>)
    requires Decode(s).Some?
    ensures Encode(Decode(s).value) == s <==> forall i :: 0 <= i < |s| - 8 ==> s[i] != PAD
  {
    Reencodes32();
    EncodeDecode(EncodeQuantum, DecodeQuantum, Tidy, 5, 8, s, |s| / 8);
    if s != [] {
      var front := s[..|s| - 8];
      assert forall i :: 0 <= i < |s| - 8 ==> s[i] == front[i];
    }
  }

  // ------------------------------------------------------- what the encoding means

  /** Table 3 of RFC 4648. */
  function Alphabet(): seq<byte>
  {
    Range('A' as int, 'Z' as int) + Range('2' as int, '7' as int)
  }

  lemma AlphabetAt(v: nat)
    requires v < 32
    ensures |Alphabet()| == 32 && Alphabet()[v] == ToB32(v)
  {
    RangeAt('A' as int, 'Z' as int, if v < 26 then v else 0);
    RangeAt('2' as int, '7' as int, if 26 <= v then v - 26 else 0);
  }

  function QuantumDigits(b: seq<byte>): (d: seq<nat>)
    ensures forall i :: 0 <= i < |d| ==> d[i] < 32
  {
    if |b| == 1 then [b[0] / 8, Digit1(b[0], 0)]
    else if |b| == 2 then [b[0] / 8, Digit1(b[0], b[1]), b[1] % 64 / 2, Digit3(b[1], 0)]
    else if |b| == 3 then
      [b[0] / 8, Digit1(b[0], b[1]), b[1] % 64 / 2, Digit3(b[1], b[2]), Digit4(b[2], 0)]
    else if |b| == 4 then
      [b[0] / 8, Digit1(b[0], b[1]), b[1] % 64 / 2, Digit3(b[1], b[2]), Digit4(b[2], b[3]), b[3] % 128 / 4,
       Digit6(b[3], 0)]
    else if |b| == 5 then
      [b[0] / 8, Digit1(b[0], b[1]), b[1] % 64 / 2, Digit3(b[1], b[2]), Digit4(b[2], b[3]), b[3] % 128 / 4,
       Digit6(b[3], b[4]), b[4] % 32]
    else []
  }

  /** The padding after a last group of n bytes. */
  function Padding(n: nat): seq<byte>
  {
    if n < 5 then Pads(PadCount(n)) else []
  }

  /** The number x with the zero bits that fill the last digit of a group of n bytes. */
  function Shift(n: nat, x: nat): nat
  {
    if n == 1 then 4 * x else if n == 2 then 16 * x else if n == 3 then 2 * x else if n == 4 then 8 * x else x
  }

  lemma QuantumSpelled(b: seq<byte>)
    requires 1 <= |b| <= 5
    ensures var d, t := QuantumDigits(b), EncodeQuantum(b);
            |d| <= |t| && Spells(t[..|d|], d, Alphabet()) && t[|d|..] == Padding(|b|)
  {
    var d := QuantumDigits(b);
    forall i | 0 <= i < |d| ensures d[i] < |Alphabet()| && EncodeQuantum(b)[i] == Alphabet()[d[i]] {
      AlphabetAt(d[i]);
    }
  }

  // Digit by digit: the number so far is that of the bytes so far, and the first bits of the next byte.
  lemma TwoDigits(n: nat, d: seq<nat>, b0: byte, b1: byte)
    requires |d| >= 2 && d[0] == b0 / 8 && d[1] == Digit1(b0, b1)
    ensures NumberFrom(n, d, 32) == NumberFrom((n * 256 + b0) * 4 + b1 / 64, d[2..], 32)
  {
    assert d[0..] == d;
    var h := NextDigit(n, d, 0, 32);
    h := NextDigit(h, d, 1, 32);
    assert h == (n * 256 + b0) * 4 + b1 / 64;
  }

  lemma FourDigits(n: nat, d: seq<nat>, b1: byte, b2: byte)
    requires |d| >= 4 && d[2] == b1 % 64 / 2 && d[3] == Digit3(b1, b2)
    ensures NumberFrom(n * 4 + b1 / 64, d[2..], 32) == NumberFrom((n * 256 + b1) * 16 + b2 / 16, d[4..], 32)
  {
    var h := NextDigit(n * 4 + b1 / 64, d, 2, 32);
    h := NextDigit(h, d, 3, 32);
    assert h == (n * 256 + b1) * 16 + b2 / 16;
  }

  lemma FiveDigits(n: nat, d: seq<nat>, b2: byte, b3: byte)
    requires |d| >= 5 && d[4] == Digit4(b2, b3)
    ensures NumberFrom(n * 16 + b2 / 16, d[4..], 32) == NumberFrom((n * 256 + b2) * 2 + b3 / 128, d[5..], 32)
  {
    var h := NextDigit(n * 16 + b2 / 16, d, 4, 32);
    assert h == (n * 256 + b2) * 2 + b3 / 128;
  }

  lemma SevenDigits(n: nat, d: seq<nat>, b3: byte, b4: byte)
    requires |d| >= 7 && d[5] == b3 % 128 / 4 && d[6] == Digit6(b3, b4)
    ensures NumberFrom(n * 2 + b3 / 128, d[5..], 32) == NumberFrom((n * 256 + b3) * 8 + b4 / 32, d[7..], 32)
  {
    var h := NextDigit(n * 2 + b3 / 128, d, 5, 32);
    h := NextDigit(h, d, 6, 32);
    assert h == (n * 256 + b3) * 8 + b4 / 32;
  }

  lemma EightDigits(n: nat, d: seq<nat>, b4: byte)
    requires |d| == 8 && d[7] == b4 % 32
    ensures NumberFrom(n * 8 + b4 / 32, d[7..], 32) == n * 256 + b4
  {
    var h := NextDigit(n * 8 + b4 / 32, d, 7, 32);
    assert h == n * 256 + b4;
  }

  /** d has the digits of b, as far as it goes; what is missing from b counts as zero. */
  predicate DigitsOf(d: seq<nat>, b: seq<byte>)
  {
    && (|d| > 0 ==> d[0] == At(b, 0) / 8) && (|d| > 1 ==> d[1] == Digit1(At(b, 0), At(b, 1)))
    && (|d| > 2 ==> d[2] == At(b, 1) % 64 / 2) && (|d| > 3 ==> d[3] == Digit3(At(b, 1), At(b, 2)))
    && (|d| > 4 ==> d[4] == Digit4(At(b, 2), At(b, 3))) && (|d| > 5 ==> d[5] == At(b, 3) % 128 / 4)
    && (|d| > 6 ==> d[6] == Digit6(At(b, 3), At(b, 4))) && (|d| > 7 ==> d[7] == At(b, 4) % 32)
  }

  function At(b: seq<byte>, i: nat): byte
  {
    if i < |b| then b[i] else 0
  }

  function DigitCount(n: nat): nat
  {
    if n == 1 then 2 else if n == 2 then 4 else if n == 3 then 5 else if n == 4 then 7 else 8
  }

  lemma QuantumDigitsOf(b: seq<byte>)
    requires 1 <= |b| <= 5
    ensures DigitsOf(QuantumDigits(b), b) && |QuantumDigits(b)| == DigitCount(|b|)
  {
  }

  /** The number of the first k bytes, after those that count as `high`. */
  function BytesUpTo(high: nat, b: seq<byte>, k: nat): nat
  {
    if k == 0 then high else BytesUpTo(high, b, k - 1) * 256 + At(b, k - 1)
  }

  lemma {:induction false} BytesNumber(high: nat, b: seq<byte>, k: nat)
    requires k <= |b|
    ensures NumberFrom(high, b, 256) == NumberFrom(BytesUpTo(high, b, k), b[k..], 256)
  {
    if k == 0 {
      assert b[0..] == b;
    } else {
      BytesNumber(high, b, k - 1);
      var _ := NextDigit(BytesUpTo(high, b, k - 1), b, k - 1, 256);
    }
  }

  lemma FirstDigits(high: nat, d: seq<nat>, b: seq<byte>)
    requires DigitsOf(d, b) && |d| >= 2
    ensures NumberFrom(high, d, 32) == NumberFrom(BytesUpTo(high, b, 1) * 4 + At(b, 1) / 64, d[2..], 32)
    ensures |d| >= 4 ==>
              NumberFrom(high, d, 32) == NumberFrom(BytesUpTo(high, b, 2) * 16 + At(b, 2) / 16, d[4..], 32)
  {
    TwoDigits(high, d, At(b, 0), At(b, 1));
    if |d| >= 4 { FourDigits(BytesUpTo(high, b, 1), d, At(b, 1), At(b, 2)); }
  }

  lemma MoreDigits(high: nat, d: seq<nat>, b: seq<byte>)
    requires DigitsOf(d, b) && |d| >= 5
    ensures NumberFrom(high, d, 32) == NumberFrom(BytesUpTo(high, b, 3) * 2 + At(b, 3) / 128, d[5..], 32)
    ensures |d| >= 7 ==>
              NumberFrom(high, d, 32) == NumberFrom(BytesUpTo(high, b, 4) * 8 + At(b, 4) / 32, d[7..], 32)
  {
    FirstDigits(high, d, b);
    FiveDigits(BytesUpTo(high, b, 2), d, At(b, 2), At(b, 3));
    if |d| >= 7 { SevenDigits(BytesUpTo(high, b, 3), d, At(b, 3), At(b, 4)); }
  }

  lemma WorthOne(high: nat, d: seq<nat>, b: seq<byte>)
    requires |b| == 1 && |d| == 2 && d[0] == b[0] / 8 && d[1] == Digit1(b[0], 0)
    ensures NumberFrom(high, d, 32) == 4 * BytesUpTo(high, b, 1)
  {
    TwoDigits(high, d, b[0], 0);
    assert BytesUpTo(high, b, 1) == high * 256 + b[0];
    NoMoreDigits(4 * (high * 256 + b[0]), d, 32);
  }

  lemma WorthTwo(high: nat, d: seq<nat>, b: seq<byte>)
    requires |b| == 2 && |d| == 4 && DigitsOf(d, b)
    ensures NumberFrom(high, d, 32) == 16 * BytesUpTo(high, b, 2)
  {
    FirstDigits(high, d, b);
    NoMoreDigits(16 * BytesUpTo(high, b, 2), d, 32);
  }

  lemma MiddleWorth(high: nat, d: seq<nat>, b: seq<byte>)
    requires 3 <= |b| <= 4 && DigitsOf(d, b) && |d| == DigitCount(|b|)
    ensures NumberFrom(high, d, 32) == Shift(|b|, BytesUpTo(high, b, |b|))
  {
    MoreDigits(high, d, b);
    NoMoreDigits(if |b| == 3 then 2 * BytesUpTo(high, b, 3) else 8 * BytesUpTo(high, b, 4), d, 32);
  }

  lemma FullWorth(high: nat, d: seq<nat>, b: seq<byte>)
    requires |b| == 5 && DigitsOf(d, b) && |d| == 8
    ensures NumberFrom(high, d, 32) == BytesUpTo(high, b, 5)
  {
    MoreDigits(high, d, b);
    EightDigits(BytesUpTo(high, b, 4), d, At(b, 4));
  }

  lemma DigitsWorth(high: nat, b: seq<byte>, n: nat)
    requires 1 <= |b| <= 5 && n == BytesUpTo(high, b, |b|)
    ensures NumberFrom(high, QuantumDigits(b), 32) == Shift(|b|, n)
  {
    var d := QuantumDigits(b);
    QuantumDigitsOf(b);
    if |b| == 1 { WorthOne(high, d, b); } else if |b| == 2 { WorthTwo(high, d, b); }
    else if |b| <= 4 { MiddleWorth(high, d, b); } else { FullWorth(high, d, b); }
  }

  lemma BytesWorth(high: nat, b: seq<byte>)
    ensures NumberFrom(high, b, 256) == BytesUpTo(high, b, |b|)
  {
    BytesNumber(high, b, |b|);
    NoMoreDigits(BytesUpTo(high, b, |b|), b, 256);
  }

  lemma QuantumWorth(high: nat, b: seq<byte>)
    requires 1 <= |b| <= 5
    ensures NumberFrom(high, QuantumDigits(b), 32) == Shift(|b|, NumberFrom(high, b, 256))
  {
    BytesWorth(high, b);
    DigitsWorth(high, b, NumberFrom(high, b, 256));
  }

  /** Encoding: the input, read as one big-endian number, with zero bits added to fill the last digit, in base 32 and in
      the alphabet of the RFC, and then padding. */
  lemma EncodedNumber(s: seq<byte>) returns (digits: seq<nat>, groups: nat, last: nat)
    ensures |s| == 5 * groups + last && last <= 5 && (s != [] ==> last > 0)
    ensures && |digits| <= |Encode(s)| && Spells(Encode(s)[..|digits|], digits, Alphabet())
            && Encode(s)[|digits|..] == Padding(last)
            && NumberFrom(0, digits, 32) == Shift(last, NumberFrom(0, s, 256))
  {
    if s == [] {
      return [], 0, 0;
    }
    digits := DigitsAll(QuantumDigits, 5, s);
    forall b: seq<byte> | 1 <= |b| <= 5
      ensures var d, t := QuantumDigits(b), EncodeQuantum(b);
              |d| <= |t| && Spells(t[..|d|], d, Alphabet()) && t[|d|..] == Padding(|b|) {
      QuantumSpelled(b);
    }
    forall high: nat, b: seq<byte> | 1 <= |b| <= 5
      ensures NumberFrom(high, QuantumDigits(b), 32) == Shift(|b|, NumberFrom(high, b, 256)) {
      QuantumWorth(high, b);
    }
    SpelledAll(EncodeQuantum, QuantumDigits, Alphabet(), 5, Padding, s);
    WorthAll(QuantumDigits, 32, 5, Shift, 0, s);
    groups := LastSizeIs(5, s);
    last := LastSize(5, s);
  }
}
