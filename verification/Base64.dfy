/**
 The base 64 codec of util/base64_code.c (section 4 of RFC 4648).
 */
module Base64 {
  import opened Wrappers
  import opened Quanta

  // ----------------------------------------------------------------- alphabet

  /** to_b64[v] */
  function ToB64(v: nat): (c: byte)
    requires v < 64
    ensures c != PAD && c != 0
  {
    if v < 26 then 65 + v else if v < 52 then 71 + v else if v < 62 then v - 4 else if v == 62 then 43 else 47
  }

  /** un_b64[c] */
  function UnB64(c: byte): (v: byte)
    ensures v < 64 <==> v != INVALID
    ensures v < 64 ==> ToB64(v) == c
  {
    if 65 <= c <= 90 then c - 65 else if 97 <= c <= 122 then c - 71 else if 48 <= c <= 57 then c + 4
    else if c == 43 then 62 else if c == 47 then 63 else INVALID
  }

  lemma AlphabetInverse(v: nat)
    requires v < 64
    ensures UnB64(ToB64(v)) == v
  {
  }

  /** The loop that fills the lookup table the first time. */
  method InitTable() returns (un: array<byte>)
    ensures fresh(un) && un.Length == 256 && forall c :: 0 <= c < 256 ==> un[c] == UnB64(c)
  {
    un := new byte[256](_ => INVALID);
    for v := 0 to 64
      invariant forall c :: 0 <= c < 256 ==> un[c] == if UnB64(c) < v then UnB64(c) else INVALID
    {
      AlphabetInverse(v);
      un[ToB64(v)] := v;
    }
  }

  // ----------------------------------------------------------------- encoding

  // The digits that come from two neighbouring bytes.
  function Digit1(b0: byte, b1: byte): (d: nat) ensures d < 64 { b0 % 4 * 16 + b1 / 16 }
  function Digit2(b1: byte, b2: byte): (d: nat) ensures d < 64 { b1 % 16 * 4 + b2 / 64 }

  /** Up to three bytes as four characters; missing bytes count as zero. */
  function EncodeQuantum(b: seq<byte>): seq<byte>
  {
    if |b| == 1 then [ToB64(b[0] / 4), ToB64(Digit1(b[0], 0)), PAD, PAD]
    else if |b| == 2 then [ToB64(b[0] / 4), ToB64(Digit1(b[0], b[1])), ToB64(Digit2(b[1], 0)), PAD]
    else if |b| == 3 then [ToB64(b[0] / 4), ToB64(Digit1(b[0], b[1])), ToB64(Digit2(b[1], b[2])), ToB64(b[2] % 64)]
    else []
  }

  function Encode(s: seq<byte>): seq<byte>
  {
    EncodeAll(EncodeQuantum, 3, s)
  }

  /** Encoded data can be sent as a null-terminated string. */
  lemma EncodeNoNull(s: seq<byte>)
    ensures 0 !in Encode(s)
  {
    forall b: seq<byte> | 1 <= |b| <= 3 ensures 0 !in EncodeQuantum(b) {
    }
    EncodeAllWithout(EncodeQuantum, 3, s, 0);
  }

  lemma Four(r: seq<byte>, a: byte, b: byte, c: byte, d: byte)
    ensures r + [a] + [b] + [c] + [d] == r + [a, b, c, d]
  {
  }

  /** One round of the loop in base64_encode_opt: the characters for up to three bytes. */
  method EncodeRound(result: seq<byte>, b: seq<byte>, count: int) returns (r: seq<byte>, stop: bool)
    requires |b| >= 1 && (if count < 3 then |b| == count else |b| == 3)
    ensures r == result + EncodeQuantum(b) && (stop <==> count < 3)
  {
    r, stop := result + [ToB64(b[0] / 4)], false;
    if count > 1 {
      r := r + [ToB64(b[0] % 4 * 16 + b[1] / 16)];
      if count > 2 {
        r := r + [ToB64(b[1] % 16 * 4 + b[2] / 64)];
        r := r + [ToB64(b[2] % 64)];
      } else {
        r := r + [ToB64(b[1] % 16 * 4)];
        r := r + [PAD];
        stop := true;
      }
    } else {
      r := r + [ToB64(b[0] % 4 * 16)];
      r := r + [PAD];
      r := r + [PAD];
      stop := true;
    }
    ghost var q := EncodeQuantum(b);
    Four(result, q[0], q[1], q[2], q[3]);
  }

  /** base64_encode_opt: what is in `result` is kept if `append` is set. */
  method EncodeOpt(result: seq<byte>, s: seq<byte>, append: bool) returns (r: seq<byte>)
    ensures r == (if append then result else []) + Encode(s)
  {
    r := if append then result else [];
    ghost var all := r + Encode(s);
    assert s[0..] == s;
    var cp, count := 0, |s|;
    while count > 0
      invariant 0 <= cp <= |s| && cp == |s| - count
      invariant r + Encode(s[cp..]) == all
    {
      var end := if count > 3 then cp + 3 else |s|;
      EncodeStep(EncodeQuantum, 3, s, cp);
      Regroup(r, EncodeQuantum(s[cp..end]), Encode(s[end..]));
      var stop;
      r, stop := EncodeRound(r, s[cp..end], count);
      if stop {
        break;
      }
      count, cp := count - 3, cp + 3;
    }
  }

  // ----------------------------------------------------------------- decoding

  function Byte0(v0: nat, v1: nat): byte
    requires v0 < 64 && v1 < 64
  {
    v0 * 4 + v1 / 16
  }

  function Byte1(v1: nat, v2: nat): byte
    requires v1 < 64 && v2 < 64
  {
    v1 % 16 * 16 + v2 / 4
  }

  function Byte2(v2: nat, v3: nat): byte
    requires v2 < 64 && v3 < 64
  {
    v2 % 4 * 64 + v3
  }

  /** Four characters: '=' in third place ends the input, whatever the fourth is, and so does '=' in fourth place. */
  function DecodeQuantum(q: seq<byte>): Group
  {
    if |q| < 4 then Bad
    else
      var v0, v1, v2, v3 := UnB64(q[0]), UnB64(q[1]), UnB64(q[2]), UnB64(q[3]);
      if v0 == INVALID || v1 == INVALID then Bad
      else if q[2] == PAD then Last([Byte0(v0, v1)])
      else if v2 == INVALID then Bad
      else if q[3] == PAD then Last([Byte0(v0, v1), Byte1(v1, v2)])
      else if v3 == INVALID then Bad
      else More([Byte0(v0, v1), Byte1(v1, v2), Byte2(v2, v3)])
  }

  function Decode(s: seq<byte>): Option<seq<byte>>
  {
    DecodeWith(DecodeQuantum, 4, s)
  }

  lemma CharBytes(v0: nat, v1: nat, v2: nat, v3: nat)
    requires v0 < 64 && v1 < 64 && v2 < 64 && v3 < 64
    ensures Char(v0 * 4 + v1 / 16) == Byte0(v0, v1)
    ensures Char(v1 * 16 + v2 / 4) == Byte1(v1, v2)
    ensures Char(v2 * 64 + v3) == Byte2(v2, v3)
  {
    CharOf(0, Byte0(v0, v1));
    CharOf(v1 / 16, Byte1(v1, v2));
    CharOf(v2 / 4, Byte2(v2, v3));
  }

  /** One round of the loop in base64_decode_opt, at position cp. */
  method DecodeRound(un: array<byte>, result: seq<byte>, s: seq<byte>, cp: nat)
      returns (r: seq<byte>, ok: bool, stop: bool)
    requires cp + 4 <= |s| && un.Length == 256 && forall c :: 0 <= c < 256 ==> un[c] == UnB64(c)
    ensures ok <==> !DecodeQuantum(s[cp..]).Bad?
    ensures ok ==> r == result + DecodeQuantum(s[cp..]).bytes && (stop <==> DecodeQuantum(s[cp..]).Last?)
  {
    r, ok, stop := result, false, false;
    var v0: nat := un[s[cp]];
    var v1: nat := un[s[cp + 1]];
    if v0 == INVALID || v1 == INVALID {
      return;
    }
    CharBytes(v0, v1, 0, 0);
    r := r + [Char(v0 * 4 + v1 / 16)];
    if s[cp + 2] == PAD {
      return r, true, true;
    }
    var v2: nat := un[s[cp + 2]];
    if v2 == INVALID {
      return;
    }
    CharBytes(v0, v1, v2, 0);
    r := r + [Char(v1 * 16 + v2 / 4)];
    if s[cp + 3] == PAD {
      return r, true, true;
    }
    var v3: nat := un[s[cp + 3]];
    if v3 == INVALID {
      return;
    }
    CharBytes(v0, v1, v2, v3);
    r := r + [Char(v2 * 64 + v3)];
    return r, true, false;
  }

  /** The loop of base64_decode_opt, for a function that is known to be DecodeQuantum. */
  method DecodeLoop(ghost dec: seq<byte> -> Group, result: seq<byte>, s: seq<byte>) returns (r: seq<byte>, ok: bool)
    requires forall x {:trigger DecodeQuantum(x)} :: dec(x) == DecodeQuantum(x)
    requires |s| % 4 == 0
    ensures ok <==> DecodeAll(dec, 4, s).Some?
    ensures ok ==> r == result + DecodeAll(dec, 4, s).value
  {
    r := result;
    var un := InitTable();
    assert s[0..] == s;
    var count := 0;
    while count < |s|
      invariant 0 <= count <= |s| && count % 4 == 0
      invariant Continues(result, DecodeAll(dec, 4, s), r, DecodeAll(dec, 4, s[count..]))
      modifies {}
    {
      assert s[count..][4..] == s[count + 4..];
      ghost var r1 := r;
      var stop;
      r, ok, stop := DecodeRound(un, r, s, count);
      if !ok {
        return r, false;
      }
      if stop {
        break;
      }
      ContinueMore(result, DecodeAll(dec, 4, s), r1, dec(s[count..]).bytes, DecodeAll(dec, 4, s[count + 4..]));
      count := count + 4;
    }
    ok := true;
  }

  /** base64_decode_opt: what is in `result` is kept if `append` is set; refused input gives no result. */
  method DecodeOpt(result: seq<byte>, s: seq<byte>, append: bool) returns (r: seq<byte>, ok: bool)
    ensures ok <==> Decode(s).Some?
    ensures ok ==> r == (if append then result else []) + Decode(s).value
  {
    if |s| % 4 != 0 {
      return result, false;
    }
    r, ok := DecodeLoop(DecodeQuantum, if append then result else [], s);
  }

  // -------------------------------------------------------------- round trips

  lemma BytesLow(b0: byte, b1: byte, b2: byte)
    ensures Byte0(b0 / 4, Digit1(b0, b1)) == b0 && Byte1(Digit1(b0, b1), Digit2(b1, b2)) == b1
  {
    assert Digit1(b0, b1) / 16 == b0 % 4 && Digit1(b0, b1) % 16 == b1 / 16;
    assert Digit2(b1, b2) / 4 == b1 % 16;
  }

  lemma BytesHigh(b1: byte, b2: byte)
    ensures Byte2(Digit2(b1, b2), b2 % 64) == b2
  {
    assert Digit2(b1, b2) % 4 == b2 / 64;
  }

  lemma Inverses(b0: byte, b1: byte, b2: byte)
    ensures UnB64(ToB64(b0 / 4)) == b0 / 4 && UnB64(ToB64(Digit1(b0, b1))) == Digit1(b0, b1)
    ensures UnB64(ToB64(Digit2(b1, b2))) == Digit2(b1, b2) && UnB64(ToB64(b2 % 64)) == b2 % 64
  {
    AlphabetInverse(b0 / 4);
    AlphabetInverse(Digit1(b0, b1));
    AlphabetInverse(Digit2(b1, b2));
    AlphabetInverse(b2 % 64);
  }

  lemma RoundTripOne(b: seq<byte>)
    requires |b| == 1
    ensures DecodeQuantum(EncodeQuantum(b)) == Last(b)
  {
    BytesLow(b[0], 0, 0);
    Inverses(b[0], 0, 0);
    assert b == [b[0]];
  }

  lemma RoundTripTwo(b: seq<byte>)
    requires |b| == 2
    ensures DecodeQuantum(EncodeQuantum(b)) == Last(b)
  {
    BytesLow(b[0], b[1], 0);
    Inverses(b[0], b[1], 0);
    assert b == [b[0], b[1]];
  }

  lemma RoundTripThree(b: seq<byte>, rest: seq<byte>)
    requires |b| == 3
    ensures DecodeQuantum(EncodeQuantum(b) + rest) == More(b)
  {
    BytesLow(b[0], b[1], b[2]);
    BytesHigh(b[1], b[2]);
    Inverses(b[0], b[1], b[2]);
    assert b == [b[0], b[1], b[2]];
  }

  lemma Inverse64()
    ensures Inverse(EncodeQuantum, DecodeQuantum, 3, 4)
  {
    forall b: seq<byte> | 1 <= |b| <= 3 ensures |EncodeQuantum(b)| == 4 {
    }
    forall b: seq<byte> | 1 <= |b| < 3 ensures DecodeQuantum(EncodeQuantum(b)) == Last(b) {
      if |b| == 1 { RoundTripOne(b); } else { RoundTripTwo(b); }
    }
    forall b: seq<byte>, rest: seq<byte> | |b| == 3 ensures DecodeQuantum(EncodeQuantum(b) + rest) == More(b) {
      RoundTripThree(b, rest);
    }
  }

  /** Decoding undoes encoding, for every byte string. */
  lemma RoundTrip(s: seq<byte>)
    ensures Decode(Encode(s)) == Some(s)
  {
    Inverse64();
    RoundTrips(EncodeQuantum, DecodeQuantum, 3, 4, s);
  }

  /** A last quantum with no bits and no characters that the decoder ignores. */
  predicate Tidy(q: seq<byte>)
  {
    && |q| == 4
    && if q[2] == PAD then q[3] == PAD && UnB64(q[1]) % 16 == 0
       else q[3] == PAD ==> UnB64(q[2]) % 4 == 0
  }

  lemma DigitsOne(v0: nat, v1: nat)
    requires v0 < 64 && v1 < 64
    ensures Byte0(v0, v1) / 4 == v0 && (Digit1(Byte0(v0, v1), 0) == v1 <==> v1 % 16 == 0)
  {
  }

  lemma DigitsTwo(v0: nat, v1: nat, v2: nat)
    requires v0 < 64 && v1 < 64 && v2 < 64
    ensures Digit1(Byte0(v0, v1), Byte1(v1, v2)) == v1 && (Digit2(Byte1(v1, v2), 0) == v2 <==> v2 % 4 == 0)
  {
    assert Byte0(v0, v1) % 4 == v1 / 16;
    assert Byte1(v1, v2) / 16 == v1 % 16;
    assert Byte1(v1, v2) % 16 == v2 / 4;
  }

  lemma DigitsThree(v1: nat, v2: nat, v3: nat)
    requires v1 < 64 && v2 < 64 && v3 < 64
    ensures Digit2(Byte1(v1, v2), Byte2(v2, v3)) == v2 && Byte2(v2, v3) % 64 == v3
  {
    assert Byte1(v1, v2) % 16 == v2 / 4;
    var a := v2 % 4;
    assert (a * 64 + v3) / 64 == a && (a * 64 + v3) % 64 == v3;
  }

  lemma ToB64Injective(v: nat, w: nat)
    requires v < 64 && w < 64
    ensures ToB64(v) == ToB64(w) <==> v == w
  {
    AlphabetInverse(v);
    AlphabetInverse(w);
  }

  lemma QuantumReencodes(s: seq<byte>)
    requires |s| >= 4
    ensures match DecodeQuantum(s)
            case Bad => true
            case Last(b) => 1 <= |b| < 3 && PAD in s[..4] && |EncodeQuantum(b)| == 4
              && (EncodeQuantum(b) == s[..4] <==> Tidy(s[..4]))
            case More(b) => |b| == 3 && PAD !in s[..4] && EncodeQuantum(b) == s[..4] && Tidy(s[..4])
  {
    var v0, v1, v2, v3 := UnB64(s[0]), UnB64(s[1]), UnB64(s[2]), UnB64(s[3]);
    var q := s[..4];
    assert q == [s[0], s[1], s[2], s[3]];
    if v0 != INVALID && v1 != INVALID {
      DigitsOne(v0, v1);
      if q[2] == PAD {
        ToB64Injective(Digit1(Byte0(v0, v1), 0), v1);
      } else if v2 != INVALID {
        DigitsTwo(v0, v1, v2);
        if q[3] == PAD {
          ToB64Injective(Digit2(Byte1(v1, v2), 0), v2);
        } else if v3 != INVALID {
          DigitsThree(v1, v2, v3);
        }
      }
    }
  }

  /** Accepted input is the encoding of its result exactly if '=' occurs only at the end, and nothing in the last
      quantum is ignored. */
  lemma ReencodesExactly(s: seq<byte>)
    requires Decode(s).Some?
    ensures Encode(Decode(s).value) == s <==> Canonical(Tidy, 4, s)
  {
    forall s: seq<byte> | |s| >= 4
      ensures match DecodeQuantum(s)
              case Bad => true
              case Last(b) => 1 <= |b| < 3 && PAD in s[..4] && |EncodeQuantum(b)| == 4
                && (|s| == 4 ==> (EncodeQuantum(b) == s <==> Tidy(s)))
              case More(b) => |b| == 3 && PAD !in s[..4] && EncodeQuantum(b) == s[..4] && (|s| == 4 ==> Tidy(s)) {
      QuantumReencodes(s);
      assert |s| == 4 ==> s[..4] == s;
    }
    assert Reencodes(EncodeQuantum, DecodeQuantum, Tidy, 3, 4);
    EncodeDecode(EncodeQuantum, DecodeQuantum, Tidy, 3, 4, s, |s| / 4);
  }

  // ------------------------------------------------------- what the encoding means

  /** Table 1 of RFC 4648. */
  function Alphabet(): seq<byte>
  {
    Range('A' as int, 'Z' as int) + Range('a' as int, 'z' as int) + Range('0' as int, '9' as int)
    + ['+' as int, '/' as int]
  }

  lemma AlphabetAt(v: nat)
    requires v < 64
    ensures |Alphabet()| == 64 && Alphabet()[v] == ToB64(v)
  {
    RangeAt('A' as int, 'Z' as int, if v < 26 then v else 0);
    RangeAt('a' as int, 'z' as int, if 26 <= v < 52 then v - 26 else 0);
    RangeAt('0' as int, '9' as int, if 52 <= v < 62 then v - 52 else 0);
  }

  function QuantumDigits(b: seq<byte>): (d: seq<nat>)
    ensures forall i :: 0 <= i < |d| ==> d[i] < 64
  {
    if |b| == 1 then [b[0] / 4, Digit1(b[0], 0)]
    else if |b| == 2 then [b[0] / 4, Digit1(b[0], b[1]), Digit2(b[1], 0)]
    else if |b| == 3 then [b[0] / 4, Digit1(b[0], b[1]), Digit2(b[1], b[2]), b[2] % 64]
    else []
  }

  /** The padding after a last group of n bytes. */
  function Padding(n: nat): seq<byte>
  {
    if n == 1 then [PAD, PAD] else if n == 2 then [PAD] else []
  }

  /** The number x with the zero bits that fill the last digit of a group of n bytes. */
  function Shift(n: nat, x: nat): nat
  {
    if n == 1 then 16 * x else if n == 2 then 4 * x else x
  }

  lemma QuantumSpelled(b: seq<byte>)
    requires 1 <= |b| <= 3
    ensures var d, t := QuantumDigits(b), EncodeQuantum(b);
            |d| <= |t| && Spells(t[..|d|], d, Alphabet()) && t[|d|..] == Padding(|b|)
  {
    var d := QuantumDigits(b);
    forall i | 0 <= i < |d| ensures d[i] < |Alphabet()| && EncodeQuantum(b)[i] == Alphabet()[d[i]] {
      AlphabetAt(d[i]);
    }
  }

  lemma QuantumWorth(high: nat, b: seq<byte>)
    requires 1 <= |b| <= 3
    ensures NumberFrom(high, QuantumDigits(b), 64) == Shift(|b|, NumberFrom(high, b, 256))
  {
    var d := QuantumDigits(b);
    assert d[0..] == d && b[0..] == b;
    var h := NextDigit(high, d, 0, 64);
    h := NextDigit(h, d, 1, 64);
    var n := NextDigit(high, b, 0, 256);
    if |b| > 1 {
      h := NextDigit(h, d, 2, 64);
      n := NextDigit(n, b, 1, 256);
    }
    if |b| > 2 {
      h := NextDigit(h, d, 3, 64);
      n := NextDigit(n, b, 2, 256);
    }
    assert h == Shift(|b|, n);
  }

  /** Encoding: the input, read as one big-endian number, with zero bits added to fill the last digit, in base 64 and in
      the alphabet of the RFC, and then padding. */
  lemma EncodedNumber(s: seq<byte>) returns (digits: seq<nat>, groups: nat, last: nat)
    ensures |s| == 3 * groups + last && last <= 3 && (s != [] ==> last > 0)
    ensures && |digits| <= |Encode(s)| && Spells(Encode(s)[..|digits|], digits, Alphabet())
            && Encode(s)[|digits|..] == Padding(last)
            && NumberFrom(0, digits, 64) == Shift(last, NumberFrom(0, s, 256))
  {
    if s == [] {
      return [], 0, 0;
    }
    digits := DigitsAll(QuantumDigits, 3, s);
    forall b: seq<byte> | 1 <= |b| <= 3
      ensures var d, t := QuantumDigits(b), EncodeQuantum(b);
              |d| <= |t| && Spells(t[..|d|], d, Alphabet()) && t[|d|..] == Padding(|b|) {
      QuantumSpelled(b);
    }
    forall high: nat, b: seq<byte> | 1 <= |b| <= 3
      ensures NumberFrom(high, QuantumDigits(b), 64) == Shift(|b|, NumberFrom(high, b, 256)) {
      QuantumWorth(high, b);
    }
    SpelledAll(EncodeQuantum, QuantumDigits, Alphabet(), 3, Padding, s);
    WorthAll(QuantumDigits, 64, 3, Shift, 0, s);
    groups := LastSizeIs(3, s);
    last := LastSize(3, s);
  }

  // ------------------------------------------------------------- what is accepted

  /** The place of the first '=', or the length. */
  function FirstPad(s: seq<byte>): (p: nat)
    ensures p <= |s| && (p < |s| ==> s[p] == PAD) && forall i :: 0 <= i < p ==> s[i] != PAD
  {
    if s == [] || s[0] == PAD then 0 else 1 + FirstPad(s[1..])
  }

  predicate CharOk(s: seq<byte>, i: nat)
  {
    i < |s| && UnB64(s[i]) != INVALID
  }

  predicate CharsOk(s: seq<byte>, p: nat)
  {
    forall i {:trigger CharOk(s, i)} :: 0 <= i < p ==> CharOk(s, i)
  }

  /** Characters of the alphabet up to the first '=', which is in third or fourth place. */
  predicate GoodUpToPad(s: seq<byte>)
  {
    GoodUpTo(s, FirstPad(s))
  }

  predicate GoodUpTo(s: seq<byte>, p: nat)
  {
    (p < |s| ==> p % 4 >= 2) && CharsOk(s, p)
  }

  predicate FourOk(s: seq<byte>)
  {
    CharOk(s, 0) && CharOk(s, 1) && CharOk(s, 2) && CharOk(s, 3)
  }

  lemma CharsOkAfter(s: seq<byte>, p: nat)
    requires 4 <= p <= |s|
    ensures CharsOk(s, p) <==> FourOk(s) && CharsOk(s[4..], p - 4)
  {
    var t := s[4..];
    if CharsOk(s, p) {
      assert FourOk(s);
      forall i | 0 <= i < p - 4 ensures CharOk(t, i) {
        assert CharOk(s, i + 4);
      }
    }
    if FourOk(s) && CharsOk(t, p - 4) {
      forall i | 0 <= i < p ensures CharOk(s, i) {
        if i >= 4 { assert CharOk(t, i - 4); }
      }
    }
  }

  lemma InAlphabet(c: byte)
    ensures UnB64(c) != INVALID <==> c in Alphabet()
  {
    if UnB64(c) != INVALID {
      AlphabetAt(UnB64(c));
    } else if c in Alphabet() {
      AlphabetAt(0);
      var v :| 0 <= v < |Alphabet()| && Alphabet()[v] == c;
      AlphabetAt(v);
      AlphabetInverse(v);
    }
  }

  lemma PadAfter(s: seq<byte>)
    requires |s| >= 4 && FirstPad(s) >= 4
    ensures FirstPad(s) == 4 + FirstPad(s[4..])
  {
    var p := 4 + FirstPad(s[4..]);
    assert forall i :: 4 <= i < p ==> s[i] == s[4..][i - 4];
  }

  lemma FewOk(s: seq<byte>)
    ensures CharsOk(s, 2) <==> CharOk(s, 0) && CharOk(s, 1)
    ensures CharsOk(s, 3) <==> CharOk(s, 0) && CharOk(s, 1) && CharOk(s, 2)
  {
  }

  lemma LastGroup(s: seq<byte>, p: nat)
    requires |s| >= 4 && p < 4 && s[p] == PAD && forall i :: 0 <= i < p ==> s[i] != PAD
    ensures !DecodeQuantum(s).Bad? <==> p >= 2 && CharOk(s, 0) && CharOk(s, 1) && (p == 3 ==> CharOk(s, 2))
    ensures !DecodeQuantum(s).More?
  {
  }

  lemma AcceptsLast(s: seq<byte>)
    requires |s| >= 4 && FirstPad(s) < 4
    ensures DecodeAll(DecodeQuantum, 4, s).Some? <==> GoodUpToPad(s)
  {
    LastGroup(s, FirstPad(s));
    FewOk(s);
  }

  lemma AcceptsGroup(s: seq<byte>)
    requires |s| >= 4 && FirstPad(s) >= 4
    ensures DecodeAll(DecodeQuantum, 4, s).Some? <==> FourOk(s) && DecodeAll(DecodeQuantum, 4, s[4..]).Some?
  {
    assert s[2] != PAD && s[3] != PAD;
  }

  lemma GoodAfter(s: seq<byte>)
    requires |s| >= 4 && FirstPad(s) >= 4
    ensures GoodUpToPad(s) <==> FourOk(s) && GoodUpToPad(s[4..])
  {
    PadAfter(s);
    GoodUpToAfter(s, FirstPad(s[4..]));
  }

  lemma GoodUpToAfter(s: seq<byte>, q: nat)
    requires 4 + q <= |s|
    ensures GoodUpTo(s, 4 + q) <==> FourOk(s) && GoodUpTo(s[4..], q)
  {
    CharsOkAfter(s, 4 + q);
    assert (4 + q) % 4 == q % 4;
  }

  lemma {:induction false} AcceptsFrom(s: seq<byte>)
    requires |s| % 4 == 0
    ensures DecodeAll(DecodeQuantum, 4, s).Some? <==> GoodUpToPad(s)
    decreases |s|
  {
    if s != [] {
      if FirstPad(s) >= 4 {
        GoodAfter(s);
        AcceptsGroup(s);
        AcceptsFrom(s[4..]);
      } else {
        AcceptsLast(s);
      }
    }
  }

  /** Decoding accepts exactly the input of which the length is a multiple of four, and in which characters of the
      alphabet come first, and then perhaps '=' in third or fourth place of a group; what follows that is ignored. */
  lemma AcceptsExactly(s: seq<byte>)
    ensures Decode(s).Some? <==> |s| % 4 == 0 && GoodUpToPad(s)
  {
    if |s| % 4 == 0 { AcceptsFrom(s); }
  }
}
