/**
 The address patterns of util/cidr_match.c: a network, a mask, and whether to negate.
 Results of inet_pton() are parameters.
 */
module CidrMatch {
  import opened Wrappers

  datatype Family = INET | INET6

  function ByteCount(f: Family): nat { if f == INET6 then 16 else 4 }
  function BitCount(f: Family): nat { if f == INET6 then 128 else 32 }

  /** The part of a CIDR_MATCH entry that is the pattern. */
  datatype Pattern = Pattern(positive: bool, net: seq<byte>, mask: seq<byte>, family: Family, byteCount: nat,
    bitCount: nat, maskShift: nat)

  // --------------------------------------------------------------------- bits

  /** The j-th bit of a number, from the right. */
  predicate NthBit(a: nat, j: nat)
  {
    if j == 0 then a % 2 == 1 else NthBit(a / 2, j - 1)
  }

  /** The bitwise and of two numbers. */
  function And(a: nat, b: nat): (r: nat)
    ensures r <= a
  {
    if a == 0 || b == 0 then 0 else 2 * And(a / 2, b / 2) + (if a % 2 == 1 && b % 2 == 1 then 1 else 0)
  }

  /** w bits, of which the first k are one. */
  function TopOnes(k: nat, w: nat): (r: nat)
    requires k <= w
    ensures r < Pow2(w)
  {
    if w == 0 then 0 else if k == w then 2 * TopOnes(k - 1, w - 1) + 1 else 2 * TopOnes(k, w - 1)
  }

  lemma {:induction false} ZeroBits(j: nat)
    ensures !NthBit(0, j)
  {
    if j > 0 {
      ZeroBits(j - 1);
    }
  }

  lemma {:induction false} AndBits(a: nat, b: nat, j: nat)
    ensures NthBit(And(a, b), j) <==> NthBit(a, j) && NthBit(b, j)
    decreases j
  {
    if a == 0 || b == 0 {
      ZeroBits(j);
    } else if j > 0 {
      AndBits(a / 2, b / 2, j - 1);
      assert And(a, b) / 2 == And(a / 2, b / 2);
    }
  }

  lemma {:induction false} TopOnesBits(k: nat, w: nat, j: nat)
    requires k <= w && j < w
    ensures NthBit(TopOnes(k, w), j) <==> j >= w - k
    decreases w
  {
    if j > 0 {
      TopOnesBits(if k == w then k - 1 else k, w - 1, j - 1);
    }
  }

  /** The bitwise complement of a w-bit number. */
  lemma {:induction false} NotBits(a: nat, w: nat, j: nat)
    requires a < Pow2(w) && j < w
    ensures NthBit(Pow2(w) - 1 - a, j) <==> !NthBit(a, j)
    decreases w
  {
    HalfNot(Pow2(w - 1), a);
    if j > 0 {
      NotBits(a / 2, w - 1, j - 1);
    }
  }

  lemma HalfNot(p: nat, a: nat)
    requires a < 2 * p
    ensures (2 * p - 1 - a) / 2 == p - 1 - a / 2 && (2 * p - 1 - a) % 2 == 1 - a % 2 && a / 2 < p
  {
  }

  /** A number is its bits. */
  lemma {:induction false} SameBits(a: nat, b: nat, w: nat)
    requires a < Pow2(w) && b < Pow2(w) && forall j :: 0 <= j < w ==> (NthBit(a, j) <==> NthBit(b, j))
    ensures a == b
    decreases w
  {
    if w > 0 {
      forall j | 0 <= j < w - 1 ensures NthBit(a / 2, j) <==> NthBit(b / 2, j) {
        assert NthBit(a, j + 1) <==> NthBit(b, j + 1);
      }
      SameBits(a / 2, b / 2, w - 1);
      assert NthBit(a, 0) <==> NthBit(b, 0);
    }
  }

  lemma ByteBound()
    ensures Pow2(8) == 256
  {
    assert Pow2(4) == 16;
    assert Pow2(8) == 16 * Pow2(4);
  }

  /** The j-th bit of a byte, from the left. */
  predicate BitOf(b: byte, j: nat)
    requires j < 8
  {
    NthBit(b, 7 - j)
  }

  /** The i-th bit of an address, in network byte order. */
  predicate Bit(s: seq<byte>, i: nat)
    requires i < 8 * |s|
  {
    BitOf(s[i / 8], i % 8)
  }

  /** `~0U << (CHAR_BIT - k)`, cut to a byte. */
  function Ones(k: nat): (m: byte)
    requires k <= 8
  {
    ByteBound();
    TopOnes(k, 8)
  }

  function AndByte(a: byte, b: byte): byte
  {
    And(a, b)
  }

  /** `~b`, cut to a byte. */
  function NotByte(b: byte): byte
  {
    255 - b
  }

  /** How many of the first `bits` bits are in byte i. */
  function InByte(bits: nat, i: nat): (k: nat)
    ensures k <= 8
  {
    if bits <= 8 * i then 0 else if bits >= 8 * i + 8 then 8 else bits - 8 * i
  }

  lemma SameByte(a: byte, b: byte)
    requires forall j :: 0 <= j < 8 ==> (BitOf(a, j) <==> BitOf(b, j))
    ensures a == b
  {
    ByteBound();
    forall i | 0 <= i < 8 ensures NthBit(a, i) <==> NthBit(b, i) {
      assert BitOf(a, 7 - i) <==> BitOf(b, 7 - i);
    }
    SameBits(a, b, 8);
  }

  lemma MaskedBit(a: byte, k: nat, j: nat)
    requires k <= 8 && j < 8
    ensures BitOf(AndByte(a, Ones(k)), j) <==> BitOf(a, j) && j < k
  {
    AndBits(a, Ones(k), 7 - j);
    TopOnesBits(k, 8, 7 - j);
  }

  /** The masked compare of one byte. */
  lemma MaskedCompare(a: byte, n: byte, k: nat)
    requires k <= 8 && AndByte(n, Ones(k)) == n
    ensures AndByte(a, Ones(k)) == n <==> forall j :: 0 <= j < k ==> (BitOf(a, j) <==> BitOf(n, j))
  {
    var m := AndByte(a, Ones(k));
    forall j | 0 <= j < 8 ensures (BitOf(m, j) <==> BitOf(a, j) && j < k) && (BitOf(n, j) ==> j < k) {
      MaskedBit(a, k, j);
      MaskedBit(n, k, j);
    }
    if forall j :: 0 <= j < k ==> (BitOf(a, j) <==> BitOf(n, j)) {
      SameByte(m, n);
    }
  }

  /** Masking changes nothing if the other bits are zero. */
  lemma HostBits(n: byte, k: nat)
    requires k <= 8
    ensures AndByte(n, Ones(k)) == n <==> forall j :: k <= j < 8 ==> !BitOf(n, j)
  {
    var m := AndByte(n, Ones(k));
    forall j | 0 <= j < 8 ensures BitOf(m, j) <==> BitOf(n, j) && j < k {
      MaskedBit(n, k, j);
    }
    if forall j :: k <= j < 8 ==> !BitOf(n, j) {
      SameByte(m, n);
    }
  }

  lemma NotByteBits(m: byte, i: nat)
    requires i < 8
    ensures NthBit(NotByte(m), i) <==> !NthBit(m, i)
  {
    ByteBound();
    NotBits(m, 8, i);
  }

  lemma NotMaskedBit(n: byte, k: nat, j: nat)
    requires k <= 8 && j < 8
    ensures BitOf(AndByte(n, NotByte(Ones(k))), j) <==> BitOf(n, j) && j >= k
  {
    var m := Ones(k);
    AndBits(n, NotByte(m), 7 - j);
    NotByteBits(m, 7 - j);
    TopOnesBits(k, 8, 7 - j);
  }

  /** `*np & ~(*mp)` is zero if nothing is masked away. */
  lemma NotOnes(n: byte, k: nat)
    requires k <= 8
    ensures AndByte(n, NotByte(Ones(k))) == 0 <==> AndByte(n, Ones(k)) == n
  {
    HostBits(n, k);
    var m := AndByte(n, NotByte(Ones(k)));
    forall j | 0 <= j < 8 ensures (BitOf(m, j) <==> BitOf(n, j) && j >= k) && !BitOf(0, j) {
      NotMaskedBit(n, k, j);
      ZeroBits(7 - j);
    }
    if forall j :: k <= j < 8 ==> !BitOf(n, j) {
      SameByte(m, 0);
    }
  }

  lemma AllAndNone(b: byte)
    ensures AndByte(b, Ones(8)) == b && AndByte(b, Ones(0)) == 0
  {
    HostBits(b, 8);
    var m := AndByte(b, Ones(0));
    forall j | 0 <= j < 8 ensures !BitOf(m, j) && !BitOf(0, j) {
      MaskedBit(b, 0, j);
      ZeroBits(7 - j);
    }
    SameByte(m, 0);
  }

  lemma {:induction false} AllOnes(w: nat)
    ensures TopOnes(w, w) == Pow2(w) - 1
  {
    if w > 0 {
      AllOnes(w - 1);
    }
  }

  lemma AllOnesAnd(k: nat)
    requires k <= 8
    ensures AndByte(255, Ones(k)) == Ones(k) && Ones(8) == 255
  {
    ByteBound();
    AllOnes(8);
    var m := AndByte(255, Ones(k));
    forall j | 0 <= j < 8 ensures BitOf(m, j) <==> BitOf(Ones(k), j) {
      MaskedBit(255, k, j);
      TopOnesBits(k, 8, 7 - j);
      TopOnesBits(8, 8, 7 - j);
    }
    SameByte(m, Ones(k));
  }

  // ----------------------------------------------------------------- patterns

  /** What cidr_match_parse() leaves in an entry. */
  ghost predicate Compiled(p: Pattern)
  {
    && p.byteCount == ByteCount(p.family) && p.bitCount == BitCount(p.family) && p.maskShift <= p.bitCount
    && |p.net| == p.byteCount && |p.mask| == p.byteCount
    && forall i :: 0 <= i < p.byteCount ==>
         p.mask[i] == Ones(InByte(p.maskShift, i)) && AndByte(p.net[i], p.mask[i]) == p.net[i]
  }

  /** The first `bits` bits of two addresses agree. */
  ghost predicate SamePrefix(a: seq<byte>, b: seq<byte>, bits: nat)
    requires |a| == |b| && bits <= 8 * |a|
  {
    forall i :: 0 <= i < bits ==> (Bit(a, i) <==> Bit(b, i))
  }

  /** What it means for an address to match a pattern. */
  ghost predicate Matches(p: Pattern, family: Family, addr: seq<byte>)
    requires Compiled(p) && |addr| == ByteCount(family)
  {
    family == p.family && (SamePrefix(addr, p.net, p.maskShift) <==> p.positive)
  }

  lemma PrefixOfByte(a: seq<byte>, n: seq<byte>, bits: nat, i: nat)
    requires |a| == |n| && bits <= 8 * |a| && i < |a| && AndByte(n[i], Ones(InByte(bits, i))) == n[i]
    ensures SamePrefix(a, n, bits) ==> AndByte(a[i], Ones(InByte(bits, i))) == n[i]
  {
    if SamePrefix(a, n, bits) {
      var k := InByte(bits, i);
      forall j | 0 <= j < k ensures BitOf(a[i], j) <==> BitOf(n[i], j) {
        var b := 8 * i + j;
        assert b / 8 == i && b % 8 == j;
        assert Bit(a, b) <==> Bit(n, b);
      }
      MaskedCompare(a[i], n[i], k);
    }
  }

  lemma BitOfPrefix(a: seq<byte>, n: seq<byte>, bits: nat, b: nat)
    requires |a| == |n| && b < bits <= 8 * |a| && AndByte(n[b / 8], Ones(InByte(bits, b / 8))) == n[b / 8]
    requires AndByte(a[b / 8], Ones(InByte(bits, b / 8))) == n[b / 8]
    ensures Bit(a, b) <==> Bit(n, b)
  {
    MaskedCompare(a[b / 8], n[b / 8], InByte(bits, b / 8));
  }

  /** Byte by byte, the masked compare. */
  predicate SameBytes(p: Pattern, addr: seq<byte>)
    requires |addr| == |p.mask| == |p.net|
  {
    forall i :: 0 <= i < |addr| ==> AndByte(addr[i], p.mask[i]) == p.net[i]
  }

  lemma PrefixGivesBytes(p: Pattern, addr: seq<byte>)
    requires Compiled(p) && |addr| == p.byteCount && SamePrefix(addr, p.net, p.maskShift)
    ensures SameBytes(p, addr)
  {
    forall i | 0 <= i < |addr| ensures AndByte(addr[i], p.mask[i]) == p.net[i] {
      PrefixOfByte(addr, p.net, p.maskShift, i);
    }
  }

  lemma BytesGivePrefix(p: Pattern, addr: seq<byte>)
    requires Compiled(p) && |addr| == p.byteCount && SameBytes(p, addr)
    ensures SamePrefix(addr, p.net, p.maskShift)
  {
    forall b | 0 <= b < p.maskShift ensures Bit(addr, b) <==> Bit(p.net, b) {
      assert AndByte(addr[b / 8], p.mask[b / 8]) == p.net[b / 8];
      BitOfPrefix(addr, p.net, p.maskShift, b);
    }
  }

  lemma PrefixByBytes(p: Pattern, addr: seq<byte>)
    requires Compiled(p) && |addr| == p.byteCount
    ensures SamePrefix(addr, p.net, p.maskShift) <==> SameBytes(p, addr)
  {
    if SamePrefix(addr, p.net, p.maskShift) { PrefixGivesBytes(p, addr); }
    if SameBytes(p, addr) { BytesGivePrefix(p, addr); }
  }

  /** With all bits in the mask, the masked compare is a plain compare. */
  lemma PlainCompare(p: Pattern, addr: seq<byte>)
    requires Compiled(p) && |addr| == p.byteCount && p.maskShift == p.bitCount
    ensures SameBytes(p, addr) <==> addr == p.net
    ensures forall i :: 0 <= i < p.byteCount ==> AndByte(addr[i], p.mask[i]) == addr[i]
  {
    forall i | 0 <= i < p.byteCount ensures AndByte(addr[i], p.mask[i]) == addr[i] {
      AllAndNone(addr[i]);
      assert InByte(p.maskShift, i) == 8;
    }
  }

  /** The loop for a netmask with some or all bits zero. */
  method CompareMasked(p: Pattern, addr: seq<byte>) returns (same: bool)
    requires |addr| == |p.mask| == |p.net|
    ensures same == SameBytes(p, addr)
  {
    var i := 0;
    while true
      invariant 0 <= i <= |addr|
      invariant forall j :: 0 <= j < i ==> AndByte(addr[j], p.mask[j]) == p.net[j]
      decreases |addr| - i
    {
      if i >= |addr| {
        return true;
      }
      if AndByte(addr[i], p.mask[i]) != p.net[i] {
        return false;
      }
      i := i + 1;
    }
  }

  /** The loop for a netmask of all ones. */
  method ComparePlain(net: seq<byte>, addr: seq<byte>) returns (same: bool)
    requires |addr| == |net|
    ensures same == (addr == net)
  {
    var i := 0;
    while true
      invariant 0 <= i <= |addr|
      invariant forall j :: 0 <= j < i ==> addr[j] == net[j]
      decreases |addr| - i
    {
      if i >= |addr| {
        return true;
      }
      if addr[i] != net[i] {
        return false;
      }
      i := i + 1;
    }
  }

  /** cidr_match_entry */
  method MatchEntry(p: Pattern, addr: seq<byte>) returns (r: bool)
    requires Compiled(p) && |addr| == p.byteCount
    ensures r == Matches(p, p.family, addr)
  {
    PrefixByBytes(p, addr);
    var same;
    if p.maskShift < p.bitCount {
      same := CompareMasked(p, addr);
    } else {
      PlainCompare(p, addr);
      same := ComparePlain(p.net, addr);
    }
    return if same then p.positive else !p.positive;
  }

  // ------------------------------------------------------------------ parsing

  /** mask_addr: clears every bit after the first `bits` bits. */
  method MaskAddr(a: array<byte>, count: nat, bits: nat)
    requires count <= a.Length && bits <= count * 8
    modifies a
    ensures forall i :: 0 <= i < count ==> a[i] == AndByte(old(a[i]), Ones(InByte(bits, i)))
    ensures forall i :: count <= i < a.Length ==> a[i] == old(a[i])
  {
    var p := bits / 8;
    var k := bits % 8;
    forall i | 0 <= i < p ensures a[i] == AndByte(a[i], Ones(InByte(bits, i))) {
      AllAndNone(a[i]);
    }
    if k != 0 {
      a[p] := AndByte(a[p], Ones(k));
      p := p + 1;
    }
    while p < count
      invariant bits <= 8 * p && p <= count
      invariant forall i :: 0 <= i < p ==> a[i] == AndByte(old(a[i]), Ones(InByte(bits, i)))
      invariant forall i :: p <= i < a.Length ==> a[i] == old(a[i])
    {
      AllAndNone(a[p]);
      a[p] := 0;
      p := p + 1;
    }
  }

  /** The text after '/', if there is any: not a number, or the number that atoi() returns. */
  datatype MaskText = NoMask | NotDigits | Digits(n: nat)

  /** The mask length is stored in an unsigned char before it is compared. */
  function Shift(f: Family, m: MaskText): nat
  {
    if m.Digits? then m.n % 256 else BitCount(f)
  }

  /** The mask of `shift` ones, made with memset() and mask_addr(). */
  method MakeMask(bytes: nat, shift: nat) returns (mask: array<byte>)
    requires shift <= 8 * bytes
    ensures fresh(mask) && mask.Length == bytes && forall i :: 0 <= i < bytes ==> mask[i] == Ones(InByte(shift, i))
  {
    if shift > 0 {
      mask := new byte[bytes](_ => 255);
      MaskAddr(mask, bytes, shift);
      forall i | 0 <= i < bytes ensures mask[i] == Ones(InByte(shift, i)) {
        AllOnesAnd(InByte(shift, i));
      }
    } else {
      mask := new byte[bytes](_ => 0);
      AllAndNone(255);
      AllOnesAnd(0);
    }
  }

  /** No bit is set after the first `shift` bits. */
  ghost predicate NoHostBits(net: seq<byte>, shift: nat)
  {
    forall i :: shift <= i < 8 * |net| ==> !Bit(net, i)
  }

  lemma HostBitsByByte(net: seq<byte>, shift: nat)
    ensures NoHostBits(net, shift) <==> forall i :: 0 <= i < |net| ==> AndByte(net[i], Ones(InByte(shift, i))) == net[i]
  {
    if NoHostBits(net, shift) {
      forall i | 0 <= i < |net| ensures AndByte(net[i], Ones(InByte(shift, i))) == net[i] {
        forall j | InByte(shift, i) <= j < 8 ensures !BitOf(net[i], j) {
          var b := 8 * i + j;
          assert b / 8 == i && b % 8 == j && b >= shift;
          assert !Bit(net, b);
        }
        HostBits(net[i], InByte(shift, i));
      }
    }
    if forall i :: 0 <= i < |net| ==> AndByte(net[i], Ones(InByte(shift, i))) == net[i] {
      forall b | shift <= b < 8 * |net| ensures !Bit(net, b) {
        HostBits(net[b / 8], InByte(shift, b / 8));
      }
    }
  }

  /** The check that all host address bits are zero. */
  method CheckHostBits(net: seq<byte>, mask: array<byte>, shift: nat) returns (ok: bool)
    requires mask.Length == |net| && forall i :: 0 <= i < |net| ==> mask[i] == Ones(InByte(shift, i))
    ensures ok <==> NoHostBits(net, shift)
  {
    HostBitsByByte(net, shift);
    var np := 0;
    while np < |net|
      invariant 0 <= np <= |net|
      invariant forall i :: 0 <= i < np ==> AndByte(net[i], Ones(InByte(shift, i))) == net[i]
    {
      NotOnes(net[np], InByte(shift, np));
      if AndByte(net[np], NotByte(mask[np])) != 0 {
        return false;
      }
      np := np + 1;
    }
    return true;
  }

  /** The masked part of cidr_match_parse.  `addr` is what inet_pton() makes of the address. */
  method ParsePattern(positive: bool, family: Family, addr: Option<seq<byte>>, m: MaskText) returns (r: Option<Pattern>)
    requires addr.Some? ==> |addr.value| == ByteCount(family)
    ensures r.Some? <==> && addr.Some? && !m.NotDigits? && Shift(family, m) <= BitCount(family)
                         && NoHostBits(addr.value, Shift(family, m))
    ensures r.Some? ==> && Compiled(r.value) && r.value.positive == positive && r.value.family == family
                        && r.value.net == addr.value && r.value.maskShift == Shift(family, m)
  {
    var bits, bytes := BitCount(family), ByteCount(family);
    var mask, shift;
    if !m.NoMask? {
      if m.NotDigits? {
        return None;
      }
      shift := m.n % 256;
      if shift > bits || addr.None? {
        return None;
      }
      mask := MakeMask(bytes, shift);
      var ok := CheckHostBits(addr.value, mask, shift);
      if !ok {
        return None;
      }
    } else {
      if addr.None? {
        return None;
      }
      shift := bits;
      mask := new byte[bytes](_ => 255);
    }
    HostBitsByByte(addr.value, shift);
    r := Some(Pattern(positive, addr.value, mask[..], family, bytes, bits, shift));
  }
}
