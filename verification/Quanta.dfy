/**
 What base 64 and base 32 have in common: input is cut into groups, each of which is
 encoded or decoded on its own.  `enc` encodes up to `n` bytes as `m` characters; `dec`
 decodes the first group of the characters that are left.
 */
module Quanta {
  import opened Wrappers

  const PAD: byte := 61 // '='
  const INVALID: byte := 255

  /** What one group of encoded characters means: nothing, the last bytes, or bytes that more may follow. */
  datatype Group = Bad | Last(bytes: seq<byte>) | More(bytes: seq<byte>)

  function EncodeAll(enc: seq<byte> -> seq<byte>, n: nat, s: seq<byte>): seq<byte>
    requires n > 0
  {
    if s == [] then [] else if |s| <= n then enc(s) else enc(s[..n]) + EncodeAll(enc, n, s[n..])
  }

  function Then(bytes: seq<byte>, rest: Option<seq<byte>>): Option<seq<byte>>
  {
    if rest.None? then None else Some(bytes + rest.value)
  }

  function DecodeAll(dec: seq<byte> -> Group, m: nat, s: seq<byte>): Option<seq<byte>>
    requires m > 0
  {
    if s == [] then Some([])
    else if |s| < m then None
    else
      match dec(s)
      case Bad => None
      case Last(b) => Some(b)
      case More(b) => Then(b, DecodeAll(dec, m, s[m..]))
  }

  /** One group of what is left at position cp. */
  lemma EncodeStep(enc: seq<byte> -> seq<byte>, n: nat, s: seq<byte>, cp: nat)
    requires n > 0 && cp < |s|
    ensures var end := if cp + n < |s| then cp + n else |s|;
            EncodeAll(enc, n, s[cp..]) == enc(s[cp..end]) + EncodeAll(enc, n, s[end..])
  {
    if cp + n < |s| {
      assert s[cp..][..n] == s[cp..cp + n] && s[cp..][n..] == s[cp + n..];
    } else {
      assert s[cp..|s|] == s[cp..];
      assert enc(s[cp..]) + [] == enc(s[cp..]);
    }
  }

  /** While a result `all` is built on top of `r0`: `r` has been built, `rest` is still to come. */
  predicate Continues(r0: seq<byte>, all: Option<seq<byte>>, r: seq<byte>, rest: Option<seq<byte>>)
  {
    (all.Some? <==> rest.Some?) && (all.Some? ==> r0 + all.value == r + rest.value)
  }

  lemma ContinueMore(r0: seq<byte>, all: Option<seq<byte>>, r: seq<byte>, bytes: seq<byte>, rest: Option<seq<byte>>)
    requires Continues(r0, all, r, Then(bytes, rest))
    ensures Continues(r0, all, r + bytes, rest)
  {
    if rest.Some? {
      Regroup(r, bytes, rest.value);
    }
  }

  lemma {:induction false} EncodeAllWithout(enc: seq<byte> -> seq<byte>, n: nat, s: seq<byte>, c: byte)
    requires n > 0 && forall b :: 1 <= |b| <= n ==> c !in enc(b)
    ensures c !in EncodeAll(enc, n, s)
    decreases |s|
  {
    if |s| > n {
      EncodeAllWithout(enc, n, s[n..], c);
    }
  }

  /** The groups of `enc` can be told apart again by `dec`. */
  ghost predicate Inverse(enc: seq<byte> -> seq<byte>, dec: seq<byte> -> Group, n: nat, m: nat)
  {
    && (forall b :: 1 <= |b| <= n ==> |enc(b)| == m)
    && (forall b {:trigger dec(enc(b))} :: 1 <= |b| < n ==> dec(enc(b)) == Last(b))
    && (forall b, rest {:trigger dec(enc(b) + rest)} :: |b| == n ==> dec(enc(b) + rest) == More(b))
  }

  lemma {:induction false} DecodeEncode(
    enc: seq<byte> -> seq<byte>, dec: seq<byte> -> Group, n: nat, m: nat, s: seq<byte>)
    requires n > 0 && m > 0 && Inverse(enc, dec, n, m)
    ensures DecodeAll(dec, m, EncodeAll(enc, n, s)) == Some(s)
    decreases |s|
  {
    if s != [] {
      var e := EncodeAll(enc, n, s);
      if |s| <= n {
        assert |enc(s)| == m;
        assert e + [] == e && e[m..] == [];
        assert s + [] == s;
        if |s| == n { assert dec(enc(s) + []) == More(s); }
      } else {
        DecodeEncode(enc, dec, n, m, s[n..]);
        assert |enc(s[..n])| == m;
        assert e[m..] == EncodeAll(enc, n, s[n..]);
        assert s == s[..n] + s[n..];
      }
    }
  }

  /** The length check that comes before decoding. */
  function DecodeWith(dec: seq<byte> -> Group, m: nat, s: seq<byte>): Option<seq<byte>>
    requires m > 0
  {
    if |s| % m != 0 then None else DecodeAll(dec, m, s)
  }

  lemma Multiple(k: nat, m: nat)
    requires m > 0
    ensures k * m % m == 0
  {
    var q, r := k * m / m, k * m % m;
    assert r == m * (k - q);
    if k - q >= 1 {
      assert m * (k - q) == m + m * (k - q - 1);
    } else if k - q <= -1 {
      assert m * (k - q) == m * (k - q + 1) - m;
    }
  }

  /** Decoding undoes encoding. */
  lemma RoundTrips(enc: seq<byte> -> seq<byte>, dec: seq<byte> -> Group, n: nat, m: nat, s: seq<byte>)
    requires n > 0 && m > 0 && Inverse(enc, dec, n, m)
    ensures DecodeWith(dec, m, EncodeAll(enc, n, s)) == Some(s)
  {
    var k := EncodeAllLength(enc, n, m, s);
    Multiple(k, m);
    DecodeEncode(enc, dec, n, m, s);
  }

  lemma {:induction false} EncodeAllLength(enc: seq<byte> -> seq<byte>, n: nat, m: nat, s: seq<byte>) returns (k: nat)
    requires n > 0 && m > 0 && forall b :: 1 <= |b| <= n ==> |enc(b)| == m
    ensures |EncodeAll(enc, n, s)| == k * m
    decreases |s|
  {
    if s == [] {
      k := 0;
    } else if |s| <= n {
      k := 1;
    } else {
      k := EncodeAllLength(enc, n, m, s[n..]);
      k := k + 1;
    }
  }

  /** Characters that are decoded to bytes whose encoding they are, but for what `tidy` says about the last group. */
  ghost predicate Reencodes(
    enc: seq<byte> -> seq<byte>, dec: seq<byte> -> Group, tidy: seq<byte> -> bool, n: nat, m: nat)
  {
    forall s {:trigger dec(s)} :: |s| >= m ==>
      match dec(s)
      case Bad => true
      case Last(b) => 1 <= |b| < n && PAD in s[..m] && |enc(b)| == m && (|s| == m ==> (enc(b) == s <==> tidy(s)))
      case More(b) => |b| == n && PAD !in s[..m] && enc(b) == s[..m] && (|s| == m ==> tidy(s))
  }

  /** No '=' before the last group, and a tidy last group. */
  predicate Canonical(tidy: seq<byte> -> bool, m: nat, s: seq<byte>)
  {
    s != [] ==> |s| >= m && PAD !in s[..|s| - m] && tidy(s[|s| - m..])
  }

  /** Input that is accepted is the encoding of its result exactly if it is canonical. */
  lemma {:induction false} EncodeDecode(
    enc: seq<byte> -> seq<byte>, dec: seq<byte> -> Group, tidy: seq<byte> -> bool, n: nat, m: nat, s: seq<byte>, k: nat)
    requires n > 0 && m > 0 && Reencodes(enc, dec, tidy, n, m) && DecodeAll(dec, m, s).Some? && |s| == k * m
    ensures EncodeAll(enc, n, DecodeAll(dec, m, s).value) == s <==> Canonical(tidy, m, s)
    decreases |s|
  {
    if s != [] {
      var g := dec(s);
      var b := g.bytes;
      assert s == s[..m] + s[m..];
      if g.Last? {
        if |s| > m {
          AtLeastTwo(k, m);
          LastTooEarly(m, s);
        } else {
          assert s[..|s| - m] == [] && s[|s| - m..] == s;
        }
      } else {
        var rest := s[m..];
        assert |rest| == (k - 1) * m;
        EncodeDecode(enc, dec, tidy, n, m, rest, k - 1);
        var d := DecodeAll(dec, m, rest).value;
        if rest == [] {
          assert s[..m] == s && b + d == b && s[..|s| - m] == [] && s[|s| - m..] == s;
        } else {
          AtLeastTwo(k, m);
          DecodedSome(enc, dec, tidy, n, m, rest);
          assert (b + d)[..n] == b && (b + d)[n..] == d;
          CanonicalRest(tidy, m, s);
          assert EncodeAll(enc, n, b + d) == s[..m] + EncodeAll(enc, n, d);
          assert EncodeAll(enc, n, b + d) == s <==> EncodeAll(enc, n, d) == rest by {
            assert (s[..m] + EncodeAll(enc, n, d))[m..] == EncodeAll(enc, n, d);
          }
        }
      }
    }
  }

  lemma DecodedSome(
    enc: seq<byte> -> seq<byte>, dec: seq<byte> -> Group, tidy: seq<byte> -> bool, n: nat, m: nat, s: seq<byte>)
    requires n > 0 && m > 0 && Reencodes(enc, dec, tidy, n, m) && DecodeAll(dec, m, s).Some? && s != []
    ensures DecodeAll(dec, m, s).value != []
  {
    assert dec(s).bytes != [];
  }

  lemma LastTooEarly(m: nat, s: seq<byte>)
    requires |s| >= 2 * m && PAD in s[..m]
    ensures PAD in s[..|s| - m]
  {
    var i :| 0 <= i < m && s[..m][i] == PAD;
    assert s[..|s| - m][i] == PAD;
  }

  lemma AtLeastTwo(k: nat, m: nat)
    requires k * m > m
    ensures k * m >= 2 * m
  {
    if k >= 2 {
      assert k * m == 2 * m + (k - 2) * m;
    }
  }

  lemma CanonicalRest(tidy: seq<byte> -> bool, m: nat, s: seq<byte>)
    requires |s| >= 2 * m && m > 0 && PAD !in s[..m]
    ensures Canonical(tidy, m, s) <==> Canonical(tidy, m, s[m..])
  {
    var r := s[m..];
    assert s[|s| - m..] == r[|r| - m..];
    assert s[..|s| - m] == s[..m] + r[..|r| - m];
  }

  // ------------------------------------------------------- what an encoding means

  /** The characters from `first` to `last`. */
  function Range(first: byte, last: byte): seq<byte>
    decreases last - first
  {
    if first > last then [] else if first == last then [last] else [first] + Range(first + 1, last)
  }

  lemma {:induction false} RangeAt(first: byte, last: byte, i: nat)
    requires first + i <= last
    ensures |Range(first, last)| == last - first + 1 && Range(first, last)[i] == first + i
    decreases last - first
  {
    if first < last { RangeAt(first + 1, last, if i == 0 then 0 else i - 1); }
  }

  /** Digits, most significant first, as a number, after those that count as `high`. */
  function NumberFrom(high: nat, digits: seq<nat>, base: nat): nat
    decreases |digits|
  {
    if digits == [] then high else NumberFrom(high * base + digits[0], digits[1..], base)
  }

  /** The number, one digit further on. */
  lemma NextDigit(high: nat, digits: seq<nat>, k: nat, base: nat) returns (more: nat)
    requires k < |digits|
    ensures more == high * base + digits[k]
    ensures NumberFrom(high, digits[k..], base) == NumberFrom(more, digits[k + 1..], base)
    ensures k == |digits| - 1 ==> NumberFrom(high, digits[k..], base) == more
  {
    more := high * base + digits[k];
    assert digits[k..][1..] == digits[k + 1..];
  }

  lemma NoMoreDigits(high: nat, digits: seq<nat>, base: nat)
    ensures NumberFrom(high, digits[|digits|..], base) == high
  {
  }

  lemma {:induction false} NumberConcat(high: nat, a: seq<nat>, b: seq<nat>, base: nat)
    ensures NumberFrom(high, a + b, base) == NumberFrom(NumberFrom(high, a, base), b, base)
    decreases |a|
  {
    if a == [] {
      assert a + b == b;
    } else {
      assert (a + b)[1..] == a[1..] + b;
      NumberConcat(high * base + a[0], a[1..], b, base);
    }
  }

  /** Digits written in an alphabet. */
  predicate Spells(text: seq<byte>, digits: seq<nat>, alphabet: seq<byte>)
  {
    |text| == |digits| && forall i :: 0 <= i < |digits| ==> digits[i] < |alphabet| && text[i] == alphabet[digits[i]]
  }

  /** The digits of all groups; `dig` gives those of one group. */
  function DigitsAll(dig: seq<byte> -> seq<nat>, n: nat, s: seq<byte>): seq<nat>
    requires n > 0
  {
    if s == [] then [] else if |s| <= n then dig(s) else dig(s[..n]) + DigitsAll(dig, n, s[n..])
  }

  /** The size of the last group. */
  function LastSize(n: nat, s: seq<byte>): nat
    requires n > 0
  {
    if s == [] then 0 else if |s| <= n then |s| else LastSize(n, s[n..])
  }

  /** A group is written as its digits and, if it is not full, padding. */
  ghost predicate SpelledBy(enc: seq<byte> -> seq<byte>, dig: seq<byte> -> seq<nat>, alphabet: seq<byte>, n: nat,
                            pads: nat -> seq<byte>)
  {
    forall b: seq<byte> {:trigger enc(b)} :: 1 <= |b| <= n ==>
      && |dig(b)| <= |enc(b)| && Spells(enc(b)[..|dig(b)|], dig(b), alphabet)
      && enc(b)[|dig(b)|..] == pads(|b|) && (|b| == n ==> pads(n) == [])
  }

  lemma SpelledConcat(a: seq<byte>, d: seq<nat>, b: seq<byte>, e: seq<nat>, alphabet: seq<byte>)
    requires Spells(a, d, alphabet) && |e| <= |b| && Spells(b[..|e|], e, alphabet)
    ensures var t, f := a + b, d + e; Spells(t[..|f|], f, alphabet) && t[|f|..] == b[|e|..]
  {
  }

  lemma {:induction false} SpelledAll(enc: seq<byte> -> seq<byte>, dig: seq<byte> -> seq<nat>, alphabet: seq<byte>,
                                      n: nat, pads: nat -> seq<byte>, s: seq<byte>)
    requires n > 0 && SpelledBy(enc, dig, alphabet, n, pads) && s != []
    ensures var t, d := EncodeAll(enc, n, s), DigitsAll(dig, n, s);
            && |d| <= |t| && Spells(t[..|d|], d, alphabet) && t[|d|..] == pads(LastSize(n, s))
    decreases |s|
  {
    if |s| <= n {
      assert EncodeAll(enc, n, s) == enc(s);
    } else {
      var b, more := s[..n], s[n..];
      SpelledAll(enc, dig, alphabet, n, pads, more);
      assert enc(b)[|dig(b)|..] == [] && enc(b)[..|dig(b)|] == enc(b);
      SpelledConcat(enc(b), dig(b), EncodeAll(enc, n, more), DigitsAll(dig, n, more), alphabet);
    }
  }

  /** The digits of a group are worth its bytes, with zero bits added to fill the last digit. */
  ghost predicate WorthBy(dig: seq<byte> -> seq<nat>, base: nat, n: nat, shift: (nat, nat) -> nat)
  {
    && (forall x: nat :: shift(n, x) == x)
    && forall high: nat, b: seq<byte> {:trigger NumberFrom(high, dig(b), base)} :: 1 <= |b| <= n ==>
         NumberFrom(high, dig(b), base) == shift(|b|, NumberFrom(high, b, 256))
  }

  lemma {:induction false} WorthAll(dig: seq<byte> -> seq<nat>, base: nat, n: nat, shift: (nat, nat) -> nat, high: nat,
                                    s: seq<byte>)
    requires n > 0 && WorthBy(dig, base, n, shift) && s != []
    ensures NumberFrom(high, DigitsAll(dig, n, s), base) == shift(LastSize(n, s), NumberFrom(high, s, 256))
    decreases |s|
  {
    if |s| <= n {
      assert NumberFrom(high, dig(s), base) == shift(|s|, NumberFrom(high, s, 256));
    } else {
      var b, more := s[..n], s[n..];
      assert NumberFrom(high, dig(b), base) == shift(n, NumberFrom(high, b, 256));
      WorthAll(dig, base, n, shift, NumberFrom(high, b, 256), more);
      NumberConcat(high, dig(b), DigitsAll(dig, n, more), base);
      NumberConcat(high, b, more, 256);
      assert s == b + more;
    }
  }

  /** Full groups, and the last one. */
  lemma {:induction false} LastSizeIs(n: nat, s: seq<byte>) returns (groups: nat)
    requires n > 0 && s != []
    ensures |s| == groups * n + LastSize(n, s) && 1 <= LastSize(n, s) <= n
    decreases |s|
  {
    groups := 0;
    if |s| > n {
      groups := LastSizeIs(n, s[n..]);
      assert (groups + 1) * n == groups * n + n;
      groups := groups + 1;
    }
  }
}
