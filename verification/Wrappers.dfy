/** Types that several components share. */
module Wrappers {

  datatype Option<T> = None | Some(value: T)

  /** An unsigned char. */
  type byte = x: int | 0 <= x < 256

  /** The C string at the start of a buffer, whose end is a null byte too. */
  function CStr(s: seq<byte>): (c: seq<byte>)
    ensures |c| <= |s| && c == s[..|c|]
  {
    if s == [] || s[0] == 0 then [] else [s[0]] + CStr(s[1..])
  }

  /** A number as "%u", "%lu" and "%ld" print it. */
  function Decimal(n: nat): seq<byte>
  {
    if n < 10 then [48 + n] else Decimal(n / 10) + [48 + n % 10]
  }

  /** One entry between two maps that lack its key. */
  lemma MapAdd<K, V>(a: map<K, V>, b: map<K, V>, k: K, v: V)
    requires k !in a && k !in b
    ensures b + (map[k := v] + a) == (b + a)[k := v]
    ensures b + a == (b + (map[k := v] + a)) - {k}
  {
  }

  /** The low eight bits of a value, as a char keeps them. */
  function Char(v: nat): byte
  {
    v % 256
  }

  lemma CharOf(q: nat, x: byte)
    ensures Char(q * 256 + x) == x
  {
  }

  predicate AllDigits(s: seq<byte>)
  {
    forall i :: 0 <= i < |s| ==> 48 <= s[i] <= 57
  }

  function Pow2(n: nat): (p: nat)
    ensures p >= 1
  {
    if n == 0 then 1 else 2 * Pow2(n - 1)
  }

  lemma Regroup<T>(a: seq<T>, b: seq<T>, c: seq<T>)
    ensures a + b + c == a + (b + c)
  {
  }

  lemma RegroupFour<T>(a: seq<T>, b: seq<T>, c: seq<T>, d: seq<T>)
    ensures a + (b + c) + d == a + (b + (c + d))
  {
  }

  lemma RegroupFive<T>(a: seq<T>, b: seq<T>, c: seq<T>, d: seq<T>, e: seq<T>)
    ensures a + b + (c + (d + e)) == a + (b + c + d) + e
  {
  }
}
