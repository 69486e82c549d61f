/**
 The null-terminated attribute list protocol of util/attr_print0.c and util/attr_scan0.c:
 what is sent for a list of attributes, and what the receiver makes of any input.
 */
module AttrSpec {
  import opened Wrappers
  import Base64

  type Bytes = seq<byte>
  type Table = map<Bytes, Bytes>

  const OPEN: Bytes := [123] // "{"
  const CLOSE: Bytes := [125] // "}"
  const ATTR_HASH_LIMIT: nat := 1024

  /** An attribute to send.  A hash table is given by its entries in the order in which htable_list() returns them. */
  datatype Attr =
    | AttrInt(name: Bytes, i: int)
    | AttrLong(name: Bytes, l: int)
    | AttrStr(name: Bytes, s: Bytes)
    | AttrData(name: Bytes, d: Bytes)
    | AttrHash(entries: seq<(Bytes, Bytes)>)

  /** An attribute to receive; a hash table may have entries already. */
  datatype Wanted =
    | WantInt(name: Bytes)
    | WantLong(name: Bytes)
    | WantStr(name: Bytes)
    | WantData(name: Bytes)
    | WantHash(table: Table)

  /** What was received. */
  datatype Value =
    | IntValue(i: int)
    | LongValue(l: int)
    | StrValue(s: Bytes)
    | DataValue(d: Bytes)
    | HashValue(table: Table)

  /** ATTR_FLAG_EXTRA and ATTR_FLAG_MORE. */
  datatype Flags = Flags(extra: bool, more: bool)

  // ------------------------------------------------------------------ numbers

  const UINT: int := 0x1_0000_0000
  const ULONG: int := 0x1_0000_0000_0000_0000

  /** An unsigned number as the signed number with the same bits. */
  function Signed(u: nat, size: int): int
  {
    if u < size / 2 then u else u - size
  }

  function Numeral(s: Bytes): nat
    requires AllDigits(s)
  {
    if s == [] then 0 else Numeral(s[..|s| - 1]) * 10 + (s[|s| - 1] - 48)
  }

  predicate IsSpace(c: byte)
  {
    c == 32 || 9 <= c <= 13
  }

  function SkipSpace(s: Bytes): Bytes
  {
    if s != [] && IsSpace(s[0]) then SkipSpace(s[1..]) else s
  }

  /** sscanf() with "%u%c" or "%lu%c" and one match: space, a sign, and digits up to the end.  The number is that of
      strtoul(): saturated at ULONG_MAX, or else negated in the unsigned type, and then cut to the size. */
  function ScanNumber(s: Bytes, size: int): Option<nat>
    requires size > 0
  {
    var t := SkipSpace(s);
    var minus := t != [] && t[0] == 45;
    var digits := if minus || (t != [] && t[0] == 43) then t[1..] else t;
    if digits == [] || !AllDigits(digits) then None
    else
      var n: int := Numeral(digits);
      Some((if n >= ULONG then ULONG - 1 else if minus then -n % ULONG else n) % size)
  }

  lemma {:induction false} DecimalDigits(n: nat)
    ensures Decimal(n) != [] && AllDigits(Decimal(n)) && Numeral(Decimal(n)) == n
  {
    if n >= 10 {
      DecimalDigits(n / 10);
      var s := Decimal(n);
      assert s[..|s| - 1] == Decimal(n / 10);
    } else {
      assert Decimal(n)[..0] == [];
    }
  }

  lemma DigitsScan(s: Bytes, size: int)
    requires s != [] && AllDigits(s) && Numeral(s) < size && (size == UINT || size == ULONG)
    ensures ScanNumber(s, size) == Some(Numeral(s)) && 0 !in s
  {
    assert 48 <= s[0] <= 57;
    assert SkipSpace(s) == s;
    SmallModulo(Numeral(s), size);
  }

  lemma SmallModulo(n: nat, size: int)
    requires n < size
    ensures n % size == n
  {
  }

  lemma DecimalRoundTrip(n: nat, size: int)
    requires n < size && (size == UINT || size == ULONG)
    ensures ScanNumber(Decimal(n), size) == Some(n) && 0 !in Decimal(n)
  {
    DecimalDigits(n);
    DigitsScan(Decimal(n), size);
  }

  /** A number that does not fit is saturated, or cut to the size. */
  lemma DecimalCut(n: nat, size: int)
    requires size == UINT || size == ULONG
    ensures ScanNumber(Decimal(n), size) == Some((if n >= ULONG then ULONG - 1 else n) % size)
  {
    DecimalDigits(n);
    assert 48 <= Decimal(n)[0] <= 57;
    assert SkipSpace(Decimal(n)) == Decimal(n);
  }

  /** Anything after the digits is refused. */
  lemma TrailingRefused(n: nat, c: byte, more: Bytes, size: int)
    requires size > 0 && !(48 <= c <= 57)
    ensures ScanNumber(Decimal(n) + [c] + more, size) == None
  {
    DecimalDigits(n);
    var s := Decimal(n) + [c] + more;
    assert 48 <= Decimal(n)[0] <= 57 && s[0] == Decimal(n)[0];
    assert SkipSpace(s) == s && s[|Decimal(n)|] == c;
  }

  // ----------------------------------------------------------------- printing

  function Field(s: Bytes): Bytes
  {
    s + [0]
  }

  function PrintEntries(es: seq<(Bytes, Bytes)>): Bytes
  {
    if es == [] then [] else Field(es[0].0) + (Field(es[0].1) + PrintEntries(es[1..]))
  }

  function Print(a: Attr): Bytes
  {
    match a
    case AttrInt(name, i) => Field(name) + Field(Decimal(i % UINT))
    case AttrLong(name, l) => Field(name) + Field(Decimal(l % ULONG))
    case AttrStr(name, s) => Field(name) + Field(s)
    case AttrData(name, d) => Field(name) + Field(Base64.Encode(d))
    case AttrHash(es) => Field(OPEN) + (PrintEntries(es) + Field(CLOSE))
  }

  function PrintAll(attrs: seq<Attr>): Bytes
  {
    if attrs == [] then [] else Print(attrs[0]) + PrintAll(attrs[1..])
  }

  /** attr_vprint0 */
  function PrintList(attrs: seq<Attr>, f: Flags): Bytes
  {
    PrintAll(attrs) + if f.more then [] else [0]
  }

  // ----------------------------------------------------------------- scanning

  /** attr_scan0_string: the string up to a null byte and what follows it; at end of file everything is gone. */
  function ReadString(input: Bytes): (r: (Option<Bytes>, Bytes))
    ensures input != [] ==> |r.1| < |input|
    ensures input == [] ==> r == (None, [])
  {
    var s := CStr(input);
    if |s| < |input| then (Some(s), input[|s| + 1..]) else (None, [])
  }

  /** attr_scan0_number, attr_scan0_long_number, attr_scan0_string and attr_scan0_data. */
  function Convert(want: Wanted, s: Bytes): Option<Value>
    requires !want.WantHash?
  {
    match want
    case WantInt(_) => (match ScanNumber(s, UINT) case None => None case Some(n) => Some(IntValue(Signed(n, UINT))))
    case WantLong(_) => (match ScanNumber(s, ULONG) case None => None case Some(n) => Some(LongValue(Signed(n, ULONG))))
    case WantStr(_) => Some(StrValue(s))
    case WantData(_) => (match Base64.Decode(s) case None => None case Some(d) => Some(DataValue(d)))
  }

  /** The result of a scan: what is returned, the targets that were set, and the input that is left. */
  datatype Scanned = Scanned(ret: int, values: seq<Value>, rest: Bytes)

  function After(v: Value, r: Scanned): Scanned
  {
    r.(values := [v] + r.values)
  }

  /** The main loop of attr_vscan0, where the next item of the wish list is taken. */
  function ScanFrom(wants: seq<Wanted>, conversions: int, f: Flags, input: Bytes): Scanned
    decreases |input|, |wants|, 1
  {
    if wants == [] then if f.more then Scanned(conversions, [], input) else ScanEnd(conversions, f, input)
    else if wants[0].WantHash? then ScanTable(wants[0].table, false, wants[1..], conversions, f, input)
    else ScanNamed(wants, conversions, f, input)
  }

  /** The inner loop when the list terminator is wanted. */
  function ScanEnd(conversions: int, f: Flags, input: Bytes): Scanned
    decreases |input|, 0, 0
  {
    var (name, r) := ReadString(input);
    if name.None? then Scanned(-1, [], r)
    else if name.value == [] || f.extra then Scanned(conversions, [], r)
    else ScanEnd(conversions, f, ReadString(r).1)
  }

  /** How the search for an attribute ends. */
  datatype Search = Found | Ended | Failed

  /** The inner loop when a named attribute is wanted; other attributes are skipped. */
  function Seek(name: Bytes, f: Flags, input: Bytes): (r: (Search, Bytes))
    ensures r.0.Found? ==> |r.1| < |input|
    decreases |input|
  {
    var (s, r) := ReadString(input);
    if s.None? then (Failed, r)
    else if s.value == [] then (Ended, r)
    else if s.value == name then (Found, r)
    else if f.extra then (Ended, r)
    else Seek(name, f, ReadString(r).1)
  }

  function ScanNamed(wants: seq<Wanted>, conversions: int, f: Flags, input: Bytes): Scanned
    requires wants != [] && !wants[0].WantHash?
    decreases |input|, |wants|, 0
  {
    match Seek(wants[0].name, f, input)
    case (Failed, r) => Scanned(-1, [], r)
    case (Ended, r) => Scanned(conversions, [], r)
    case (Found, r) =>
      var (s, r') := ReadString(r);
      var v := if s.None? then None else Convert(wants[0], s.value);
      if v.None? then Scanned(-1, [], r') else After(v.value, ScanFrom(wants[1..], conversions + 1, f, r'))
  }

  /** The inner loop when a hash table is read: `braced` after "{". */
  function ScanTable(t: Table, braced: bool, wants: seq<Wanted>, conversions: int, f: Flags, input: Bytes): Scanned
    decreases |input|, |wants|, 2
  {
    var (name, r) := ReadString(input);
    if name.None? then Scanned(-1, [HashValue(t)], r)
    else if name.value == [] then Scanned(conversions, [HashValue(t)], r)
    else if !braced && name.value == OPEN then ScanTable(t, true, wants, conversions, f, r)
    else if braced && name.value == CLOSE then After(HashValue(t), ScanFrom(wants, conversions, f, r))
    else
      var (s, r') := ReadString(r);
      if s.None? then Scanned(-1, [HashValue(t)], r')
      else if name.value in t then
        if f.extra then Scanned(conversions, [HashValue(t)], r')
        else ScanTable(t, braced, wants, conversions + 1, f, r')
      else if |t| >= ATTR_HASH_LIMIT then Scanned(conversions, [HashValue(t)], r')
      else ScanTable(t[name.value := s.value], braced, wants, conversions + 1, f, r')
  }

  /** attr_vscan0 */
  function Scan(wants: seq<Wanted>, f: Flags, input: Bytes): Scanned
  {
    if input == [] then Scanned(0, [], []) else ScanFrom(wants, 0, f, input)
  }
}
