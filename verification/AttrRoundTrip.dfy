/**
 A receiver that asks for the list that was sent: what it recovers, and when it recovers everything.
 */
module AttrRoundTrip {
  import opened Wrappers
  import opened AttrSpec
  import Base64

  // ---------------------------------------------------------------- what is sent

  predicate CString(s: Bytes)
  {
    0 !in s
  }

  predicate DistinctKeys(es: seq<(Bytes, Bytes)>)
  {
    forall i, j :: 0 <= i < j < |es| ==> es[i].0 != es[j].0
  }

  predicate CStrings(es: seq<(Bytes, Bytes)>)
  {
    forall i :: 0 <= i < |es| ==> CString(es[i].0) && CString(es[i].1)
  }

  /** What the types of the arguments say: ints and longs in range, null-terminated strings, a table with distinct
      keys. */
  predicate WellTyped(a: Attr)
  {
    match a
    case AttrInt(name, i) => CString(name) && -(UINT / 2) <= i < UINT / 2
    case AttrLong(name, l) => CString(name) && -(ULONG / 2) <= l < ULONG / 2
    case AttrStr(name, s) => CString(name) && CString(s)
    case AttrData(name, _) => CString(name)
    case AttrHash(es) => CStrings(es) && DistinctKeys(es)
  }

  predicate GoodKey(k: Bytes)
  {
    k != [] && k != CLOSE
  }

  predicate GoodKeys(es: seq<(Bytes, Bytes)>)
  {
    forall i :: 0 <= i < |es| ==> GoodKey(es[i].0)
  }

  /** Non-empty names, and tables that are not too large and have no key that looks like a delimiter. */
  predicate Recoverable(a: Attr)
  {
    if a.AttrHash? then GoodKeys(a.entries) && |a.entries| <= ATTR_HASH_LIMIT else a.name != []
  }

  // ------------------------------------------------------------- what is expected

  function WantOf(a: Attr): Wanted
  {
    match a
    case AttrInt(name, _) => WantInt(name)
    case AttrLong(name, _) => WantLong(name)
    case AttrStr(name, _) => WantStr(name)
    case AttrData(name, _) => WantData(name)
    case AttrHash(_) => WantHash(map[])
  }

  function TableOf(t: Table, es: seq<(Bytes, Bytes)>): Table
    decreases |es|
  {
    if es == [] then t else TableOf(t[es[0].0 := es[0].1], es[1..])
  }

  function ValueOf(a: Attr): Value
  {
    match a
    case AttrInt(_, i) => IntValue(i)
    case AttrLong(_, l) => LongValue(l)
    case AttrStr(_, s) => StrValue(s)
    case AttrData(_, d) => DataValue(d)
    case AttrHash(es) => HashValue(TableOf(map[], es))
  }

  /** A hash table counts as the number of its entries. */
  function CountOf(a: Attr): nat
  {
    if a.AttrHash? then |a.entries| else 1
  }

  function Count(attrs: seq<Attr>): nat
  {
    if attrs == [] then 0 else CountOf(attrs[0]) + Count(attrs[1..])
  }

  function Wants(attrs: seq<Attr>): (w: seq<Wanted>)
    ensures |w| == |attrs|
  {
    if attrs == [] then [] else [WantOf(attrs[0])] + Wants(attrs[1..])
  }

  function Values(attrs: seq<Attr>): (v: seq<Value>)
    ensures |v| == |attrs|
  {
    if attrs == [] then [] else [ValueOf(attrs[0])] + Values(attrs[1..])
  }

  // ----------------------------------------------------------------- one string

  lemma {:induction false} CStrField(s: Bytes, x: Bytes)
    requires CString(s)
    ensures CStr(s + [0] + x) == s
  {
    if s != [] {
      assert (s + [0] + x)[1..] == s[1..] + [0] + x;
      CStrField(s[1..], x);
    }
  }

  lemma ReadField(s: Bytes, x: Bytes)
    requires CString(s)
    ensures ReadString(Field(s) + x) == (Some(s), x)
  {
    CStrField(s, x);
  }

  // ------------------------------------------------------------------- tables

  lemma {:induction false} TableKeys(t: Table, es: seq<(Bytes, Bytes)>)
    ensures t.Keys <= TableOf(t, es).Keys
    ensures forall i :: 0 <= i < |es| ==> es[i].0 in TableOf(t, es)
    decreases |es|
  {
    if es != [] {
      TableKeys(t[es[0].0 := es[0].1], es[1..]);
      assert forall i :: 1 <= i < |es| ==> es[i] == es[1..][i - 1];
    }
  }

  /** The part of the list that is sent for a table, in the state in which the receiver has read some of it. */
  predicate Fits(t: Table, es: seq<(Bytes, Bytes)>)
  {
    CStrings(es) && DistinctKeys(es) && forall i :: 0 <= i < |es| ==> es[i].0 !in t
  }

  predicate Room(t: Table, es: seq<(Bytes, Bytes)>)
  {
    es != [] ==> |t| + |es| <= ATTR_HASH_LIMIT
  }

  lemma FitsRest(t: Table, es: seq<(Bytes, Bytes)>)
    requires Fits(t, es) && es != []
    ensures Fits(t[es[0].0 := es[0].1], es[1..])
    ensures |t[es[0].0 := es[0].1]| == |t| + 1
    ensures GoodKeys(es) <==> GoodKey(es[0].0) && GoodKeys(es[1..])
  {
    var t' := t[es[0].0 := es[0].1];
    assert t'.Keys == t.Keys + {es[0].0};
    assert forall i :: 1 <= i < |es| ==> es[i] == es[1..][i - 1];
  }

  /** Reading one entry. */
  lemma EntryStep(t: Table, k: Bytes, v: Bytes, more: Bytes, wants: seq<Wanted>, n: int, f: Flags)
    requires CString(k) && CString(v) && k !in t
    ensures var r := ScanTable(t, true, wants, n, f, Field(k) + (Field(v) + more));
            if GoodKey(k) && |t| < ATTR_HASH_LIMIT then r == ScanTable(t[k := v], true, wants, n + 1, f, more)
            else r.values != [] && r.values[0] == HashValue(t)
  {
    ReadField(k, Field(v) + more);
    ReadField(v, more);
  }

  lemma TableClosed(t: Table, rest: Bytes, wants: seq<Wanted>, n: int, f: Flags)
    ensures ScanTable(t, true, wants, n, f, PrintEntries([]) + (Field(CLOSE) + rest))
            == After(HashValue(t), ScanFrom(wants, n, f, rest))
  {
    ReadField(CLOSE, rest);
    assert PrintEntries([]) + (Field(CLOSE) + rest) == Field(CLOSE) + rest;
  }

  /** The first entry of a table that is sent. */
  lemma TableStep(t: Table, es: seq<(Bytes, Bytes)>, tail: Bytes, wants: seq<Wanted>, n: int, f: Flags)
    requires es != [] && Fits(t, es) && GoodKey(es[0].0) && |t| < ATTR_HASH_LIMIT
    ensures ScanTable(t, true, wants, n, f, PrintEntries(es) + tail)
            == ScanTable(t[es[0].0 := es[0].1], true, wants, n + 1, f, PrintEntries(es[1..]) + tail)
  {
    var k, v := es[0].0, es[0].1;
    RegroupFour(Field(k), Field(v), PrintEntries(es[1..]), tail);
    EntryStep(t, k, v, PrintEntries(es[1..]) + tail, wants, n, f);
  }

  lemma {:induction false} TableScan(
    t: Table, es: seq<(Bytes, Bytes)>, rest: Bytes, wants: seq<Wanted>, n: int, f: Flags)
    requires Fits(t, es) && GoodKeys(es) && Room(t, es)
    ensures ScanTable(t, true, wants, n, f, PrintEntries(es) + (Field(CLOSE) + rest))
            == After(HashValue(TableOf(t, es)), ScanFrom(wants, n + |es|, f, rest))
    decreases |es|
  {
    if es == [] {
      TableClosed(t, rest, wants, n, f);
    } else {
      FitsRest(t, es);
      TableStep(t, es, Field(CLOSE) + rest, wants, n, f);
      TableScan(t[es[0].0 := es[0].1], es[1..], rest, wants, n + 1, f);
    }
  }

  /** A table with a bad key, or with too many keys, is not recovered. */
  lemma {:induction false} TableLost(
    t: Table, es: seq<(Bytes, Bytes)>, rest: Bytes, wants: seq<Wanted>, n: int, f: Flags)
    requires Fits(t, es) && !(GoodKeys(es) && Room(t, es))
    ensures var r := ScanTable(t, true, wants, n, f, PrintEntries(es) + rest);
            r.values != [] && r.values[0] != HashValue(TableOf(t, es))
    decreases |es|
  {
    var k, v := es[0].0, es[0].1;
    RegroupFour(Field(k), Field(v), PrintEntries(es[1..]), rest);
    EntryStep(t, k, v, PrintEntries(es[1..]) + rest, wants, n, f);
    FitsRest(t, es);
    TableKeys(t, es);
    if GoodKey(k) && |t| < ATTR_HASH_LIMIT {
      TableLost(t[k := v], es[1..], rest, wants, n + 1, f);
    }
  }

  // --------------------------------------------------------------- attributes

  /** The value that is sent for a named attribute. */
  function Payload(a: Attr): Bytes
    requires !a.AttrHash?
  {
    match a
    case AttrInt(_, i) => Decimal(i % UINT)
    case AttrLong(_, l) => Decimal(l % ULONG)
    case AttrStr(_, s) => s
    case AttrData(_, d) => Base64.Encode(d)
  }

  lemma IntBack(i: int, size: int)
    requires (size == UINT || size == ULONG) && -(size / 2) <= i < size / 2
    ensures ScanNumber(Decimal(i % size), size) == Some(i % size) && Signed(i % size, size) == i
            && CString(Decimal(i % size))
  {
    assert i % size == if i >= 0 then i else i + size;
    DecimalRoundTrip(i % size, size);
  }

  lemma ConvertBack(a: Attr)
    requires WellTyped(a) && !a.AttrHash?
    ensures CString(Payload(a)) && Convert(WantOf(a), Payload(a)) == Some(ValueOf(a))
  {
    match a
    case AttrInt(_, i) => IntBack(i, UINT);
    case AttrLong(_, l) => IntBack(l, ULONG);
    case AttrStr(_, _) =>
    case AttrData(_, d) => Base64.RoundTrip(d); Base64.EncodeNoNull(d);
  }

  lemma NamedScan(a: Attr, wants: seq<Wanted>, n: int, f: Flags, rest: Bytes)
    requires WellTyped(a) && !a.AttrHash?
    ensures var r := ScanFrom([WantOf(a)] + wants, n, f, Print(a) + rest);
            if Recoverable(a) then r == After(ValueOf(a), ScanFrom(wants, n + 1, f, rest)) else r.values == []
  {
    var p := Payload(a);
    ConvertBack(a);
    assert Print(a) + rest == Field(a.name) + (Field(p) + rest);
    ReadField(a.name, Field(p) + rest);
    ReadField(p, rest);
    var ws := [WantOf(a)] + wants;
    assert ws[1..] == wants;
  }

  /** The opening brace of a table. */
  lemma HashOpens(a: Attr, wants: seq<Wanted>, n: int, f: Flags, rest: Bytes)
    requires a.AttrHash?
    ensures ScanFrom([WantOf(a)] + wants, n, f, Print(a) + rest)
            == ScanTable(map[], true, wants, n, f, PrintEntries(a.entries) + (Field(CLOSE) + rest))
  {
    RegroupFour(Field(OPEN), PrintEntries(a.entries), Field(CLOSE), rest);
    ReadField(OPEN, PrintEntries(a.entries) + (Field(CLOSE) + rest));
    var ws := [WantOf(a)] + wants;
    assert ws[1..] == wants;
  }

  lemma HashRecovered(es: seq<(Bytes, Bytes)>, wants: seq<Wanted>, n: int, f: Flags, rest: Bytes)
    requires Fits(map[], es) && GoodKeys(es) && Room(map[], es)
    ensures ScanFrom([WantOf(AttrHash(es))] + wants, n, f, Print(AttrHash(es)) + rest)
            == After(HashValue(TableOf(map[], es)), ScanFrom(wants, n + |es|, f, rest))
  {
    HashOpens(AttrHash(es), wants, n, f, rest);
    TableScan(map[], es, rest, wants, n, f);
  }

  lemma FitsEmpty(a: Attr)
    requires WellTyped(a) && a.AttrHash?
    ensures Fits(map[], a.entries) && (Recoverable(a) ==> GoodKeys(a.entries) && Room(map[], a.entries))
    ensures ValueOf(a) == HashValue(TableOf(map[], a.entries)) && CountOf(a) == |a.entries|
  {
  }

  lemma HashLost(a: Attr, wants: seq<Wanted>, n: int, f: Flags, rest: Bytes)
    requires WellTyped(a) && a.AttrHash? && !Recoverable(a)
    ensures var r := ScanFrom([WantOf(a)] + wants, n, f, Print(a) + rest); r.values != [] && r.values[0] != ValueOf(a)
  {
    HashOpens(a, wants, n, f, rest);
    TableLost(map[], a.entries, Field(CLOSE) + rest, wants, n, f);
  }

  // --------------------------------------------------------------------- lists

  predicate AllWellTyped(attrs: seq<Attr>)
  {
    forall i :: 0 <= i < |attrs| ==> WellTyped(attrs[i])
  }

  predicate AllRecoverable(attrs: seq<Attr>)
  {
    forall i :: 0 <= i < |attrs| ==> Recoverable(attrs[i])
  }

  lemma FirstAndRest(attrs: seq<Attr>)
    requires attrs != []
    ensures AllWellTyped(attrs) <==> WellTyped(attrs[0]) && AllWellTyped(attrs[1..])
    ensures AllRecoverable(attrs) <==> Recoverable(attrs[0]) && AllRecoverable(attrs[1..])
  {
    assert forall i :: 1 <= i < |attrs| ==> attrs[i] == attrs[1..][i - 1];
  }

  lemma AttrScan(a: Attr, wants: seq<Wanted>, n: int, f: Flags, rest: Bytes)
    requires WellTyped(a)
    ensures var r := ScanFrom([WantOf(a)] + wants, n, f, Print(a) + rest);
            if Recoverable(a) then r == After(ValueOf(a), ScanFrom(wants, n + CountOf(a), f, rest))
            else r.values == [] || r.values[0] != ValueOf(a)
  {
    if !a.AttrHash? {
      NamedScan(a, wants, n, f, rest);
    } else if Recoverable(a) {
      FitsEmpty(a);
      HashRecovered(a.entries, wants, n, f, rest);
    } else {
      HashLost(a, wants, n, f, rest);
    }
  }

  lemma PrintFirst(attrs: seq<Attr>, rest: Bytes)
    requires attrs != []
    ensures PrintAll(attrs) + rest == Print(attrs[0]) + (PrintAll(attrs[1..]) + rest)
  {
    var p, q := Print(attrs[0]), PrintAll(attrs[1..]);
    assert p + q + rest == p + (q + rest);
  }

  lemma Join(r: Scanned, v: Value, r1: Scanned, vs: seq<Value>, last: Scanned)
    requires r == After(v, r1) && r1 == last.(values := vs + last.values)
    ensures r == last.(values := [v] + vs + last.values)
  {
    assert [v] + (vs + last.values) == [v] + vs + last.values;
  }

  /** `last` with the values of a list before its own. */
  predicate ScannedAll(r: Scanned, attrs: seq<Attr>, last: Scanned)
  {
    r == last.(values := Values(attrs) + last.values)
  }

  lemma ScannedMore(r: Scanned, attrs: seq<Attr>, r1: Scanned, last: Scanned)
    requires attrs != [] && r == After(ValueOf(attrs[0]), r1) && ScannedAll(r1, attrs[1..], last)
    ensures ScannedAll(r, attrs, last)
  {
    Join(r, ValueOf(attrs[0]), r1, Values(attrs[1..]), last);
  }

  type Scanner = (seq<Wanted>, int, Bytes) -> Scanned

  /** What AttrScan says of a receiver. */
  ghost predicate ScansAttrs(scan: Scanner)
  {
    forall a, wants, n, rest {:trigger scan([WantOf(a)] + wants, n, Print(a) + rest)} :: WellTyped(a) ==>
      var r := scan([WantOf(a)] + wants, n, Print(a) + rest);
      if Recoverable(a) then r == After(ValueOf(a), scan(wants, n + CountOf(a), rest))
      else r.values == [] || r.values[0] != ValueOf(a)
  }

  function ScannerFor(f: Flags): Scanner
  {
    (wants: seq<Wanted>, n: int, input: Bytes) => ScanFrom(wants, n, f, input)
  }

  lemma ScannerScans(f: Flags)
    ensures ScansAttrs(ScannerFor(f))
  {
    forall a: Attr, wants: seq<Wanted>, n: int, rest: Bytes | WellTyped(a)
      ensures var r := ScanFrom([WantOf(a)] + wants, n, f, Print(a) + rest);
              if Recoverable(a) then r == After(ValueOf(a), ScanFrom(wants, n + CountOf(a), f, rest))
              else r.values == [] || r.values[0] != ValueOf(a) {
      AttrScan(a, wants, n, f, rest);
    }
  }

  lemma ScanOne(scan: Scanner, a: Attr, wants: seq<Wanted>, n: int, rest: Bytes)
    requires ScansAttrs(scan) && WellTyped(a) && Recoverable(a)
    ensures scan([WantOf(a)] + wants, n, Print(a) + rest) == After(ValueOf(a), scan(wants, n + CountOf(a), rest))
  {
  }

  /** A list is its first attribute and the rest. */
  lemma ListFirst(attrs: seq<Attr>, rest: Bytes)
    requires attrs != []
    ensures Wants(attrs) == [WantOf(attrs[0])] + Wants(attrs[1..])
    ensures PrintAll(attrs) + rest == Print(attrs[0]) + (PrintAll(attrs[1..]) + rest)
  {
    PrintFirst(attrs, rest);
  }

  /** The first attribute of a list is read, and then the rest. */
  lemma ScanFirst(scan: Scanner, attrs: seq<Attr>, n: int, rest: Bytes)
    requires ScansAttrs(scan) && attrs != [] && WellTyped(attrs[0]) && Recoverable(attrs[0])
    ensures scan(Wants(attrs), n, PrintAll(attrs) + rest)
            == After(ValueOf(attrs[0]), scan(Wants(attrs[1..]), n + CountOf(attrs[0]), PrintAll(attrs[1..]) + rest))
  {
    ListFirst(attrs, rest);
    ScanOne(scan, attrs[0], Wants(attrs[1..]), n, PrintAll(attrs[1..]) + rest);
  }

  lemma {:induction false} ListScan(scan: Scanner, attrs: seq<Attr>, n: int, rest: Bytes)
    requires ScansAttrs(scan) && AllWellTyped(attrs) && AllRecoverable(attrs)
    ensures ScannedAll(scan(Wants(attrs), n, PrintAll(attrs) + rest), attrs, scan([], n + Count(attrs), rest))
    decreases |attrs|
  {
    if attrs == [] {
      assert [] + rest == rest;
    } else {
      var a, more := attrs[0], PrintAll(attrs[1..]) + rest;
      FirstAndRest(attrs);
      ListScan(scan, attrs[1..], n + CountOf(a), rest);
      ScanFirst(scan, attrs, n, rest);
      ScannedMore(scan(Wants(attrs), n, PrintAll(attrs) + rest), attrs, scan(Wants(attrs[1..]), n + CountOf(a), more),
        scan([], n + Count(attrs), rest));
    }
  }

  lemma LostHere(scan: Scanner, attrs: seq<Attr>, n: int, rest: Bytes)
    requires ScansAttrs(scan) && attrs != [] && WellTyped(attrs[0]) && !Recoverable(attrs[0])
    ensures scan(Wants(attrs), n, PrintAll(attrs) + rest).values != Values(attrs)
  {
    var a, more := attrs[0], PrintAll(attrs[1..]) + rest;
    PrintFirst(attrs, rest);
    var r := scan([WantOf(a)] + Wants(attrs[1..]), n, Print(a) + more);
    assert r.values == [] || r.values[0] != Values(attrs)[0];
  }

  lemma LostLater(scan: Scanner, attrs: seq<Attr>, n: int, rest: Bytes)
    requires ScansAttrs(scan) && attrs != [] && WellTyped(attrs[0]) && Recoverable(attrs[0])
    requires scan(Wants(attrs[1..]), n + CountOf(attrs[0]), PrintAll(attrs[1..]) + rest).values != Values(attrs[1..])
    ensures scan(Wants(attrs), n, PrintAll(attrs) + rest).values != Values(attrs)
  {
    ScanFirst(scan, attrs, n, rest);
    FirstSame(ValueOf(attrs[0]), scan(Wants(attrs[1..]), n + CountOf(attrs[0]), PrintAll(attrs[1..]) + rest).values,
      Values(attrs[1..]));
  }

  lemma FirstSame(v: Value, x: seq<Value>, y: seq<Value>)
    requires x != y
    ensures [v] + x != [v] + y
  {
    assert ([v] + x)[1..] == x && ([v] + y)[1..] == y;
  }

  lemma {:induction false} ListLost(scan: Scanner, attrs: seq<Attr>, n: int, rest: Bytes)
    requires ScansAttrs(scan) && AllWellTyped(attrs) && !AllRecoverable(attrs)
    ensures scan(Wants(attrs), n, PrintAll(attrs) + rest).values != Values(attrs)
    decreases |attrs|
  {
    FirstAndRest(attrs);
    if Recoverable(attrs[0]) {
      ListLost(scan, attrs[1..], n + CountOf(attrs[0]), rest);
      LostLater(scan, attrs, n, rest);
    } else {
      LostHere(scan, attrs, n, rest);
    }
  }

  /** The end of the list. */
  lemma EndScan(n: int, sent: Flags, f: Flags, rest: Bytes)
    requires sent.more ==> f.more
    ensures ScanFrom([], n, f, if sent.more then rest else [0] + rest)
            == Scanned(n, [], if sent.more == f.more then rest else [0] + rest)
  {
    if !f.more {
      assert Field([]) + rest == [0] + rest;
      ReadField([], rest);
    }
  }

  lemma PrintSome(attrs: seq<Attr>)
    requires attrs != []
    ensures PrintAll(attrs) != []
  {
    assert |Print(attrs[0])| > 0;
  }

  /** What the receiver finds after the attributes, and what it leaves there. */
  function Behind(sent: Flags, rest: Bytes): Bytes
  {
    if sent.more then rest else [0] + rest
  }

  function Untaken(sent: Flags, f: Flags, rest: Bytes): Bytes
  {
    if sent.more == f.more then rest else [0] + rest
  }

  lemma RoundTripBy(scan: Scanner, attrs: seq<Attr>, sent: Flags, rest: Bytes, left: Bytes)
    requires ScansAttrs(scan) && AllWellTyped(attrs) && AllRecoverable(attrs)
    requires scan([], Count(attrs), Behind(sent, rest)) == Scanned(Count(attrs), [], left)
    ensures scan(Wants(attrs), 0, PrintList(attrs, sent) + rest) == Scanned(Count(attrs), Values(attrs), left)
  {
    ListBehind(attrs, sent, rest);
    ListScan(scan, attrs, 0, Behind(sent, rest));
    assert Values(attrs) + [] == Values(attrs);
  }

  lemma ListBehind(attrs: seq<Attr>, sent: Flags, rest: Bytes)
    ensures PrintList(attrs, sent) + rest == PrintAll(attrs) + Behind(sent, rest)
  {
    Regroup(PrintAll(attrs), if sent.more then [] else [0], rest);
    assert [] + rest == rest;
  }

  lemma NothingSent(attrs: seq<Attr>, sent: Flags, rest: Bytes)
    requires PrintList(attrs, sent) + rest == []
    ensures attrs == []
  {
    if attrs != [] { PrintSome(attrs); }
  }

  /** A receiver that asks for what was sent gets every value back, returns the number of attributes and table entries,
      and takes exactly what was sent from its input: the list terminator too, unless it was told to expect more. */
  lemma RoundTrip(attrs: seq<Attr>, sent: Flags, f: Flags, rest: Bytes)
    requires AllWellTyped(attrs) && AllRecoverable(attrs) && (sent.more ==> f.more)
    ensures Scan(Wants(attrs), f, PrintList(attrs, sent) + rest)
            == Scanned(Count(attrs), Values(attrs), if sent.more == f.more then rest else [0] + rest)
  {
    var input := PrintList(attrs, sent) + rest;
    if input == [] {
      NothingSent(attrs, sent, rest);
    } else {
      ScannerScans(f);
      EndScan(Count(attrs), sent, f, rest);
      RoundTripBy(ScannerFor(f), attrs, sent, rest, Untaken(sent, f, rest));
      assert ScannerFor(f)(Wants(attrs), 0, input) == ScanFrom(Wants(attrs), 0, f, input);
    }
  }

  /** ... and it gets every value back only then. */
  lemma RecoveredExactly(attrs: seq<Attr>, sent: Flags, f: Flags, rest: Bytes)
    requires AllWellTyped(attrs) && (sent.more ==> f.more)
    ensures Scan(Wants(attrs), f, PrintList(attrs, sent) + rest).values == Values(attrs) <==> AllRecoverable(attrs)
  {
    if AllRecoverable(attrs) {
      RoundTrip(attrs, sent, f, rest);
    } else {
      var tail := if sent.more then rest else [0] + rest;
      assert PrintList(attrs, sent) + rest == PrintAll(attrs) + tail;
      PrintSome(attrs);
      ScannerScans(f);
      ListLost(ScannerFor(f), attrs, 0, tail);
    }
  }
}
