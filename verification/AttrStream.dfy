/**
 attr_vprint0() and attr_vscan0() of util/attr_print0.c and util/attr_scan0.c, on a stream.
 */
module AttrStream {
  import opened Wrappers
  import opened AttrSpec
  import Base64

  /** A stream between a sender and a receiver: what was written and not yet read. */
  class Stream {
    var pending: Bytes

    constructor ()
      ensures pending == []
    {
      pending := [];
    }

    /** vstream_fwrite */
    method Write(s: Bytes)
      modifies this
      ensures pending == old(pending) + s
    {
      pending := pending + s;
    }

    /** VSTREAM_GETC */
    method GetChar() returns (c: Option<byte>)
      modifies this
      ensures if old(pending) == [] then c == None && pending == []
              else c == Some(old(pending)[0]) && pending == old(pending)[1..]
    {
      if pending == [] {
        c := None;
      } else {
        c, pending := Some(pending[0]), pending[1..];
      }
    }

    /** vstring_get_null, as attr_scan0_string uses it. */
    method GetNull() returns (s: Option<Bytes>)
      modifies this
      ensures (s, pending) == ReadString(old(pending))
    {
      var buf: Bytes := [];
      var c := GetChar();
      while c.Some? && c.value != 0
        invariant c.None? ==> pending == [] && buf == old(pending) == CStr(old(pending))
        invariant c.Some? ==> buf + [c.value] + pending == old(pending)
        invariant c.Some? ==> CStr(old(pending)) == buf + CStr([c.value] + pending)
        decreases c.Some?, |pending|
      {
        ghost var rest := pending;
        CStrStep(buf, c.value, rest);
        Regroup(buf, [c.value], rest);
        buf := buf + [c.value];
        c := GetChar();
        assert rest != [] ==> rest == [rest[0]] + rest[1..];
      }
      if c.None? {
        return None;
      }
      assert CStr([c.value] + pending) == [] && CStr(old(pending)) == buf;
      assert old(pending)[|buf| + 1..] == pending;
      s := Some(buf);
    }
  }

  lemma CStrStep(buf: Bytes, c: byte, rest: Bytes)
    requires c != 0
    ensures buf + CStr([c] + rest) == buf + [c] + CStr(rest)
  {
    assert ([c] + rest)[1..] == rest;
    Regroup(buf, [c], CStr(rest));
  }

  // ----------------------------------------------------------------- printing

  method WriteEntries(fp: Stream, es: seq<(Bytes, Bytes)>)
    modifies fp
    ensures fp.pending == old(fp.pending) + PrintEntries(es)
  {
    var i := 0;
    while i < |es|
      invariant 0 <= i <= |es|
      invariant fp.pending + PrintEntries(es[i..]) == old(fp.pending) + PrintEntries(es)
    {
      ghost var p, more := fp.pending, PrintEntries(es[i + 1..]);
      assert es[i..][1..] == es[i + 1..];
      fp.Write(es[i].0 + [0]);
      fp.Write(es[i].1 + [0]);
      assert p + Field(es[i].0) + Field(es[i].1) + more == p + (Field(es[i].0) + (Field(es[i].1) + more));
      i := i + 1;
    }
  }

  lemma TwoFields(p: Bytes, a: Bytes, b: Bytes)
    ensures p + (a + [0]) + b + [0] == p + (Field(a) + Field(b))
            && p + (a + [0]) + (b + [0]) == p + (Field(a) + Field(b))
  {
  }

  method WriteAttr(fp: Stream, a: Attr)
    modifies fp
    ensures fp.pending == old(fp.pending) + Print(a)
  {
    ghost var p := fp.pending;
    match a
    case AttrInt(name, i) =>
      fp.Write(name + [0]);
      fp.Write(Decimal(i % UINT));
      fp.Write([0]);
      TwoFields(p, name, Decimal(i % UINT));
    case AttrLong(name, l) =>
      fp.Write(name + [0]);
      fp.Write(Decimal(l % ULONG));
      fp.Write([0]);
      TwoFields(p, name, Decimal(l % ULONG));
    case AttrStr(name, s) =>
      fp.Write(name + [0]);
      fp.Write(s + [0]);
      TwoFields(p, name, s);
    case AttrData(name, d) =>
      fp.Write(name + [0]);
      var buf := Base64.EncodeOpt([], d, false);
      assert [] + Base64.Encode(d) == Base64.Encode(d);
      fp.Write(buf + [0]);
      TwoFields(p, name, buf);
    case AttrHash(es) =>
      fp.Write(OPEN + [0]);
      WriteEntries(fp, es);
      fp.Write(CLOSE + [0]);
      Regroup(p, Field(OPEN), PrintEntries(es));
      Regroup(p, Field(OPEN) + PrintEntries(es), Field(CLOSE));
      Regroup(Field(OPEN), PrintEntries(es), Field(CLOSE));
  }

  /** attr_vprint0 */
  method PrintTo(fp: Stream, attrs: seq<Attr>, f: Flags)
    modifies fp
    ensures fp.pending == old(fp.pending) + PrintList(attrs, f)
  {
    var i := 0;
    while i < |attrs|
      invariant 0 <= i <= |attrs|
      invariant fp.pending + PrintAll(attrs[i..]) == old(fp.pending) + PrintAll(attrs)
    {
      ghost var p := fp.pending;
      assert attrs[i..][1..] == attrs[i + 1..];
      WriteAttr(fp, attrs[i]);
      Regroup(p, Print(attrs[i]), PrintAll(attrs[i + 1..]));
      i := i + 1;
    }
    ghost var p := fp.pending;
    if !f.more {
      fp.Write([0]);
    }
    Regroup(old(fp.pending), PrintAll(attrs), if f.more then [] else [0]);
  }

  // ----------------------------------------------------------------- scanning

  /** The loop over the input when the list terminator is wanted. */
  method ReadEnd(fp: Stream, f: Flags, conversions: int) returns (ret: int)
    modifies fp
    ensures Scanned(ret, [], fp.pending) == ScanEnd(conversions, f, old(fp.pending))
  {
    while true
      invariant ScanEnd(conversions, f, fp.pending) == ScanEnd(conversions, f, old(fp.pending))
      decreases |fp.pending|
    {
      var name := fp.GetNull();
      if name.None? {
        return -1;
      }
      if name.value == [] {
        return conversions;
      }
      if f.extra {
        return conversions;
      }
      var _ := fp.GetNull();
    }
  }

  /** The loop over the input when a named attribute is wanted, up to its name. */
  method FindName(fp: Stream, f: Flags, name: Bytes) returns (found: Search)
    modifies fp
    ensures (found, fp.pending) == Seek(name, f, old(fp.pending))
  {
    while true
      invariant Seek(name, f, fp.pending) == Seek(name, f, old(fp.pending))
      decreases |fp.pending|
    {
      var s := fp.GetNull();
      if s.None? {
        return Failed;
      }
      if s.value == [] {
        return Ended;
      }
      if s.value == name {
        return Found;
      }
      if f.extra {
        return Ended;
      }
      var _ := fp.GetNull();
    }
  }

  /** attr_scan0_number, attr_scan0_long_number, attr_scan0_string or attr_scan0_data. */
  method ReadValue(fp: Stream, want: Wanted) returns (v: Option<Value>)
    requires !want.WantHash?
    modifies fp
    ensures var (s, r) := ReadString(old(fp.pending));
            fp.pending == r && v == if s.None? then None else Convert(want, s.value)
  {
    var s := fp.GetNull();
    if s.None? {
      return None;
    }
    match want
    case WantInt(_) =>
      var n := ScanNumber(s.value, UINT);
      v := if n.None? then None else Some(IntValue(Signed(n.value, UINT)));
    case WantLong(_) =>
      var n := ScanNumber(s.value, ULONG);
      v := if n.None? then None else Some(LongValue(Signed(n.value, ULONG)));
    case WantStr(_) =>
      v := Some(StrValue(s.value));
    case WantData(_) =>
      var d, ok := Base64.DecodeOpt([], s.value, false);
      assert ok ==> d == Base64.Decode(s.value).value;
      v := if ok then Some(DataValue(d)) else None;
  }

  /** The rounds that read a hash table, up to "}" or until the scan ends. */
  method ReadTable(fp: Stream, f: Flags, table: Table, conversions: int, ghost wants: seq<Wanted>)
      returns (t: Table, closed: bool, n: int)
    modifies fp
    ensures ScanTable(table, false, wants, conversions, f, old(fp.pending))
            == if closed then After(HashValue(t), ScanFrom(wants, n, f, fp.pending))
              else Scanned(n, [HashValue(t)], fp.pending)
  {
    var braced := false;
    t, n := table, conversions;
    while true
      invariant ScanTable(t, braced, wants, n, f, fp.pending)
                == ScanTable(table, false, wants, conversions, f, old(fp.pending))
      decreases |fp.pending|
    {
      var name := fp.GetNull();
      if name.None? {
        return t, false, -1;
      }
      if name.value == [] {
        return t, false, n;
      }
      if !braced && name.value == OPEN {
        braced := true;
        continue;
      } else if braced && name.value == CLOSE {
        return t, true, n;
      }
      var s := fp.GetNull();
      if s.None? {
        return t, false, -1;
      }
      if name.value in t {
        if f.extra {
          return t, false, n;
        }
      } else if |t| >= ATTR_HASH_LIMIT {
        return t, false, n;
      } else {
        t := t[name.value := s.value];
      }
      n := n + 1;
    }
  }

  /** The rounds for one item of the wish list: its value, if it was set, and whether the scan goes on. */
  method ReadWanted(fp: Stream, f: Flags, want: Wanted, conversions: int, ghost wants: seq<Wanted>)
      returns (v: Option<Value>, more: bool, n: int)
    modifies fp
    ensures more ==> v.Some?
    ensures ScanFrom([want] + wants, conversions, f, old(fp.pending))
            == if more then After(v.value, ScanFrom(wants, n, f, fp.pending))
               else Scanned(n, if v.Some? then [v.value] else [], fp.pending)
  {
    ghost var ws := [want] + wants;
    assert ws[1..] == wants;
    if want.WantHash? {
      var t;
      t, more, n := ReadTable(fp, f, want.table, conversions, wants);
      v := Some(HashValue(t));
      return;
    }
    v, more := None, false;
    var found := FindName(fp, f, want.name);
    if found == Failed {
      n := -1;
    } else if found == Ended {
      n := conversions;
    } else {
      v := ReadValue(fp, want);
      more := v.Some?;
      n := if more then conversions + 1 else -1;
    }
  }

  /** `r` with the targets that were set before. */
  ghost function Before(values: seq<Value>, r: Scanned): Scanned
  {
    r.(values := values + r.values)
  }

  lemma BeforeAfter(values: seq<Value>, v: Value, r: Scanned)
    ensures Before(values, After(v, r)) == Before(values + [v], r)
  {
    assert values + ([v] + r.values) == values + [v] + r.values;
  }

  /** attr_vscan0 */
  method ScanFromStream(fp: Stream, wants: seq<Wanted>, f: Flags) returns (ret: int, values: seq<Value>)
    modifies fp
    ensures Scanned(ret, values, fp.pending) == Scan(wants, f, old(fp.pending))
  {
    values := [];
    if fp.pending == [] {
      return 0, [];
    }
    var i, conversions := 0, 0;
    assert wants[0..] == wants;
    while i < |wants|
      invariant 0 <= i <= |wants|
      invariant Before(values, ScanFrom(wants[i..], conversions, f, fp.pending)) == Scan(wants, f, old(fp.pending))
    {
      assert wants[i..] == [wants[i]] + wants[i + 1..];
      ghost var values0 := values;
      var v, more, n := ReadWanted(fp, f, wants[i], conversions, wants[i + 1..]);
      if v.Some? {
        values := values + [v.value];
      }
      if !more {
        return n, values;
      }
      conversions := n;
      BeforeAfter(values0, v.value, ScanFrom(wants[i + 1..], n, f, fp.pending));
      i := i + 1;
    }
    if f.more {
      return conversions, values;
    }
    ret := ReadEnd(fp, f, conversions);
  }
}
