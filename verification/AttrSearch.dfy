/**
 A receiver that asks for something else than the list that was sent: it searches the list, forward only, for the
 attributes on its wish list.
 */
module AttrSearch {
  import opened Wrappers
  import opened AttrSpec
  import opened AttrRoundTrip

  /** An attribute with a name, as opposed to a hash table. */
  predicate Named(a: Attr)
  {
    !a.AttrHash? && WellTyped(a) && a.name != []
  }

  predicate AllNamed(attrs: seq<Attr>)
  {
    forall i :: 0 <= i < |attrs| ==> Named(attrs[i])
  }

  predicate AllPlain(wants: seq<Wanted>)
  {
    forall i :: 0 <= i < |wants| ==> !wants[i].WantHash?
  }

  /** The place of the first attribute with that name, or the length of the list. */
  function Place(attrs: seq<Attr>, name: Bytes): (i: nat)
    requires AllNamed(attrs)
    ensures i <= |attrs| && (i < |attrs| ==> attrs[i].name == name)
    ensures forall j :: 0 <= j < i ==> attrs[j].name != name
  {
    if attrs == [] || attrs[0].name == name then 0 else 1 + Place(attrs[1..], name)
  }

  /** What is left of the input when it is given up at an attribute that nobody asked for: its value, and the rest. */
  function Unread(attrs: seq<Attr>, tail: Bytes): Bytes
    requires attrs != [] && AllNamed(attrs)
  {
    Field(Payload(attrs[0])) + (PrintAll(attrs[1..]) + tail)
  }

  /** The result, from the list of attributes that was sent and terminated: each item of the wish list is looked for
      after the one before it. */
  function Search(wants: seq<Wanted>, attrs: seq<Attr>, n: int, f: Flags, rest: Bytes): Scanned
    requires AllPlain(wants) && AllNamed(attrs)
  {
    var tail := [0] + rest;
    if wants == [] then
      if f.more then Scanned(n, [], PrintAll(attrs) + tail)
      else if attrs != [] && f.extra then Scanned(n, [], Unread(attrs, tail))
      else Scanned(n, [], rest)
    else
      var i := Place(attrs, wants[0].name);
      if i > 0 && f.extra then Scanned(n, [], Unread(attrs, tail))
      else if i == |attrs| then Scanned(n, [], rest)
      else
        match Convert(wants[0], Payload(attrs[i]))
        case None => Scanned(-1, [], PrintAll(attrs[i + 1..]) + tail)
        case Some(v) => After(v, Search(wants[1..], attrs[i + 1..], n + 1, f, rest))
  }

  // --------------------------------------------------------------- the input

  lemma PayloadString(a: Attr)
    requires Named(a)
    ensures CString(a.name) && CString(Payload(a)) && Print(a) == Field(a.name) + Field(Payload(a))
  {
    ConvertBack(a);
  }

  /** The first attribute of the list, as bytes. */
  lemma FirstBytes(attrs: seq<Attr>, tail: Bytes)
    requires attrs != [] && AllNamed(attrs)
    ensures PrintAll(attrs) + tail == Field(attrs[0].name) + Unread(attrs, tail)
  {
    var a, more := attrs[0], PrintAll(attrs[1..]);
    PayloadString(a);
    Regroup(Print(a), more, tail);
    Regroup(Field(a.name), Field(Payload(a)), more + tail);
  }

  lemma ReadFirst(attrs: seq<Attr>, tail: Bytes)
    requires attrs != [] && AllNamed(attrs)
    ensures ReadString(PrintAll(attrs) + tail) == (Some(attrs[0].name), Unread(attrs, tail))
    ensures ReadString(Unread(attrs, tail)) == (Some(Payload(attrs[0])), PrintAll(attrs[1..]) + tail)
  {
    FirstBytes(attrs, tail);
    PayloadString(attrs[0]);
    ReadField(attrs[0].name, Unread(attrs, tail));
    ReadField(Payload(attrs[0]), PrintAll(attrs[1..]) + tail);
  }

  lemma ReadTerminator(rest: Bytes)
    ensures ReadString(PrintAll([]) + ([0] + rest)) == (Some([]), rest)
  {
    assert PrintAll([]) + ([0] + rest) == Field([]) + rest;
    ReadField([], rest);
  }

  // --------------------------------------------------------------- one search

  lemma {:induction false} SeekFinds(name: Bytes, f: Flags, attrs: seq<Attr>, tail: Bytes)
    requires AllNamed(attrs)
    requires var i := Place(attrs, name); i < |attrs| && (i == 0 || !f.extra)
    ensures Seek(name, f, PrintAll(attrs) + tail) == (Found, Unread(attrs[Place(attrs, name)..], tail))
    decreases |attrs|
  {
    ReadFirst(attrs, tail);
    if attrs[0].name == name {
      assert attrs[0..] == attrs;
    } else {
      SeekFinds(name, f, attrs[1..], tail);
      assert attrs[1..][Place(attrs[1..], name)..] == attrs[Place(attrs, name)..];
    }
  }

  lemma {:induction false} SeekEnds(name: Bytes, f: Flags, attrs: seq<Attr>, rest: Bytes)
    requires AllNamed(attrs) && Place(attrs, name) == |attrs| && (attrs == [] || !f.extra)
    ensures Seek(name, f, PrintAll(attrs) + ([0] + rest)) == (Ended, rest)
    decreases |attrs|
  {
    if attrs == [] {
      ReadTerminator(rest);
    } else {
      ReadFirst(attrs, [0] + rest);
      SeekEnds(name, f, attrs[1..], rest);
    }
  }

  /** Told to stop at attributes that nobody asked for. */
  lemma SeekStops(name: Bytes, f: Flags, attrs: seq<Attr>, tail: Bytes)
    requires AllNamed(attrs) && Place(attrs, name) > 0 && f.extra
    ensures Seek(name, f, PrintAll(attrs) + tail) == (Ended, Unread(attrs, tail))
  {
    ReadFirst(attrs, tail);
  }

  lemma {:induction false} EndSkips(n: int, f: Flags, attrs: seq<Attr>, rest: Bytes)
    requires AllNamed(attrs)
    ensures ScanEnd(n, f, PrintAll(attrs) + ([0] + rest))
         == Scanned(n, [], if attrs != [] && f.extra then Unread(attrs, [0] + rest) else rest)
    decreases |attrs|
  {
    if attrs == [] {
      ReadTerminator(rest);
    } else {
      ReadFirst(attrs, [0] + rest);
      if !f.extra { EndSkips(n, f, attrs[1..], rest); }
    }
  }

  // --------------------------------------------------------------- the wish list

  lemma NamedFound(wants: seq<Wanted>, n: int, f: Flags, input: Bytes, s: Bytes, x: Bytes)
    requires wants != [] && !wants[0].WantHash? && CString(s)
    requires Seek(wants[0].name, f, input) == (Found, Field(s) + x)
    ensures ScanFrom(wants, n, f, input)
         == match Convert(wants[0], s)
            case None => Scanned(-1, [], x)
            case Some(v) => After(v, ScanFrom(wants[1..], n + 1, f, x))
  {
    ReadField(s, x);
  }

  lemma NamedEnded(wants: seq<Wanted>, n: int, f: Flags, input: Bytes, x: Bytes)
    requires wants != [] && !wants[0].WantHash? && Seek(wants[0].name, f, input) == (Ended, x)
    ensures ScanFrom(wants, n, f, input) == Scanned(n, [], x)
  {
  }

  lemma SearchEnded(wants: seq<Wanted>, attrs: seq<Attr>, n: int, f: Flags, rest: Bytes)
    requires AllPlain(wants) && AllNamed(attrs) && wants != []
    requires var i := Place(attrs, wants[0].name); i == |attrs| || (i > 0 && f.extra)
    ensures ScanFrom(wants, n, f, PrintAll(attrs) + ([0] + rest)) == Search(wants, attrs, n, f, rest)
  {
    var input, name := PrintAll(attrs) + ([0] + rest), wants[0].name;
    if Place(attrs, name) > 0 && f.extra {
      SeekStops(name, f, attrs, [0] + rest);
      NamedEnded(wants, n, f, input, Unread(attrs, [0] + rest));
    } else {
      SeekEnds(name, f, attrs, rest);
      NamedEnded(wants, n, f, input, rest);
    }
  }

  lemma NextFound(wants: seq<Wanted>, attrs: seq<Attr>, n: int, f: Flags, tail: Bytes)
    requires AllPlain(wants) && AllNamed(attrs) && wants != []
    requires var i := Place(attrs, wants[0].name); i < |attrs| && (i == 0 || !f.extra)
    ensures var i := Place(attrs, wants[0].name);
            ScanFrom(wants, n, f, PrintAll(attrs) + tail)
            == match Convert(wants[0], Payload(attrs[i]))
               case None => Scanned(-1, [], PrintAll(attrs[i + 1..]) + tail)
               case Some(v) => After(v, ScanFrom(wants[1..], n + 1, f, PrintAll(attrs[i + 1..]) + tail))
  {
    var i := Place(attrs, wants[0].name);
    SeekFinds(wants[0].name, f, attrs, tail);
    PayloadString(attrs[i]);
    assert attrs[i..][1..] == attrs[i + 1..];
    NamedFound(wants, n, f, PrintAll(attrs) + tail, Payload(attrs[i]), PrintAll(attrs[i + 1..]) + tail);
  }

  lemma SearchFound(wants: seq<Wanted>, attrs: seq<Attr>, n: int, f: Flags, rest: Bytes)
    requires AllPlain(wants) && AllNamed(attrs) && wants != []
    requires var i := Place(attrs, wants[0].name); i < |attrs| && (i == 0 || !f.extra)
    ensures var i := Place(attrs, wants[0].name);
            Search(wants, attrs, n, f, rest)
            == match Convert(wants[0], Payload(attrs[i]))
               case None => Scanned(-1, [], PrintAll(attrs[i + 1..]) + ([0] + rest))
               case Some(v) => After(v, Search(wants[1..], attrs[i + 1..], n + 1, f, rest))
  {
  }

  /** The next item of the wish list is there to be found. */
  predicate IsNext(wants: seq<Wanted>, attrs: seq<Attr>, f: Flags)
    requires AllPlain(wants) && AllNamed(attrs)
  {
    wants != [] && var i := Place(attrs, wants[0].name); i < |attrs| && (i == 0 || !f.extra)
  }

  /** What a scanner does with the next item of the wish list. */
  predicate Advances(scan: Scanner, f: Flags, wants: seq<Wanted>, attrs: seq<Attr>, n: int, rest: Bytes)
  {
    AllPlain(wants) && AllNamed(attrs) ==>
      scan(wants, n, PrintAll(attrs) + ([0] + rest))
      == if !IsNext(wants, attrs, f) then Search(wants, attrs, n, f, rest)
         else
           var i := Place(attrs, wants[0].name);
           match Convert(wants[0], Payload(attrs[i]))
           case None => Scanned(-1, [], PrintAll(attrs[i + 1..]) + ([0] + rest))
           case Some(v) => After(v, scan(wants[1..], n + 1, PrintAll(attrs[i + 1..]) + ([0] + rest)))
  }

  lemma AdvancesToNext(f: Flags, wants: seq<Wanted>, attrs: seq<Attr>, n: int, rest: Bytes)
    requires AllPlain(wants) && AllNamed(attrs) && IsNext(wants, attrs, f)
    ensures Advances(ScannerFor(f), f, wants, attrs, n, rest)
  {
    NextFound(wants, attrs, n, f, [0] + rest);
  }

  lemma AdvancesToEnd(f: Flags, wants: seq<Wanted>, attrs: seq<Attr>, n: int, rest: Bytes)
    requires AllPlain(wants) && AllNamed(attrs) && wants != [] && !IsNext(wants, attrs, f)
    ensures Advances(ScannerFor(f), f, wants, attrs, n, rest)
  {
    SearchEnded(wants, attrs, n, f, rest);
  }

  lemma AdvancesNoMore(f: Flags, attrs: seq<Attr>, n: int, rest: Bytes)
    requires AllNamed(attrs)
    ensures Advances(ScannerFor(f), f, [], attrs, n, rest)
  {
    EndSkips(n, f, attrs, rest);
  }

  lemma ScannerAdvances(f: Flags, wants: seq<Wanted>, attrs: seq<Attr>, n: int, rest: Bytes)
    ensures Advances(ScannerFor(f), f, wants, attrs, n, rest)
  {
    if AllPlain(wants) && AllNamed(attrs) {
      if wants == [] {
        AdvancesNoMore(f, attrs, n, rest);
      } else if IsNext(wants, attrs, f) {
        AdvancesToNext(f, wants, attrs, n, rest);
      } else {
        AdvancesToEnd(f, wants, attrs, n, rest);
      }
    }
  }

  ghost predicate AdvancesAlways(scan: Scanner, f: Flags)
  {
    forall wants, attrs, n, rest {:trigger Advances(scan, f, wants, attrs, n, rest)} ::
      Advances(scan, f, wants, attrs, n, rest)
  }

  lemma {:induction false} SearchBy(
    scan: Scanner, wants: seq<Wanted>, attrs: seq<Attr>, n: int, f: Flags, rest: Bytes)
    requires AllPlain(wants) && AllNamed(attrs) && AdvancesAlways(scan, f)
    ensures scan(wants, n, PrintAll(attrs) + ([0] + rest)) == Search(wants, attrs, n, f, rest)
    decreases |wants|
  {
    assert Advances(scan, f, wants, attrs, n, rest);
    if IsNext(wants, attrs, f) {
      SearchFound(wants, attrs, n, f, rest);
      SearchBy(scan, wants[1..], attrs[Place(attrs, wants[0].name) + 1..], n + 1, f, rest);
    }
  }

  /** The receiver finds what a search of the list finds. */
  lemma ScanIsSearch(wants: seq<Wanted>, attrs: seq<Attr>, f: Flags, rest: Bytes)
    requires AllPlain(wants) && AllNamed(attrs)
    ensures Scan(wants, f, PrintAll(attrs) + ([0] + rest)) == Search(wants, attrs, 0, f, rest)
  {
    forall w, a, n, r ensures Advances(ScannerFor(f), f, w, a, n, r) {
      ScannerAdvances(f, w, a, n, r);
    }
    SearchBy(ScannerFor(f), wants, attrs, 0, f, rest);
  }

  // ------------------------------------------------- a wish list that is part of what was sent

  predicate DistinctNames(attrs: seq<Attr>)
    requires AllNamed(attrs)
  {
    forall i, j :: 0 <= i < j < |attrs| ==> attrs[i].name != attrs[j].name
  }

  /** The attributes that are marked, in order. */
  function Picked(attrs: seq<Attr>, marks: seq<bool>): (r: seq<Attr>)
    requires |marks| == |attrs|
  {
    if attrs == [] then [] else (if marks[0] then [attrs[0]] else []) + Picked(attrs[1..], marks[1..])
  }

  /** The attributes after the last one that is marked. */
  function AfterPicked(attrs: seq<Attr>, marks: seq<bool>): seq<Attr>
    requires |marks| == |attrs|
  {
    if Picked(attrs, marks) == [] then attrs else AfterPicked(attrs[1..], marks[1..])
  }

  lemma {:induction false} PickedNames(attrs: seq<Attr>, marks: seq<bool>)
    requires |marks| == |attrs| && AllNamed(attrs)
    ensures AllNamed(Picked(attrs, marks)) && AllNamed(AfterPicked(attrs, marks))
    ensures forall a :: a in Picked(attrs, marks) || a in AfterPicked(attrs, marks) ==> a in attrs
    decreases |attrs|
  {
    if attrs != [] {
      assert forall a :: a in attrs[1..] ==> a in attrs;
      PickedNames(attrs[1..], marks[1..]);
    }
  }

  /** An attribute that is not asked for next is skipped, with its value. */
  lemma Skips(wants: seq<Wanted>, attrs: seq<Attr>, n: int, f: Flags, tail: Bytes)
    requires wants != [] && !wants[0].WantHash? && attrs != [] && AllNamed(attrs) && !f.extra
    requires wants[0].name != attrs[0].name
    ensures ScanFrom(wants, n, f, PrintAll(attrs) + tail) == ScanFrom(wants, n, f, PrintAll(attrs[1..]) + tail)
  {
    SeekSkips(wants[0].name, attrs, f, tail);
    SameSeek(wants, n, f, PrintAll(attrs) + tail, PrintAll(attrs[1..]) + tail);
  }

  lemma SeekSkips(name: Bytes, attrs: seq<Attr>, f: Flags, tail: Bytes)
    requires attrs != [] && AllNamed(attrs) && !f.extra && name != attrs[0].name
    ensures Seek(name, f, PrintAll(attrs) + tail) == Seek(name, f, PrintAll(attrs[1..]) + tail)
  {
    ReadFirst(attrs, tail);
  }

  lemma SameSeek(wants: seq<Wanted>, n: int, f: Flags, x: Bytes, y: Bytes)
    requires wants != [] && !wants[0].WantHash? && Seek(wants[0].name, f, x) == Seek(wants[0].name, f, y)
    ensures ScanFrom(wants, n, f, x) == ScanFrom(wants, n, f, y)
  {
    assert ScanNamed(wants, n, f, x) == ScanNamed(wants, n, f, y);
  }

  /** An attribute that is asked for next is taken. */
  lemma Takes(wants: seq<Wanted>, attrs: seq<Attr>, n: int, f: Flags, tail: Bytes)
    requires wants != [] && attrs != [] && AllNamed(attrs) && wants[0] == WantOf(attrs[0])
    ensures ScanFrom(wants, n, f, PrintAll(attrs) + tail)
         == After(ValueOf(attrs[0]), ScanFrom(wants[1..], n + 1, f, PrintAll(attrs[1..]) + tail))
  {
    var a := attrs[0];
    SeekFinds(a.name, f, attrs, tail);
    assert attrs[0..] == attrs;
    PayloadString(a);
    ConvertBack(a);
    NamedFound(wants, n, f, PrintAll(attrs) + tail, Payload(a), PrintAll(attrs[1..]) + tail);
  }

  /** What a scanner does at the first attribute of a list: take it or skip it. */
  predicate StepsOver(scan: Scanner, wants: seq<Wanted>, attrs: seq<Attr>, n: int, tail: Bytes)
  {
    wants != [] && attrs != [] && AllNamed(attrs) ==>
      && (wants[0] == WantOf(attrs[0]) ==>
            scan(wants, n, PrintAll(attrs) + tail)
            == After(ValueOf(attrs[0]), scan(wants[1..], n + 1, PrintAll(attrs[1..]) + tail)))
      && (!wants[0].WantHash? && wants[0].name != attrs[0].name ==>
            scan(wants, n, PrintAll(attrs) + tail) == scan(wants, n, PrintAll(attrs[1..]) + tail))
  }

  ghost predicate Walks(scan: Scanner)
  {
    forall wants, attrs, n, tail {:trigger StepsOver(scan, wants, attrs, n, tail)} ::
      StepsOver(scan, wants, attrs, n, tail)
  }

  lemma ScannerSteps(f: Flags, wants: seq<Wanted>, attrs: seq<Attr>, n: int, tail: Bytes)
    requires !f.extra
    ensures StepsOver(ScannerFor(f), wants, attrs, n, tail)
  {
    if wants != [] && attrs != [] && AllNamed(attrs) {
      if wants[0] == WantOf(attrs[0]) {
        Takes(wants, attrs, n, f, tail);
      } else if !wants[0].WantHash? && wants[0].name != attrs[0].name {
        Skips(wants, attrs, n, f, tail);
      }
    }
  }

  lemma ScannerWalks(f: Flags)
    requires !f.extra
    ensures Walks(ScannerFor(f))
  {
    forall wants, attrs, n, tail ensures StepsOver(ScannerFor(f), wants, attrs, n, tail) {
      ScannerSteps(f, wants, attrs, n, tail);
    }
  }

  /** The result of a scan that goes on after some values. */
  function Prefixed(values: seq<Value>, r: Scanned): Scanned
  {
    r.(values := values + r.values)
  }

  lemma PrefixedMore(v: Value, values: seq<Value>, r: Scanned)
    ensures After(v, Prefixed(values, r)) == Prefixed([v] + values, r)
  {
    Regroup([v], values, r.values);
  }

  lemma PickedFirst(attrs: seq<Attr>, marks: seq<bool>)
    requires |marks| == |attrs| > 0 && AllNamed(attrs) && DistinctNames(attrs) && !marks[0]
    requires Picked(attrs, marks) != []
    ensures var w := WantOf(Picked(attrs, marks)[0]); !w.WantHash? && w.name != attrs[0].name
  {
    PickedNames(attrs[1..], marks[1..]);
    var a := Picked(attrs, marks)[0];
    assert a in Picked(attrs[1..], marks[1..]) && a in attrs[1..];
    var i :| 0 <= i < |attrs[1..]| && attrs[1..][i] == a;
    assert attrs[i + 1] == a && Named(attrs[i + 1]);
  }

  /** A wish list for the picked attributes, and more. */
  function Wishes(attrs: seq<Attr>, marks: seq<bool>, more: seq<Wanted>): seq<Wanted>
    requires |marks| == |attrs|
  {
    Wants(Picked(attrs, marks)) + more
  }

  lemma PickedUnfold(attrs: seq<Attr>, marks: seq<bool>)
    requires |marks| == |attrs| > 0
    ensures var rest := Picked(attrs[1..], marks[1..]);
            Picked(attrs, marks) == if marks[0] then [attrs[0]] + rest else rest
  {
  }

  lemma WantsFirst(a: Attr, attrs: seq<Attr>)
    ensures Wants([a] + attrs) == [WantOf(a)] + Wants(attrs) && Values([a] + attrs) == [ValueOf(a)] + Values(attrs)
  {
    assert ([a] + attrs)[1..] == attrs;
  }

  lemma WishesFirst(attrs: seq<Attr>, marks: seq<bool>, more: seq<Wanted>)
    requires |marks| == |attrs| > 0 && Picked(attrs, marks) != []
    ensures var wants, rest := Wishes(attrs, marks, more), Wishes(attrs[1..], marks[1..], more);
            && wants != [] && wants[0] == WantOf(Picked(attrs, marks)[0])
            && (marks[0] ==> wants[1..] == rest) && (!marks[0] ==> wants == rest)
  {
    var picked, rest := Picked(attrs, marks), Picked(attrs[1..], marks[1..]);
    PickedUnfold(attrs, marks);
    if marks[0] {
      WantsFirst(attrs[0], rest);
      Regroup([WantOf(attrs[0])], Wants(rest), more);
    }
  }

  predicate PicksBy(scan: Scanner, attrs: seq<Attr>, marks: seq<bool>, more: seq<Wanted>, n: int, tail: Bytes)
    requires |marks| == |attrs|
  {
    var picked := Picked(attrs, marks);
    scan(Wishes(attrs, marks, more), n, PrintAll(attrs) + tail)
    == Prefixed(Values(picked), scan(more, n + |picked|, PrintAll(AfterPicked(attrs, marks)) + tail))
  }

  lemma PickTaken(scan: Scanner, attrs: seq<Attr>, marks: seq<bool>, more: seq<Wanted>, n: int, tail: Bytes)
    requires |marks| == |attrs| > 0 && AllNamed(attrs) && marks[0]
    requires StepsOver(scan, Wishes(attrs, marks, more), attrs, n, tail)
    requires PicksBy(scan, attrs[1..], marks[1..], more, n + 1, tail)
    ensures PicksBy(scan, attrs, marks, more, n, tail)
  {
    var rest := Picked(attrs[1..], marks[1..]);
    PickedUnfold(attrs, marks);
    WishesFirst(attrs, marks, more);
    WantsFirst(attrs[0], rest);
    var last := scan(more, n + 1 + |rest|, PrintAll(AfterPicked(attrs, marks)) + tail);
    PrefixedMore(ValueOf(attrs[0]), Values(rest), last);
  }

  lemma PickSkipped(scan: Scanner, attrs: seq<Attr>, marks: seq<bool>, more: seq<Wanted>, n: int, tail: Bytes)
    requires |marks| == |attrs| > 0 && !marks[0] && Picked(attrs, marks) != []
    requires var wants := Wishes(attrs, marks, more);
             scan(wants, n, PrintAll(attrs) + tail) == scan(wants, n, PrintAll(attrs[1..]) + tail)
    requires PicksBy(scan, attrs[1..], marks[1..], more, n, tail)
    ensures PicksBy(scan, attrs, marks, more, n, tail)
  {
    PickedUnfold(attrs, marks);
    assert Wishes(attrs, marks, more) == Wishes(attrs[1..], marks[1..], more);
    assert AfterPicked(attrs, marks) == AfterPicked(attrs[1..], marks[1..]);
  }

  lemma {:induction false} PickedBy(
    scan: Scanner, attrs: seq<Attr>, marks: seq<bool>, more: seq<Wanted>, n: int, tail: Bytes)
    requires Walks(scan) && |marks| == |attrs| && AllNamed(attrs) && DistinctNames(attrs)
    ensures PicksBy(scan, attrs, marks, more, n, tail)
    decreases |attrs|
  {
    if Picked(attrs, marks) == [] {
      assert Wishes(attrs, marks, more) == more;
    } else {
      assert StepsOver(scan, Wishes(attrs, marks, more), attrs, n, tail);
      PickedBy(scan, attrs[1..], marks[1..], more, if marks[0] then n + 1 else n, tail);
      if marks[0] {
        PickTaken(scan, attrs, marks, more, n, tail);
      } else {
        PickedFirst(attrs, marks);
        WishesFirst(attrs, marks, more);
        PickSkipped(scan, attrs, marks, more, n, tail);
      }
    }
  }

  lemma EndAfter(attrs: seq<Attr>, n: int, sent: Flags, f: Flags, rest: Bytes)
    requires AllNamed(attrs) && !f.extra && (sent.more ==> f.more)
    ensures ScanFrom([], n, f, PrintAll(attrs) + Behind(sent, rest))
         == Scanned(n, [], if f.more then PrintAll(attrs) + Behind(sent, rest) else rest)
  {
    if !f.more {
      EndSkips(n, f, attrs, rest);
    }
  }

  lemma PickedList(scan: Scanner, attrs: seq<Attr>, marks: seq<bool>, more: seq<Wanted>, sent: Flags, rest: Bytes,
                   left: Bytes)
    requires |marks| == |attrs| && PicksBy(scan, attrs, marks, more, 0, Behind(sent, rest))
    requires var picked := Picked(attrs, marks);
             scan(more, |picked|, PrintAll(AfterPicked(attrs, marks)) + Behind(sent, rest))
             == Scanned(|picked|, [], left)
    ensures var picked := Picked(attrs, marks);
            scan(Wishes(attrs, marks, more), 0, PrintList(attrs, sent) + rest)
            == Scanned(|picked|, Values(picked), left)
  {
    ListBehind(attrs, sent, rest);
  }

  lemma ScanScans(wants: seq<Wanted>, attrs: seq<Attr>, sent: Flags, f: Flags, rest: Bytes)
    requires PrintList(attrs, sent) + rest != []
    ensures Scan(wants, f, PrintList(attrs, sent) + rest) == ScannerFor(f)(wants, 0, PrintList(attrs, sent) + rest)
  {
  }

  /** A wish list that is part of what was sent, in the same order: the receiver recovers exactly the values that it
      asked for, whatever else was sent before, between and after them, and returns their number.  Without the MORE flag
      it also reads on to the end of the list. */
  lemma RecoversPart(attrs: seq<Attr>, marks: seq<bool>, sent: Flags, f: Flags, rest: Bytes)
    requires |marks| == |attrs| && AllNamed(attrs) && DistinctNames(attrs) && !f.extra && (sent.more ==> f.more)
    ensures var picked := Picked(attrs, marks);
            Scan(Wants(picked), f, PrintList(attrs, sent) + rest)
            == Scanned(|picked|, Values(picked),
                       if f.more then PrintAll(AfterPicked(attrs, marks)) + Behind(sent, rest) else rest)
  {
    var picked, after := Picked(attrs, marks), AfterPicked(attrs, marks);
    var left := if f.more then PrintAll(after) + Behind(sent, rest) else rest;
    if PrintList(attrs, sent) + rest == [] {
      NothingSent(attrs, sent, rest);
    } else {
      PickedNames(attrs, marks);
      ScannerPicks(attrs, marks, [], f, Behind(sent, rest));
      EndAfter(after, |picked|, sent, f, rest);
      PickedList(ScannerFor(f), attrs, marks, [], sent, rest, left);
      assert Wishes(attrs, marks, []) == Wants(picked);
      ScanScans(Wants(picked), attrs, sent, f, rest);
    }
  }

  lemma ScannerPicks(attrs: seq<Attr>, marks: seq<bool>, more: seq<Wanted>, f: Flags, tail: Bytes)
    requires |marks| == |attrs| && AllNamed(attrs) && DistinctNames(attrs) && !f.extra
    ensures PicksBy(ScannerFor(f), attrs, marks, more, 0, tail)
  {
    ScannerWalks(f);
    PickedBy(ScannerFor(f), attrs, marks, more, 0, tail);
  }

  lemma NotPlaced(attrs: seq<Attr>, part: seq<Attr>, name: Bytes)
    requires AllNamed(attrs) && AllNamed(part) && forall a :: a in part ==> a in attrs
    requires forall i :: 0 <= i < |attrs| ==> attrs[i].name != name
    ensures Place(part, name) == |part|
  {
    forall i | 0 <= i < |part| ensures part[i].name != name {
      assert part[i] in part;
      var j :| 0 <= j < |attrs| && attrs[j] == part[i];
    }
  }

  /** After those, a name that was not sent: the receiver returns the number of conversions so far. */
  lemma MissingEnds(
    attrs: seq<Attr>, marks: seq<bool>, w: Wanted, more: seq<Wanted>, sent: Flags, f: Flags, rest: Bytes)
    requires |marks| == |attrs| && AllNamed(attrs) && DistinctNames(attrs) && !f.extra && !sent.more
    requires !w.WantHash? && forall i :: 0 <= i < |attrs| ==> attrs[i].name != w.name
    ensures var picked := Picked(attrs, marks);
            Scan(Wishes(attrs, marks, [w] + more), f, PrintList(attrs, sent) + rest)
            == Scanned(|picked|, Values(picked), rest)
  {
    var picked, after := Picked(attrs, marks), AfterPicked(attrs, marks);
    PickedNames(attrs, marks);
    NotPlaced(attrs, after, w.name);
    SeekEnds(w.name, f, after, rest);
    NamedEnded([w] + more, |picked|, f, PrintAll(after) + ([0] + rest), rest);
    ScannerPicks(attrs, marks, [w] + more, f, [0] + rest);
    PickedList(ScannerFor(f), attrs, marks, [w] + more, sent, rest, rest);
    ScanScans(Wishes(attrs, marks, [w] + more), attrs, sent, f, rest);
  }

  // ------------------------------------------------------- told to stop at what nobody asked for

  lemma SearchTakes(wants: seq<Wanted>, attrs: seq<Attr>, n: int, f: Flags, rest: Bytes)
    requires wants != [] && AllPlain(wants) && attrs != [] && AllNamed(attrs) && wants[0] == WantOf(attrs[0])
    ensures Search(wants, attrs, n, f, rest) == After(ValueOf(attrs[0]), Search(wants[1..], attrs[1..], n + 1, f, rest))
  {
    ConvertBack(attrs[0]);
  }

  lemma FirstOf<T>(s: seq<T>, k: nat)
    requires 0 < k <= |s|
    ensures s[..k] == [s[0]] + s[1..][..k - 1] && s[1..][k - 1..] == s[k..]
  {
    assert [s[0]] + s[1..][..k - 1] == s[..k];
  }

  lemma {:induction false} SearchStops(attrs: seq<Attr>, k: nat, more: seq<Wanted>, n: int, f: Flags, rest: Bytes)
    requires AllNamed(attrs) && k < |attrs| && AllPlain(more) && f.extra
    requires if more == [] then !f.more else more[0].name != attrs[k].name
    ensures AllPlain(Wants(attrs[..k]) + more)
    ensures Search(Wants(attrs[..k]) + more, attrs, n, f, rest)
         == Scanned(n + k, Values(attrs[..k]), Unread(attrs[k..], [0] + rest))
    decreases k
  {
    if k == 0 {
      assert attrs[..0] == [] && Wants([]) + more == more && attrs[0..] == attrs;
    } else {
      var a, more' := attrs[0], attrs[1..];
      FirstOf(attrs, k);
      WantsFirst(a, more'[..k - 1]);
      Regroup([WantOf(a)], Wants(more'[..k - 1]), more);
      SearchStops(more', k - 1, more, n + 1, f, rest);
      var wants := Wants(attrs[..k]) + more;
      assert wants[1..] == Wants(more'[..k - 1]) + more && wants[0] == WantOf(a);
      assert Named(attrs[0]);
      SearchTakes(wants, attrs, n, f, rest);
    }
  }

  /** With the EXTRA flag the receiver stops at the first attribute that it did not ask for, having recovered those
      before it. */
  lemma ExtraStops(attrs: seq<Attr>, k: nat, more: seq<Wanted>, sent: Flags, f: Flags, rest: Bytes)
    requires AllNamed(attrs) && k < |attrs| && AllPlain(more) && f.extra && !sent.more
    requires if more == [] then !f.more else more[0].name != attrs[k].name
    ensures Scan(Wants(attrs[..k]) + more, f, PrintList(attrs, sent) + rest)
         == Scanned(k, Values(attrs[..k]), Unread(attrs[k..], [0] + rest))
  {
    SearchStops(attrs, k, more, 0, f, rest);
    ScanIsSearch(Wants(attrs[..k]) + more, attrs, f, rest);
    ListBehind(attrs, sent, rest);
  }

  // --------------------------------------------------------- a table that has entries already

  /** A table with the entries of a list added; of several values for a key the first counts. */
  function Merged(t: Table, es: seq<(Bytes, Bytes)>): Table
    decreases |es|
  {
    if es == [] then t else Merged(if es[0].0 in t then t else t[es[0].0 := es[0].1], es[1..])
  }

  /** Reading an entry whose key is there already: the table is not changed, or the scan stops. */
  lemma EntryAgain(t: Table, k: Bytes, v: Bytes, more: Bytes, wants: seq<Wanted>, n: int, f: Flags)
    requires CString(k) && CString(v) && k in t && GoodKey(k)
    ensures ScanTable(t, true, wants, n, f, Field(k) + (Field(v) + more))
         == if f.extra then Scanned(n, [HashValue(t)], more) else ScanTable(t, true, wants, n + 1, f, more)
  {
    ReadField(k, Field(v) + more);
    ReadField(v, more);
  }

  lemma {:induction false} MergedKeys(t: Table, es: seq<(Bytes, Bytes)>)
    ensures t.Keys <= Merged(t, es).Keys
    decreases |es|
  {
    if es != [] {
      MergedKeys(if es[0].0 in t then t else t[es[0].0 := es[0].1], es[1..]);
    }
  }

  lemma Fewer<T>(a: set<T>, b: set<T>)
    requires a <= b
    ensures |a| <= |b|
  {
    assert b == a + (b - a);
  }

  lemma MergeStep(t: Table, es: seq<(Bytes, Bytes)>, tail: Bytes, wants: seq<Wanted>, n: int, f: Flags)
    requires es != [] && CString(es[0].0) && CString(es[0].1) && GoodKey(es[0].0) && !f.extra
    requires |Merged(t, es)| <= ATTR_HASH_LIMIT
    ensures var t' := if es[0].0 in t then t else t[es[0].0 := es[0].1];
            ScanTable(t, true, wants, n, f, PrintEntries(es) + tail)
            == ScanTable(t', true, wants, n + 1, f, PrintEntries(es[1..]) + tail)
  {
    var k, v := es[0].0, es[0].1;
    RegroupFour(Field(k), Field(v), PrintEntries(es[1..]), tail);
    if k in t {
      EntryAgain(t, k, v, PrintEntries(es[1..]) + tail, wants, n, f);
    } else {
      var t' := t[k := v];
      MergedKeys(t', es[1..]);
      Fewer(t'.Keys, Merged(t', es[1..]).Keys);
      assert t'.Keys == t.Keys + {k};
      EntryStep(t, k, v, PrintEntries(es[1..]) + tail, wants, n, f);
    }
  }

  /** A table sent to a receiver whose table has entries, or sent with a key twice: what was there first stays, and
      every entry read counts as a conversion. */
  lemma {:induction false} MergedScan(
    t: Table, es: seq<(Bytes, Bytes)>, rest: Bytes, wants: seq<Wanted>, n: int, f: Flags)
    requires CStrings(es) && GoodKeys(es) && !f.extra && |Merged(t, es)| <= ATTR_HASH_LIMIT
    ensures ScanTable(t, true, wants, n, f, PrintEntries(es) + (Field(CLOSE) + rest))
         == After(HashValue(Merged(t, es)), ScanFrom(wants, n + |es|, f, rest))
    decreases |es|
  {
    if es == [] {
      TableClosed(t, rest, wants, n, f);
    } else {
      assert forall i :: 0 < i < |es| ==> es[i] == es[1..][i - 1];
      MergeStep(t, es, Field(CLOSE) + rest, wants, n, f);
      MergedScan(if es[0].0 in t then t else t[es[0].0 := es[0].1], es[1..], rest, wants, n + 1, f);
    }
  }
}
