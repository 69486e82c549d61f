/**
 The CIDR table of util/dict_cidr.c on the heap: rules in a linked list in which every IF
 points at its ENDIF, and the walk over that list by cidr_match_execute().
 */
module CidrTable {
  import opened Wrappers
  import opened CidrMatch
  import opened CidrRules

  class Entry {
    const op: Op
    var next: Entry?
    var blockEnd: Entry?

    constructor (op: Op)
      ensures this.op == op && next == null && blockEnd == null
    {
      this.op := op;
      next := null;
      blockEnd := null;
    }
  }

  // ------------------------------------------------------------------- the list

  datatype Links = Links(next: Entry?, blockEnd: Entry?)
  type Memory = map<Entry, Links>

  /** The entries in order, the positions of the block ends, and what is in memory. */
  datatype List = List(entries: seq<Entry>, ends: seq<Option<nat>>, memory: Memory)

  function Ops(entries: seq<Entry>): (ops: seq<Op>)
    ensures |ops| == |entries| && forall i :: 0 <= i < |ops| ==> ops[i] == entries[i].op
  {
    seq(|entries|, i requires 0 <= i < |entries| => entries[i].op)
  }

  function First(entries: seq<Entry>): Entry?
  {
    if entries == [] then null else entries[0]
  }

  function Final(entries: seq<Entry>): Entry?
  {
    if entries == [] then null else entries[|entries| - 1]
  }

  /** What the links of entry i should be. */
  function LinksAt(entries: seq<Entry>, ends: seq<Option<nat>>, i: nat): Links
    requires i < |ends|
  {
    Links(if i + 1 < |entries| then entries[i + 1] else null,
          if ends[i].Some? && ends[i].value < |entries| then entries[ends[i].value] else null)
  }

  ghost predicate Good(l: List)
  {
    && |l.ends| == |l.entries| && RightEnds(Ops(l.entries), l.ends)
    && (forall i, j :: 0 <= i < j < |l.entries| ==> l.entries[i] != l.entries[j])
    && (forall i :: 0 <= i < |l.entries| ==> l.entries[i] in l.memory)
    && (forall i {:trigger LinksAt(l.entries, l.ends, i)} :: 0 <= i < |l.entries| ==>
          l.memory[l.entries[i]] == LinksAt(l.entries, l.ends, i)
            && (l.ends[i].Some? ==> l.ends[i].value < |l.entries|))
  }

  lemma OpsAppend(entries: seq<Entry>, e: Entry)
    ensures Ops(entries + [e]) == Ops(entries) + [e.op]
  {
  }

  /** The position of the IF that the next ENDIF closes. */
  function Top(entries: seq<Entry>): Option<nat>
  {
    var s := Stack(Ops(entries), |entries|);
    if s == [] then None else Some(s[|s| - 1])
  }

  /** What linking a rule to the end of the list writes; the IF at position i is closed, if there is one. */
  function Linked(l: List, rule: Entry, i: Option<nat>): List
    requires (i.Some? ==> i.value < |l.entries| == |l.ends| && l.entries[i.value] in l.memory)
    requires l.entries != [] ==> l.entries[|l.entries| - 1] in l.memory
  {
    var n := |l.entries|;
    var m1 := l.memory[rule := Links(null, null)];
    var m2 := if i.Some? then m1[l.entries[i.value] := m1[l.entries[i.value]].(blockEnd := rule)] else m1;
    var m3 := if n > 0 then m2[l.entries[n - 1] := m2[l.entries[n - 1]].(next := rule)] else m2;
    List(l.entries + [rule], (if i.Some? then l.ends[i.value := Some(n)] else l.ends) + [None], m3)
  }

  /** Which IF a rule closes. */
  function Closed(l: List, op: Op): Option<nat>
  {
    if op.EndIf? then Top(l.entries) else None
  }

  lemma EndsLinked(l: List, rule: Entry)
    requires |l.ends| == |l.entries| && RightEnds(Ops(l.entries), l.ends) && (rule.op.EndIf? ==> Top(l.entries).Some?)
    requires forall i :: 0 <= i < |l.entries| ==> l.entries[i] in l.memory
    ensures var l' := Linked(l, rule, Closed(l, rule.op));
            |l'.ends| == |l'.entries| && RightEnds(Ops(l'.entries), l'.ends)
  {
    OpsAppend(l.entries, rule);
    if rule.op.EndIf? {
      EndsClose(Ops(l.entries), l.ends);
    } else {
      EndsAppend(Ops(l.entries), l.ends, rule.op);
    }
  }

  lemma GoodLinked(l: List, rule: Entry)
    requires Good(l) && rule !in l.entries && (rule.op.EndIf? ==> Top(l.entries).Some?)
    ensures Good(Linked(l, rule, Closed(l, rule.op)))
  {
    var l' := Linked(l, rule, Closed(l, rule.op));
    EndsLinked(l, rule);
    var n := |l.entries|;
    forall j | 0 <= j <= n
      ensures l'.memory[l'.entries[j]] == LinksAt(l'.entries, l'.ends, j)
              && (l'.ends[j].Some? ==> l'.ends[j].value < |l'.entries|) {
      if j < n {
        assert l.memory[l.entries[j]] == LinksAt(l.entries, l.ends, j);
      }
    }
  }

  // ------------------------------------------------------------------- the heap

  ghost function LinksOf(e: Entry): Links
    reads e
  {
    Links(e.next, e.blockEnd)
  }

  ghost predicate InHeap(m: Memory)
    reads m.Keys
  {
    forall e {:trigger LinksOf(e)} :: e in m ==> LinksOf(e) == m[e]
  }

  /** A rule is linked to the end of the list. */
  method Link(last: Entry?, rule: Entry, ifRule: Entry?, ghost l: List)
    requires Good(l) && InHeap(l.memory) && last == Final(l.entries)
    requires rule !in l.memory && rule.next == null && rule.blockEnd == null
    requires rule.op.EndIf? ==> Top(l.entries).Some?
    requires ifRule == if rule.op.EndIf? then l.entries[Top(l.entries).value] else null
    modifies l.memory.Keys
    ensures var l' := Linked(l, rule, Closed(l, rule.op)); Good(l') && InHeap(l'.memory)
  {
    ghost var l' := Linked(l, rule, Closed(l, rule.op));
    GoodLinked(l, rule);
    if ifRule != null {
      ifRule.blockEnd := rule;
    }
    if last != null {
      last.next := rule;
    }
    forall e | e in l'.memory ensures LinksOf(e) == l'.memory[e] {
      assert e in l.memory ==> old(LinksOf(e)) == l.memory[e];
    }
  }

  /** The open IFs, as entries: what rule_stack holds up to `nesting`. */
  ghost predicate Open(entries: seq<Entry>, stack: seq<Entry>, nesting: nat)
  {
    && nesting == |Stack(Ops(entries), |entries|)| && nesting <= |stack|
    && forall k :: 0 <= k < nesting ==> stack[k] == entries[Stack(Ops(entries), |entries|)[k]]
  }

  lemma StackAfter(entries: seq<Entry>, rule: Entry)
    ensures var s := Stack(Ops(entries), |entries|);
            Stack(Ops(entries + [rule]), |entries| + 1)
            == if rule.op.If? then s + [|entries|] else if rule.op.EndIf? && s != [] then s[..|s| - 1] else s
  {
    OpsAppend(entries, rule);
    StackSame(Ops(entries), [rule.op], |entries|);
  }

  lemma OpenAfter(entries: seq<Entry>, rule: Entry, stack: seq<Entry>, nesting: nat, stack': seq<Entry>, nesting': nat)
    requires Open(entries, stack, nesting) && (rule.op.EndIf? ==> nesting > 0)
    requires if rule.op.If? then nesting' == nesting + 1 && stack' == stack[..nesting] + [rule]
             else stack' == stack && nesting' == if rule.op.EndIf? then nesting - 1 else nesting
    ensures Open(entries + [rule], stack', nesting')
  {
    StackAfter(entries, rule);
    var s, s' := Stack(Ops(entries), |entries|), Stack(Ops(entries + [rule]), |entries| + 1);
    forall k | 0 <= k < nesting' ensures stack'[k] == (entries + [rule])[s'[k]] {
      if k < nesting {
        assert s'[k] == s[k];
      }
    }
  }

  lemma KeptStep(lines: seq<Line>, k: nat, ops: seq<Op>)
    requires k < |lines| && ops == Kept(lines[..k])
    ensures Kept(lines[..k + 1])
            == if lines[k].Malformed? || (lines[k].op.EndIf? && Stack(ops, |ops|) == []) then ops
               else ops + [lines[k].op]
  {
    assert lines[..k + 1][..k] == lines[..k];
  }

  /** One round of the loop in dict_cidr_open, for a rule that is kept. */
  method AddRule(rule: Entry, last: Entry?, stack: seq<Entry>, nesting: nat, ghost l: List)
      returns (stack': seq<Entry>, nesting': nat, ghost l': List)
    requires Good(l) && InHeap(l.memory) && last == Final(l.entries)
    requires rule !in l.memory && rule.next == null && rule.blockEnd == null
    requires Open(l.entries, stack, nesting) && (rule.op.EndIf? ==> nesting > 0)
    modifies l.memory.Keys
    ensures Good(l') && InHeap(l'.memory) && l'.entries == l.entries + [rule]
            && l'.memory.Keys == l.memory.Keys + {rule}
    ensures Open(l'.entries, stack', nesting')
  {
    var ifRule: Entry? := null;
    stack', nesting' := stack, nesting;
    if rule.op.If? {
      stack' := stack[..nesting] + [rule];
      nesting' := nesting + 1;
    } else if rule.op.EndIf? {
      nesting' := nesting - 1;
      ifRule := stack[nesting'];
    }
    OpenAfter(l.entries, rule, stack, nesting, stack', nesting');
    l' := Linked(l, rule, Closed(l, rule.op));
    Link(last, rule, ifRule, l);
  }

  /** The loop of dict_cidr_open. */
  method OpenTable(lines: seq<Line>) returns (head: Entry?, ghost l: List)
    ensures Good(l) && InHeap(l.memory) && fresh(l.memory.Keys) && head == First(l.entries)
            && Ops(l.entries) == Kept(lines)
  {
    l := List([], [], map[]);
    head := null;
    var last: Entry? := null;
    var stack: seq<Entry>, nesting := [], 0;
    var k := 0;
    while k < |lines|
      invariant 0 <= k <= |lines|
      invariant Good(l) && InHeap(l.memory) && fresh(l.memory.Keys)
      invariant head == First(l.entries) && last == Final(l.entries)
      invariant Ops(l.entries) == Kept(lines[..k])
      invariant Open(l.entries, stack, nesting)
    {
      KeptStep(lines, k, Ops(l.entries));
      var line := lines[k];
      k := k + 1;
      if line.Malformed? || (line.op.EndIf? && nesting == 0) {
        continue;
      }
      var rule := new Entry(line.op);
      OpsAppend(l.entries, rule);
      stack, nesting, l := AddRule(rule, last, stack, nesting, l);
      if last == null {
        head := rule;
      }
      last := rule;
    }
    assert lines[..k] == lines;
  }

  /** The test of one pattern, in cidr_match_execute. */
  method Test(op: Op, family: Family, addr: seq<byte>) returns (hit: bool)
    requires GoodOp(op) && !op.EndIf? && |addr| == ByteCount(family)
    ensures hit == OpMatches(op, family, addr)
  {
    hit := false;
    if op.pattern.family == family {
      hit := MatchEntry(op.pattern, addr);
    }
  }

  /** An entry, or the end of the list. */
  function EntryAt(entries: seq<Entry>, i: nat): Entry?
  {
    if i < |entries| then entries[i] else null
  }

  /** An IF that does not match: on to the rule after its ENDIF, or to the end if it has none. */
  method SkipIf(entry: Entry, ghost hit: Hits, ghost l: List, ghost at: nat) returns (next: Entry?, ghost at': nat)
    requires Good(l) && InHeap(l.memory) && at < |l.entries| && entry == l.entries[at] && entry.op.If?
    requires Walking(Ops(l.entries), at, hit) && !hit(at)
    ensures at < at' <= |l.entries| && next == EntryAt(l.entries, at')
    ensures if at' < |l.entries| then Walking(Ops(l.entries), at', hit) else NoneApplies(Ops(l.entries), 0, at', hit)
  {
    assert LinksOf(entry) == LinksAt(l.entries, l.ends, at);
    WalkSkip(Ops(l.entries), l.ends, at, hit);
    if entry.blockEnd == null {
      return null, |l.entries|;
    }
    at' := l.ends[at].value;
    assert LinksOf(entry.blockEnd) == LinksAt(l.entries, l.ends, at');
    next, at' := entry.blockEnd.next, at' + 1;
  }

  /** One round of the loop in cidr_match_execute. */
  method Round(entry: Entry, family: Family, addr: seq<byte>, ghost hit: Hits, ghost l: List, ghost at: nat)
      returns (found: bool, next: Entry?, ghost at': nat)
    requires Good(l) && InHeap(l.memory) && at < |l.entries| && entry == l.entries[at] && GoodOp(entry.op)
             && |addr| == ByteCount(family)
    requires Walking(Ops(l.entries), at, hit) && (hit(at) <==> OpMatches(entry.op, family, addr))
    ensures if found then Answers(Ops(l.entries), at, hit)
            else
              && at < at' <= |l.entries| && next == EntryAt(l.entries, at')
              && (if at' < |l.entries| then Walking(Ops(l.entries), at', hit)
                  else NoneApplies(Ops(l.entries), 0, at', hit))
  {
    var h := false;
    if !entry.op.EndIf? {
      h := Test(entry.op, family, addr);
    }
    if entry.op.Match? && h {
      return true, null, at;
    }
    found := false;
    if entry.op.If? && !h {
      next, at' := SkipIf(entry, hit, l, at);
    } else {
      assert LinksOf(entry) == LinksAt(l.entries, l.ends, at);
      WalkOn(Ops(l.entries), at, hit);
      next, at' := entry.next, at + 1;
    }
  }

  /** The loop of cidr_match_execute. */
  method Walk(head: Entry?, family: Family, addr: seq<byte>, ghost hit: Hits, ghost l: List)
      returns (r: Entry?, ghost at: nat)
    requires Good(l) && InHeap(l.memory) && head == First(l.entries) && GoodOps(Ops(l.entries))
             && |addr| == ByteCount(family)
    requires forall i {:trigger OpMatches(Ops(l.entries)[i], family, addr)} :: 0 <= i < |l.entries| ==>
               (hit(i) <==> OpMatches(Ops(l.entries)[i], family, addr))
    ensures if r == null then NoneApplies(Ops(l.entries), 0, |l.entries|, hit)
            else Answers(Ops(l.entries), at, hit) && r == l.entries[at]
  {
    ghost var ops, n := Ops(l.entries), |l.entries|;
    var entry := head;
    at := 0;
    while entry != null
      invariant at <= n && entry == EntryAt(l.entries, at)
      invariant if at < n then Walking(ops, at, hit) else NoneApplies(ops, 0, at, hit)
      decreases n - at
    {
      assert entry.op == ops[at] && GoodOp(ops[at]);
      assert hit(at) <==> OpMatches(ops[at], family, addr);
      var found, next;
      ghost var at';
      found, next, at' := Round(entry, family, addr, hit, l, at);
      if found {
        return entry, at;
      }
      entry, at := next, at';
    }
    r := null;
  }

  /** dict_cidr_lookup, through cidr_match_execute.  `addr` is what inet_pton() makes of the key. */
  method Lookup(head: Entry?, family: Family, addr: Option<seq<byte>>, ghost l: List)
      returns (value: Option<string>, ghost at: nat)
    requires Good(l) && InHeap(l.memory) && head == First(l.entries) && GoodOps(Ops(l.entries))
    requires addr.Some? ==> |addr.value| == ByteCount(family)
    ensures addr.None? ==> value == None
    ensures addr.Some? ==>
              var ops, hit := Ops(l.entries), HitsFor(Ops(l.entries), family, addr.value);
              if value.None? then NoneApplies(ops, 0, |ops|, hit)
              else Answers(ops, at, hit) && value == Some(ops[at].value)
  {
    at := 0;
    if addr.None? {
      return None, 0;
    }
    var entry;
    entry, at := Walk(head, family, addr.value, HitsFor(Ops(l.entries), family, addr.value), l);
    value := if entry == null then None else Some(entry.op.value);
  }
}
