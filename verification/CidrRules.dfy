/**
 The rules of a CIDR table (util/dict_cidr.c) as a list, with nested IF ... ENDIF blocks:
 which rules are kept, which IFs enclose a rule, and which rule answers a query.
 */
module CidrRules {
  import opened Wrappers
  import opened CidrMatch

  datatype Op = Match(pattern: Pattern, value: string) | If(pattern: Pattern) | EndIf

  /** A line of the table, after its pattern is parsed. */
  datatype Line = Malformed | Rule(op: Op)

  ghost predicate GoodOp(op: Op)
  {
    op.EndIf? || Compiled(op.pattern)
  }

  ghost predicate GoodOps(ops: seq<Op>)
  {
    forall i {:trigger GoodOp(ops[i])} :: 0 <= i < |ops| ==> GoodOp(ops[i])
  }

  // ------------------------------------------------------------------ nesting

  /** The IFs that are open before rule i, outermost first. */
  function Stack(ops: seq<Op>, i: nat): (s: seq<nat>)
    requires i <= |ops|
    ensures forall k :: 0 <= k < |s| ==> s[k] < i && ops[s[k]].If?
    ensures forall k, l :: 0 <= k < l < |s| ==> s[k] < s[l]
  {
    if i == 0 then []
    else
      var s := Stack(ops, i - 1);
      match ops[i - 1]
      case Match(_, _) => s
      case If(_) => s + [i - 1]
      case EndIf => if s == [] then [] else s[..|s| - 1]
  }

  predicate HasIf(ops: seq<Op>, i: nat)
    requires i < |ops|
  {
    ops[i].EndIf? ==> Stack(ops, i) != []
  }

  /** Every ENDIF has an IF. */
  predicate Nested(ops: seq<Op>)
  {
    forall i {:trigger HasIf(ops, i)} :: 0 <= i < |ops| ==> HasIf(ops, i)
  }

  /** The rules that dict_cidr_open() keeps: not the malformed ones, and not an ENDIF outside any IF. */
  function Kept(lines: seq<Line>): seq<Op>
  {
    if lines == [] then []
    else
      var ops, line := Kept(lines[..|lines| - 1]), lines[|lines| - 1];
      if line.Malformed? || (line.op.EndIf? && Stack(ops, |ops|) == []) then ops else ops + [line.op]
  }

  lemma {:induction false} StackSame(ops: seq<Op>, more: seq<Op>, i: nat)
    requires i <= |ops|
    ensures Stack(ops + more, i) == Stack(ops, i)
  {
    if i > 0 {
      StackSame(ops, more, i - 1);
      assert (ops + more)[i - 1] == ops[i - 1];
    }
  }

  lemma {:induction false} KeptNested(lines: seq<Line>)
    ensures Nested(Kept(lines))
  {
    if lines != [] {
      var ops, line := Kept(lines[..|lines| - 1]), lines[|lines| - 1];
      KeptNested(lines[..|lines| - 1]);
      var all := Kept(lines);
      forall i | 0 <= i < |all| ensures HasIf(all, i) {
        if |all| > |ops| { StackSame(ops, [line.op], i); }
        assert i < |ops| ==> HasIf(ops, i);
      }
    }
  }

  /** A table whose lines parsed to compiled patterns has only such rules. */
  lemma {:induction false} KeptGood(lines: seq<Line>)
    requires forall i :: 0 <= i < |lines| && lines[i].Rule? ==> GoodOp(lines[i].op)
    ensures GoodOps(Kept(lines))
  {
    if lines != [] {
      KeptGood(lines[..|lines| - 1]);
      var ops, all := Kept(lines[..|lines| - 1]), Kept(lines);
      forall i | 0 <= i < |all| ensures GoodOp(all[i]) {
        if i < |ops| {
          assert GoodOp(ops[i]);
        }
      }
    }
  }

  /** An IF that is open saw the stack below it. */
  lemma {:induction false} StackBelow(ops: seq<Op>, n: nat, k: nat)
    requires n <= |ops| && k < |Stack(ops, n)|
    ensures Stack(ops, Stack(ops, n)[k]) == Stack(ops, n)[..k]
    decreases n
  {
    var s, t := Stack(ops, n), Stack(ops, n - 1);
    if k < |t| {
      StackBelow(ops, n - 1, k);
      assert s[..k] == t[..k] && s[k] == t[k];
    } else {
      assert s == t + [n - 1] && s[..k] == t;
    }
  }

  /** An IF stays open until it is closed. */
  lemma {:induction false} OpenSince(ops: seq<Op>, n: nat, i: nat, j: nat)
    requires i < j <= n <= |ops| && i in Stack(ops, n)
    ensures i in Stack(ops, j)
    decreases n
  {
    if j < n {
      OpenSince(ops, n - 1, i, j);
    }
  }

  // -------------------------------------------------------------- block ends

  /** `e` is the ENDIF that closes the IF at `i`. */
  ghost predicate Closes(ops: seq<Op>, i: nat, e: nat)
    requires i < |ops|
  {
    i < e < |ops| && ops[e].EndIf? && Stack(ops, e) == Stack(ops, i) + [i]
  }

  /** The block_end link of rule i, as a position: none for an IF that is never closed. */
  ghost predicate RightEnd(ops: seq<Op>, ends: seq<Option<nat>>, i: nat)
    requires i < |ops| == |ends|
  {
    ops[i].If? ==> if ends[i].None? then i in Stack(ops, |ops|) else Closes(ops, i, ends[i].value)
  }

  ghost predicate RightEnds(ops: seq<Op>, ends: seq<Option<nat>>)
  {
    |ends| == |ops| && forall i {:trigger RightEnd(ops, ends, i)} :: 0 <= i < |ops| ==> RightEnd(ops, ends, i)
  }

  lemma ClosesSame(ops: seq<Op>, op: Op, i: nat, e: nat)
    requires i < |ops| && Closes(ops, i, e)
    ensures Closes(ops + [op], i, e)
  {
    StackSame(ops, [op], i);
    StackSame(ops, [op], e);
  }

  lemma StackGrows(ops: seq<Op>, op: Op)
    requires !op.EndIf?
    ensures Stack(ops + [op], |ops| + 1) == if op.If? then Stack(ops, |ops|) + [|ops|] else Stack(ops, |ops|)
  {
    StackSame(ops, [op], |ops|);
  }

  /** Adding a rule that is not ENDIF. */
  lemma EndsAppend(ops: seq<Op>, ends: seq<Option<nat>>, op: Op)
    requires RightEnds(ops, ends) && !op.EndIf?
    ensures RightEnds(ops + [op], ends + [None])
  {
    var s, ops', ends' := Stack(ops, |ops|), ops + [op], ends + [None];
    StackGrows(ops, op);
    var s' := Stack(ops', |ops'|);
    forall i | 0 <= i < |ops'| ensures RightEnd(ops', ends', i) {
      if i == |ops| {
        assert op.If? ==> s'[|s|] == i;
      } else {
        assert ops'[i] == ops[i] && ends'[i] == ends[i] && RightEnd(ops, ends, i);
        if !ops[i].If? {
        } else if ends[i].Some? {
          ClosesSame(ops, op, i, ends[i].value);
        } else {
          var k :| 0 <= k < |s| && s[k] == i;
          assert s'[k] == i;
        }
      }
    }
  }

  lemma StackShrinks(ops: seq<Op>)
    requires Stack(ops, |ops|) != []
    ensures var s := Stack(ops, |ops|); Stack(ops + [EndIf], |ops| + 1) == s[..|s| - 1]
  {
    StackSame(ops, [EndIf], |ops|);
  }

  lemma TopCloses(ops: seq<Op>)
    requires Stack(ops, |ops|) != []
    ensures var s := Stack(ops, |ops|);
            Closes(ops + [EndIf], s[|s| - 1], |ops|) && Stack(ops + [EndIf], |ops| + 1) == s[..|s| - 1]
  {
    var s := Stack(ops, |ops|);
    var top := s[|s| - 1];
    StackShrinks(ops);
    StackSame(ops, [EndIf], |ops|);
    StackSame(ops, [EndIf], top);
    assert Stack(ops, top) == s[..|s| - 1] by { StackBelow(ops, |ops|, |s| - 1); }
    assert Stack(ops + [EndIf], |ops|) == Stack(ops + [EndIf], top) + [top];
  }

  /** The other IFs stay as they are when ENDIF is added. */
  lemma OtherEnd(ops: seq<Op>, ends: seq<Option<nat>>, i: nat)
    requires |ends| == |ops| && i < |ops| && ops[i].If? && RightEnd(ops, ends, i) && Stack(ops, |ops|) != []
    requires i != Stack(ops, |ops|)[|Stack(ops, |ops|)| - 1]
    ensures if ends[i].None? then i in Stack(ops + [EndIf], |ops| + 1) else Closes(ops + [EndIf], i, ends[i].value)
  {
    var s := Stack(ops, |ops|);
    TopCloses(ops);
    if ends[i].Some? {
      ClosesSame(ops, EndIf, i, ends[i].value);
    } else {
      var k :| 0 <= k < |s| && s[k] == i;
      assert s[..|s| - 1][k] == i;
    }
  }

  /** The block ends after ENDIF is added: it closes the IF on top of the stack. */
  ghost function WithEnd(ops: seq<Op>, ends: seq<Option<nat>>): seq<Option<nat>>
    requires |ends| == |ops| && Stack(ops, |ops|) != []
  {
    var s := Stack(ops, |ops|);
    ends[s[|s| - 1] := Some(|ops|)] + [None]
  }

  lemma EndAt(ops: seq<Op>, ends: seq<Option<nat>>, i: nat)
    requires |ends| == |ops| && Stack(ops, |ops|) != [] && i <= |ops| && (i < |ops| ==> RightEnd(ops, ends, i))
    ensures RightEnd(ops + [EndIf], WithEnd(ops, ends), i)
  {
    var s, ops', ends' := Stack(ops, |ops|), ops + [EndIf], WithEnd(ops, ends);
    if i == s[|s| - 1] {
      TopCloses(ops);
      assert ends'[i] == Some(|ops|);
    } else if i < |ops| && ops[i].If? {
      OtherEnd(ops, ends, i);
      assert ends'[i] == ends[i] && |ops'| == |ops| + 1;
    } else {
      assert !ops'[i].If?;
    }
  }

  lemma EndsClose(ops: seq<Op>, ends: seq<Option<nat>>)
    requires RightEnds(ops, ends) && Stack(ops, |ops|) != []
    ensures RightEnds(ops + [EndIf], WithEnd(ops, ends))
  {
    forall i | 0 <= i <= |ops| ensures RightEnd(ops + [EndIf], WithEnd(ops, ends), i) {
      assert i < |ops| ==> RightEnd(ops, ends, i);
      EndAt(ops, ends, i);
    }
  }

  // ------------------------------------------------------------------ answers

  /** Whether the pattern of a rule matches the address that is looked up. */
  type Hits = nat -> bool

  /** All the IFs that enclose rule i match. */
  ghost predicate Active(ops: seq<Op>, i: nat, hit: Hits)
    requires i <= |ops|
  {
    forall k :: k in Stack(ops, i) ==> hit(k)
  }

  /** Rule i is a match rule that applies. */
  ghost predicate Applies(ops: seq<Op>, i: nat, hit: Hits)
    requires i < |ops|
  {
    ops[i].Match? && Active(ops, i, hit) && hit(i)
  }

  /** No rule from `a` up to `b` applies. */
  ghost predicate NoneApplies(ops: seq<Op>, a: nat, b: nat, hit: Hits)
    requires b <= |ops|
  {
    forall i :: a <= i < b ==> !Applies(ops, i, hit)
  }

  /** Nothing applies inside a block whose IF does not match. */
  lemma BlockSkipped(ops: seq<Op>, i: nat, top: nat, hit: Hits)
    requires i < top <= |ops| && i in Stack(ops, top) && ops[i].If? && !hit(i)
    ensures NoneApplies(ops, i, top, hit)
  {
    forall j | i <= j < top ensures !Applies(ops, j, hit) {
      if j > i {
        OpenSince(ops, top, i, j);
      }
    }
  }

  lemma AfterClose(ops: seq<Op>, i: nat, e: nat)
    requires i < |ops| && Closes(ops, i, e)
    ensures i in Stack(ops, e) && Stack(ops, e + 1) == Stack(ops, i)
  {
    var s := Stack(ops, e);
    assert s[|s| - 1] == i && s[..|s| - 1] == Stack(ops, i);
  }

  /** After an IF that does not match, nothing up to and including its ENDIF applies, and the rule after that is
      enclosed by the same IFs. */
  lemma SkipBlock(ops: seq<Op>, ends: seq<Option<nat>>, i: nat, hit: Hits)
    requires RightEnds(ops, ends) && i < |ops| && ops[i].If? && !hit(i)
    ensures var e := if ends[i].None? then |ops| else ends[i].value + 1;
            && i < e <= |ops| && NoneApplies(ops, i, e, hit)
            && (ends[i].Some? ==> Stack(ops, e) == Stack(ops, i))
  {
    assert RightEnd(ops, ends, i);
    if ends[i].None? {
      BlockSkipped(ops, i, |ops|, hit);
    } else {
      SkipClosed(ops, i, ends[i].value, hit);
    }
  }

  lemma SkipClosed(ops: seq<Op>, i: nat, e: nat, hit: Hits)
    requires i < |ops| && ops[i].If? && !hit(i) && Closes(ops, i, e)
    ensures i < e < |ops| && NoneApplies(ops, i, e + 1, hit) && Stack(ops, e + 1) == Stack(ops, i)
  {
    AfterClose(ops, i, e);
    BlockSkipped(ops, i, e, hit);
    NoneAtEnd(ops, i, e, hit);
  }

  lemma NoneAtEnd(ops: seq<Op>, i: nat, e: nat, hit: Hits)
    requires e < |ops| && ops[e].EndIf? && NoneApplies(ops, i, e, hit)
    ensures NoneApplies(ops, i, e + 1, hit)
  {
    forall j | i <= j < e + 1 ensures !Applies(ops, j, hit) {
      if j == e { assert !ops[j].Match?; }
    }
  }

  /** A walk over the rules that has found nothing before rule i, which is enclosed by IFs that match. */
  ghost predicate Walking(ops: seq<Op>, i: nat, hit: Hits)
  {
    i <= |ops| && NoneApplies(ops, 0, i, hit) && Active(ops, i, hit)
  }

  lemma WalkOn(ops: seq<Op>, i: nat, hit: Hits)
    requires Walking(ops, i, hit) && i < |ops| && (if ops[i].If? then hit(i) else ops[i].Match? ==> !hit(i))
    ensures Walking(ops, i + 1, hit)
  {
  }

  lemma WalkSkip(ops: seq<Op>, ends: seq<Option<nat>>, i: nat, hit: Hits)
    requires RightEnds(ops, ends) && Walking(ops, i, hit) && i < |ops| && ops[i].If? && !hit(i)
    ensures if ends[i].None? then NoneApplies(ops, 0, |ops|, hit)
            else i < ends[i].value < |ops| && Walking(ops, ends[i].value + 1, hit)
  {
    SkipBlock(ops, ends, i, hit);
  }

  /** The pattern of a rule matches an address. */
  ghost predicate OpMatches(op: Op, family: Family, addr: seq<byte>)
    requires GoodOp(op) && |addr| == ByteCount(family)
  {
    !op.EndIf? && Matches(op.pattern, family, addr)
  }

  ghost function HitsFor(ops: seq<Op>, family: Family, addr: seq<byte>): Hits
    requires GoodOps(ops) && |addr| == ByteCount(family)
  {
    (i: nat) => i < |ops| && OpMatches(ops[i], family, addr)
  }

  /** The rule that answers a query: the first match rule that matches and whose enclosing IFs all match. */
  ghost predicate Answers(ops: seq<Op>, at: nat, hit: Hits)
  {
    at < |ops| && Applies(ops, at, hit) && NoneApplies(ops, 0, at, hit)
  }

  // --------------------------------------------------- what nesting and keeping mean

  /** The IFs less the ENDIFs from rule a up to rule b. */
  function Balance(ops: seq<Op>, a: nat, b: nat): int
    requires b <= |ops|
  {
    if b <= a then 0
    else Balance(ops, a, b - 1) + (if ops[b - 1].If? then 1 else if ops[b - 1].EndIf? then -1 else 0)
  }

  lemma {:induction false} StackHeight(ops: seq<Op>, n: nat, k: nat)
    requires Nested(ops) && k < n <= |ops| && k in Stack(ops, n)
    ensures |Stack(ops, n)| == |Stack(ops, k)| + 1 + Balance(ops, k + 1, n)
    decreases n
  {
    assert HasIf(ops, n - 1);
    if k < n - 1 { StackHeight(ops, n - 1, k); }
  }

  /** The stack below an open IF is the stack before it. */
  lemma StackPlace(ops: seq<Op>, n: nat, k: nat)
    requires n <= |ops| && k in Stack(ops, n)
    ensures |Stack(ops, k)| < |Stack(ops, n)| && Stack(ops, n)[|Stack(ops, k)|] == k
  {
    var p :| 0 <= p < |Stack(ops, n)| && Stack(ops, n)[p] == k;
    StackBelow(ops, n, p);
  }

  /** From rule k up to rule j no ENDIF is left over. */
  predicate NoneLeftOver(ops: seq<Op>, k: nat, j: nat)
    requires j <= |ops|
  {
    Balance(ops, k + 1, j) >= 0
  }

  /** Rule n - 1 closes the IF at k exactly if that is the innermost open one. */
  lemma PopsWhen(ops: seq<Op>, n: nat, k: nat)
    requires Nested(ops) && k < n - 1 < |ops| && k in Stack(ops, n - 1)
    ensures k in Stack(ops, n) <==> NoneLeftOver(ops, k, n)
  {
    var s, p := Stack(ops, n - 1), |Stack(ops, k)|;
    assert HasIf(ops, n - 1);
    StackHeight(ops, n - 1, k);
    StackPlace(ops, n - 1, k);
    if ops[n - 1].EndIf? && p < |s| - 1 {
      assert s[..|s| - 1][p] == k;
    }
  }

  lemma NotReopened(ops: seq<Op>, n: nat, k: nat)
    requires k < n - 1 < |ops| && k !in Stack(ops, n - 1)
    ensures k !in Stack(ops, n)
  {
  }

  /** The IF at k is not closed before rule n, by counting. */
  predicate StillOpen(ops: seq<Op>, k: nat, n: nat)
    requires n <= |ops|
  {
    forall j :: k < j <= n ==> NoneLeftOver(ops, k, j)
  }

  lemma StillOpenMore(ops: seq<Op>, k: nat, n: nat)
    requires k < n <= |ops|
    ensures StillOpen(ops, k, n) <==> StillOpen(ops, k, n - 1) && NoneLeftOver(ops, k, n)
  {
  }

  lemma EnclosesNow(ops: seq<Op>, k: nat)
    requires k < |ops|
    ensures k in Stack(ops, k + 1) <==> ops[k].If?
    ensures StillOpen(ops, k, k + 1)
  {
    assert Balance(ops, k + 1, k + 1) == 0;
  }

  /** An IF encloses a later rule exactly if up to there no ENDIF is left over for it. */
  lemma {:induction false} EnclosesExactly(ops: seq<Op>, n: nat, k: nat)
    requires Nested(ops) && k < n <= |ops|
    ensures k in Stack(ops, n) <==> ops[k].If? && StillOpen(ops, k, n)
    decreases n
  {
    if n == k + 1 {
      EnclosesNow(ops, k);
    } else {
      EnclosesExactly(ops, n - 1, k);
      StillOpenMore(ops, k, n);
      if k in Stack(ops, n - 1) { PopsWhen(ops, n, k); } else { NotReopened(ops, n, k); }
    }
  }

  /** The match rules and IFs of a list, in order. */
  function NoEnds(ops: seq<Op>): seq<Op>
  {
    if ops == [] then [] else NoEnds(ops[..|ops| - 1]) + if ops[|ops| - 1].EndIf? then [] else [ops[|ops| - 1]]
  }

  /** The lines that parse. */
  function Parsed(lines: seq<Line>): seq<Op>
  {
    if lines == [] then []
    else Parsed(lines[..|lines| - 1]) + if lines[|lines| - 1].Malformed? then [] else [lines[|lines| - 1].op]
  }

  /** The blocks that are open after the lines, if an ENDIF outside any block does not count. */
  function OpenBlocks(lines: seq<Line>): nat
  {
    if lines == [] then 0
    else
      var n, line := OpenBlocks(lines[..|lines| - 1]), lines[|lines| - 1];
      if line.Malformed? || line.op.Match? then n else if line.op.If? then n + 1 else if n > 0 then n - 1 else 0
  }

  lemma {:induction false} KeptOpen(lines: seq<Line>)
    ensures |Stack(Kept(lines), |Kept(lines)|)| == OpenBlocks(lines)
  {
    if lines != [] {
      var ops, line := Kept(lines[..|lines| - 1]), lines[|lines| - 1];
      KeptOpen(lines[..|lines| - 1]);
      if line.Rule? { StackSame(ops, [line.op], |ops|); }
    }
  }

  /** Every match rule and every IF that parses is kept, in order. */
  lemma {:induction false} KeptRules(lines: seq<Line>)
    ensures NoEnds(Kept(lines)) == NoEnds(Parsed(lines))
  {
    if lines != [] {
      var front, line := lines[..|lines| - 1], lines[|lines| - 1];
      KeptRules(front);
      if line.Rule? {
        NoEndsMore(Kept(front), line.op);
        NoEndsMore(Parsed(front), line.op);
      } else {
        assert Parsed(lines) == Parsed(front);
      }
    }
  }

  /** An ENDIF is kept exactly if a block is open. */
  lemma KeptEnd(lines: seq<Line>)
    ensures Kept(lines + [Rule(EndIf)]) == Kept(lines) + if OpenBlocks(lines) > 0 then [EndIf] else []
  {
    assert (lines + [Rule(EndIf)])[..|lines|] == lines;
    KeptOpen(lines);
  }

  lemma NoEndsMore(ops: seq<Op>, op: Op)
    ensures NoEnds(ops + [op]) == NoEnds(ops) + if op.EndIf? then [] else [op]
  {
    assert (ops + [op])[..|ops|] == ops;
  }

  /** A table without malformed lines in which every ENDIF has an IF is kept as it is. */
  lemma {:induction false} KeptWhole(lines: seq<Line>)
    requires forall i :: 0 <= i < |lines| ==> lines[i].Rule?
    requires forall i :: 0 <= i < |lines| && lines[i].op.EndIf? ==> OpenBlocks(lines[..i]) > 0
    ensures Kept(lines) == Parsed(lines)
  {
    if lines != [] {
      var front := lines[..|lines| - 1];
      assert forall i :: 0 <= i < |front| ==> front[i] == lines[i] && front[..i] == lines[..i];
      KeptWhole(front);
      KeptOpen(front);
    }
  }
}
