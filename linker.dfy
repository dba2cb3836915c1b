/** link_jumps of src/compiler.cpp: pairing every `[` (JZ) with its `]` (JNZ)
    by a stack scan and writing each one's partner index into its argument.

    The pairing is specified without the stack, by bracket depth: a JZ at `a`
    and a JNZ at `b` are partners when the depth after `b` is back to the
    depth before `a` and is above it everywhere in between. */
module Linker {
  import opened Bytecode

  predicate IsJump(op: Op) { op == JZ || op == JNZ }

  /** How an instruction changes the bracket depth. */
  function Delta(ins: Instr): int {
    if ins.op == JZ then 1 else if ins.op == JNZ then -1 else 0
  }

  /** The bracket depth before instruction `m`: opens minus closes in `c[..m]`. */
  function Depth(c: seq<Instr>, m: nat): int
    requires m <= |c|
    decreases m
  {
    if m == 0 then 0 else Depth(c, m - 1) + Delta(c[m - 1])
  }

  /** The JZ at `a` is still open just before instruction `i`. */
  predicate Unclosed(c: seq<Instr>, a: nat, i: nat)
    requires a < |c| && i <= |c|
  {
    c[a].op == JZ && forall m :: a < m <= i ==> Depth(c, m) > Depth(c, a)
  }

  /** The JZ at `a` and the JNZ at `b` are partners. */
  predicate Matched(c: seq<Instr>, a: int, b: int) {
    && 0 <= a < b < |c|
    && c[a].op == JZ && c[b].op == JNZ
    && Depth(c, b + 1) == Depth(c, a)
    && Unclosed(c, a, b)
  }

  /** Every pair that closes before `i` has equal labels (both empty, or the same name). */
  predicate LabelsAgreeBefore(c: seq<Instr>, i: nat) {
    forall a, b :: 0 <= a < b < i && Matched(c, a, b) ==> c[a].tag == c[b].tag
  }

  /** No close without an open and no label mismatch before `j`. */
  predicate CleanBefore(c: seq<Instr>, j: nat)
    requires j <= |c|
  {
    (forall m :: 0 <= m <= j ==> Depth(c, m) >= 0) && LabelsAgreeBefore(c, j)
  }

  /** Brackets balance and partners carry the same label. */
  predicate Linkable(c: seq<Instr>) {
    CleanBefore(c, |c|) && Depth(c, |c|) == 0
  }

  /** The first fault is a `]` at `j` with no open `[`. */
  predicate UnmatchedCloseAt(c: seq<Instr>, j: nat) {
    j < |c| && c[j].op == JNZ && Depth(c, j) == 0 && CleanBefore(c, j)
  }

  /** The first fault is the pair `a`, `b` with different labels. */
  predicate MismatchAt(c: seq<Instr>, a: nat, b: nat) {
    Matched(c, a, b) && c[a].tag != c[b].tag && CleanBefore(c, b)
  }

  /** No fault during the scan, but some `[` is never closed. */
  predicate UnclosedAtEnd(c: seq<Instr>) {
    CleanBefore(c, |c|) && Depth(c, |c|) > 0
  }

  /** `c` is `c0` with every jump's argument set to its partner's index and
      nothing else changed. */
  predicate IsLinkOf(c0: seq<Instr>, c: seq<Instr>) {
    && |c| == |c0|
    && (forall x :: 0 <= x < |c| ==> c[x].op == c0[x].op && c[x].tag == c0[x].tag)
    && (forall x :: 0 <= x < |c| && !IsJump(c0[x].op) ==> c[x].arg == c0[x].arg)
    && (forall x :: 0 <= x < |c| && c0[x].op == JZ ==> Matched(c0, x, c[x].arg))
    && (forall x :: 0 <= x < |c| && c0[x].op == JNZ ==> Matched(c0, c[x].arg, x))
  }

  /** A frame of the scan's stack: where a `[` stands and its label. */
  datatype Frame = Frame(pc: nat, tag: string)

  /** Why linking stops: a `]` at `at` with nothing to close, partners at
      `open` and `close` with different labels, or a `[` left open. */
  datatype LinkFault =
    | UnmatchedClose(at: nat)
    | MismatchedLabels(open: nat, close: nat)
    | UnmatchedOpen

  /** `st` holds exactly the `[`s open before instruction `i`, bottom first. */
  predicate StackOk(c0: seq<Instr>, st: seq<Frame>, i: nat)
    requires i <= |c0|
  {
    && |st| == Depth(c0, i)
    && forall k :: 0 <= k < |st| ==>
         st[k].pc < i && Depth(c0, st[k].pc) == k && st[k].tag == c0[st[k].pc].tag && Unclosed(c0, st[k].pc, i)
  }

  /** `c` is `c0` with at most the jump arguments changed. */
  predicate SameShape(c0: seq<Instr>, c: seq<Instr>) {
    && |c| == |c0|
    && (forall x :: 0 <= x < |c| ==> c[x].op == c0[x].op && c[x].tag == c0[x].tag)
    && (forall x :: 0 <= x < |c| && !IsJump(c0[x].op) ==> c[x].arg == c0[x].arg)
  }

  /** Every `]` before `i` points at its partner; every `[` before `i` is
      still open or points at its partner, which is before `i` too. */
  predicate LinkedBefore(c0: seq<Instr>, c: seq<Instr>, i: nat)
    requires i <= |c0| == |c|
  {
    && (forall x :: 0 <= x < i && c0[x].op == JNZ ==> Matched(c0, c[x].arg, x))
    && (forall x :: 0 <= x < i && c0[x].op == JZ ==> Unclosed(c0, x, i) || (c[x].arg < i && Matched(c0, x, c[x].arg)))
  }

  /** The scan's state before instruction `i`. */
  predicate LinkState(c0: seq<Instr>, c: seq<Instr>, st: seq<Frame>, i: nat) {
    && i <= |c0|
    && CleanBefore(c0, i)
    && StackOk(c0, st, i)
    && SameShape(c0, c)
    && LinkedBefore(c0, c, i)
  }

  // Partners are unique.

  lemma MatchedUniqueClose(c: seq<Instr>, a1: int, a2: int, b: int)
    requires Matched(c, a1, b) && Matched(c, a2, b)
    ensures a1 == a2
  {
  }

  lemma MatchedUniqueOpen(c: seq<Instr>, a: int, b1: int, b2: int)
    requires Matched(c, a, b1) && Matched(c, a, b2)
    ensures b1 == b2
  {
  }

  /** There is only one way to link a program. */
  lemma LinkUnique(c0: seq<Instr>, c1: seq<Instr>, c2: seq<Instr>)
    requires IsLinkOf(c0, c1) && IsLinkOf(c0, c2)
    ensures c1 == c2
  {
    forall x | 0 <= x < |c1|
      ensures c1[x] == c2[x]
    {
      if c0[x].op == JZ {
        MatchedUniqueOpen(c0, x, c1[x].arg, c2[x].arg);
      } else if c0[x].op == JNZ {
        MatchedUniqueClose(c0, c1[x].arg, c2[x].arg, x);
      }
    }
  }

  /** In a linked program every jump lands inside the program, on its
      partner, which points back. */
  lemma LinkedJumps(c0: seq<Instr>, c: seq<Instr>, x: nat)
    requires IsLinkOf(c0, c) && x < |c| && IsJump(c[x].op)
    ensures 0 <= c[x].arg < |c|
    ensures c[x].op == JZ ==> x < c[x].arg && c[c[x].arg].op == JNZ && c[c[x].arg].arg == x
    ensures c[x].op == JNZ ==> c[x].arg < x && c[c[x].arg].op == JZ && c[c[x].arg].arg == x
    ensures c[c[x].arg].tag == c[x].tag || !Linkable(c0)
  {
    var y := c[x].arg;
    if c[x].op == JZ {
      assert Matched(c0, x, y);
      MatchedUniqueClose(c0, x, c[y].arg, y);
      assert Linkable(c0) ==> c0[x].tag == c0[y].tag;
    } else {
      assert Matched(c0, y, x);
      MatchedUniqueOpen(c0, y, c[y].arg, x);
      assert Linkable(c0) ==> c0[y].tag == c0[x].tag;
    }
  }

  // The outcomes exclude each other.

  lemma UnmatchedCloseNotLinkable(c: seq<Instr>, j: nat)
    requires UnmatchedCloseAt(c, j)
    ensures !Linkable(c) && !UnclosedAtEnd(c)
  {
    assert Depth(c, j + 1) == -1;
  }

  lemma MismatchNotLinkable(c: seq<Instr>, a: nat, b: nat)
    requires MismatchAt(c, a, b)
    ensures !Linkable(c) && !UnclosedAtEnd(c)
  {
    assert !LabelsAgreeBefore(c, |c|) by {
      assert 0 <= a < b < |c| && Matched(c, a, b);
    }
  }

  /** The first fault is well defined: a later position cannot also be the first. */
  lemma FirstUnmatchedClose(c: seq<Instr>, j1: nat, j2: nat)
    requires UnmatchedCloseAt(c, j1) && UnmatchedCloseAt(c, j2)
    ensures j1 == j2
  {
    assert Depth(c, j1 + 1) == -1 && Depth(c, j2 + 1) == -1;
  }

  /** A first unmatched `]` and a first label mismatch cannot both exist. */
  lemma UnmatchedCloseExcludesMismatch(c: seq<Instr>, j: nat, a: nat, b: nat)
    requires UnmatchedCloseAt(c, j)
    ensures !MismatchAt(c, a, b)
  {
    assert Depth(c, j + 1) == -1;
  }

  /** Two first label mismatches are the same pair. */
  lemma FirstMismatch(c: seq<Instr>, a1: nat, b1: nat, a2: nat, b2: nat)
    requires MismatchAt(c, a1, b1) && MismatchAt(c, a2, b2)
    ensures a1 == a2 && b1 == b2
  {
    assert Matched(c, a1, b1) && Matched(c, a2, b2);
    assert b1 == b2;
    MatchedUniqueClose(c, a1, a2, b1);
  }

  /** `f` is the fault the scan stops at. */
  predicate IsFirstFault(c: seq<Instr>, f: LinkFault) {
    match f
    case UnmatchedClose(j) => UnmatchedCloseAt(c, j)
    case MismatchedLabels(a, b) => MismatchAt(c, a, b)
    case UnmatchedOpen => UnclosedAtEnd(c)
  }

  /** A program has at most one first fault. */
  lemma FirstFaultUnique(c: seq<Instr>, f: LinkFault, g: LinkFault)
    requires IsFirstFault(c, f) && IsFirstFault(c, g)
    ensures f == g
  {
    match f {
      case UnmatchedClose(j) =>
        UnmatchedCloseNotLinkable(c, j);
        match g {
          case UnmatchedClose(j2) => FirstUnmatchedClose(c, j, j2);
          case MismatchedLabels(a, b) => UnmatchedCloseExcludesMismatch(c, j, a, b);
          case UnmatchedOpen =>
        }
      case MismatchedLabels(a, b) =>
        MismatchNotLinkable(c, a, b);
        match g {
          case UnmatchedClose(j) => UnmatchedCloseExcludesMismatch(c, j, a, b);
          case MismatchedLabels(a2, b2) => FirstMismatch(c, a, b, a2, b2);
          case UnmatchedOpen =>
        }
      case UnmatchedOpen =>
        match g {
          case UnmatchedClose(j) => UnmatchedCloseNotLinkable(c, j);
          case MismatchedLabels(a, b) => MismatchNotLinkable(c, a, b);
          case UnmatchedOpen =>
        }
    }
  }

  /** A scan that is clean before `i` is clean after it, or stops there. */
  lemma CleanOrFault(c: seq<Instr>, i: nat)
    requires i < |c| && CleanBefore(c, i)
    ensures CleanBefore(c, i + 1) || UnmatchedCloseAt(c, i) || exists a: nat :: MismatchAt(c, a, i)
  {
    if !CleanBefore(c, i + 1) {
      assert Depth(c, i) >= 0;
      if Depth(c, i + 1) < 0 {
        assert Depth(c, i + 1) == Depth(c, i) + Delta(c[i]);
        assert UnmatchedCloseAt(c, i);
      } else {
        assert forall m :: 0 <= m <= i + 1 ==> Depth(c, m) >= 0 by {
          forall m | 0 <= m <= i + 1 ensures Depth(c, m) >= 0 {
            if m <= i { assert Depth(c, m) >= 0; }
          }
        }
        assert !LabelsAgreeBefore(c, i + 1);
        var a, b :| 0 <= a < b < i + 1 && Matched(c, a, b) && c[a].tag != c[b].tag;
        assert b == i;
        assert MismatchAt(c, a, i);
      }
    }
  }

  lemma {:induction false} FaultsFrom(c: seq<Instr>, i: nat)
    requires i <= |c| && CleanBefore(c, i)
    ensures Linkable(c) || exists f :: IsFirstFault(c, f)
    decreases |c| - i
  {
    if i == |c| {
      if !Linkable(c) {
        assert IsFirstFault(c, UnmatchedOpen);
      }
    } else {
      CleanOrFault(c, i);
      if CleanBefore(c, i + 1) {
        FaultsFrom(c, i + 1);
      } else if UnmatchedCloseAt(c, i) {
        assert IsFirstFault(c, UnmatchedClose(i));
      } else {
        var a: nat :| MismatchAt(c, a, i);
        assert IsFirstFault(c, MismatchedLabels(a, i));
      }
    }
  }

  /** The three faults are all the ways linking can fail: a program is
      linkable exactly when it has no first fault. */
  lemma FaultsExhaustive(c: seq<Instr>)
    ensures Linkable(c) <==> !exists f :: IsFirstFault(c, f)
  {
    FaultsFrom(c, 0);
    if Linkable(c) {
      forall f | IsFirstFault(c, f) ensures false {
        match f
        case UnmatchedClose(j) => UnmatchedCloseNotLinkable(c, j);
        case MismatchedLabels(a, b) => MismatchNotLinkable(c, a, b);
        case UnmatchedOpen =>
      }
    }
  }

  // One step of the scan.

  lemma LinkStart(c0: seq<Instr>)
    ensures LinkState(c0, c0, [], 0)
  {
  }

  /** A `[` opened before `i` and still open there stays open while the
      depth does not fall at `i`. */
  lemma UnclosedStep(c0: seq<Instr>, x: nat, i: nat)
    requires x < i < |c0| && Unclosed(c0, x, i) && c0[i].op != JNZ
    ensures Unclosed(c0, x, i + 1)
  {
    assert Depth(c0, i + 1) >= Depth(c0, i);
  }

  lemma CleanStep(c0: seq<Instr>, i: nat)
    requires i < |c0| && CleanBefore(c0, i) && c0[i].op != JNZ
    ensures CleanBefore(c0, i + 1)
  {
    assert Depth(c0, i + 1) >= Depth(c0, i);
    forall a, b | 0 <= a < b < i + 1 && Matched(c0, a, b)
      ensures c0[a].tag == c0[b].tag
    {
      assert b < i;
    }
  }

  lemma LinkedStep(c0: seq<Instr>, c: seq<Instr>, i: nat)
    requires i < |c0| == |c| && LinkedBefore(c0, c, i) && c0[i].op != JNZ
    ensures LinkedBefore(c0, c, i + 1)
  {
    forall x | 0 <= x < i + 1 && c0[x].op == JZ
      ensures Unclosed(c0, x, i + 1) || (c[x].arg < i + 1 && Matched(c0, x, c[x].arg))
    {
      if x == i {
        assert Depth(c0, i + 1) == Depth(c0, i) + 1;
      } else if Unclosed(c0, x, i) {
        UnclosedStep(c0, x, i);
      }
    }
  }

  lemma LinkOther(c0: seq<Instr>, c: seq<Instr>, st: seq<Frame>, i: nat)
    requires LinkState(c0, c, st, i) && i < |c0| && !IsJump(c0[i].op)
    ensures LinkState(c0, c, st, i + 1)
  {
    CleanStep(c0, i);
    LinkedStep(c0, c, i);
    assert Depth(c0, i + 1) == Depth(c0, i);
    forall k | 0 <= k < |st|
      ensures Unclosed(c0, st[k].pc, i + 1)
    {
      UnclosedStep(c0, st[k].pc, i);
    }
  }

  lemma LinkPush(c0: seq<Instr>, c: seq<Instr>, st: seq<Frame>, i: nat)
    requires LinkState(c0, c, st, i) && i < |c0| && c0[i].op == JZ
    ensures LinkState(c0, c, st + [Frame(i, c0[i].tag)], i + 1)
  {
    CleanStep(c0, i);
    LinkedStep(c0, c, i);
    assert Depth(c0, i + 1) == Depth(c0, i) + 1;
    var st' := st + [Frame(i, c0[i].tag)];
    forall k | 0 <= k < |st'|
      ensures st'[k].pc < i + 1 && Depth(c0, st'[k].pc) == k && st'[k].tag == c0[st'[k].pc].tag
      ensures Unclosed(c0, st'[k].pc, i + 1)
    {
      if k < |st| {
        assert st'[k] == st[k];
        UnclosedStep(c0, st[k].pc, i);
      }
    }
  }

  /** With no `[` open, a `]` is the first fault. */
  lemma LinkEmpty(c0: seq<Instr>, c: seq<Instr>, i: nat)
    requires LinkState(c0, c, [], i) && i < |c0| && c0[i].op == JNZ
    ensures UnmatchedCloseAt(c0, i)
  {
  }

  /** A `]` closes the `[` on top of the stack. */
  lemma LinkTop(c0: seq<Instr>, c: seq<Instr>, st: seq<Frame>, i: nat)
    requires LinkState(c0, c, st, i) && i < |c0| && c0[i].op == JNZ && st != []
    ensures Matched(c0, st[|st| - 1].pc, i)
    ensures st[|st| - 1].tag == c0[st[|st| - 1].pc].tag
  {
    assert Depth(c0, i + 1) == Depth(c0, i) - 1;
  }

  /** Closing the top `[` at `i` keeps every other open `[` open. */
  lemma UnclosedPop(c0: seq<Instr>, x: nat, p: nat, i: nat)
    requires x < i < |c0| && p < i && x != p && c0[i].op == JNZ
    requires Unclosed(c0, x, i) && Unclosed(c0, p, i) && Depth(c0, i + 1) == Depth(c0, p)
    ensures Unclosed(c0, x, i + 1)
  {
    assert Depth(c0, i + 1) == Depth(c0, i) - 1;
    assert Depth(c0, i) > Depth(c0, x);
    assert x < p;
    assert Depth(c0, p) > Depth(c0, x);
  }

  lemma LinkedPop(c0: seq<Instr>, c: seq<Instr>, p: nat, i: nat)
    requires i < |c0| == |c| && LinkedBefore(c0, c, i) && Matched(c0, p, i)
    ensures LinkedBefore(c0, c[p := c[p].(arg := i)][i := c[i].(arg := p)], i + 1)
  {
    var c' := c[p := c[p].(arg := i)][i := c[i].(arg := p)];
    ClosesPop(c0, c, c', p, i);
    OpensPop(c0, c, c', p, i);
  }

  lemma ClosesPop(c0: seq<Instr>, c: seq<Instr>, c': seq<Instr>, p: nat, i: nat)
    requires i < |c0| == |c| && LinkedBefore(c0, c, i) && Matched(c0, p, i)
    requires c' == c[p := c[p].(arg := i)][i := c[i].(arg := p)]
    ensures forall x :: 0 <= x < i + 1 && c0[x].op == JNZ ==> Matched(c0, c'[x].arg, x)
  {
    forall x | 0 <= x < i + 1 && c0[x].op == JNZ
      ensures Matched(c0, c'[x].arg, x)
    {
      if x < i {
        assert x != p;
        assert c'[x] == c[x];
      }
    }
  }

  lemma OpensPop(c0: seq<Instr>, c: seq<Instr>, c': seq<Instr>, p: nat, i: nat)
    requires i < |c0| == |c| && LinkedBefore(c0, c, i) && Matched(c0, p, i)
    requires c' == c[p := c[p].(arg := i)][i := c[i].(arg := p)]
    ensures forall x :: 0 <= x < i + 1 && c0[x].op == JZ ==>
      Unclosed(c0, x, i + 1) || (c'[x].arg < i + 1 && Matched(c0, x, c'[x].arg))
  {
    forall x | 0 <= x < i + 1 && c0[x].op == JZ
      ensures Unclosed(c0, x, i + 1) || (c'[x].arg < i + 1 && Matched(c0, x, c'[x].arg))
    {
      assert x < i;
      if x != p {
        assert c'[x] == c[x];
        if Unclosed(c0, x, i) {
          UnclosedPop(c0, x, p, i);
        }
      }
    }
  }

  lemma CleanPop(c0: seq<Instr>, p: nat, i: nat)
    requires i < |c0| && CleanBefore(c0, i) && Matched(c0, p, i) && c0[p].tag == c0[i].tag
    ensures CleanBefore(c0, i + 1)
  {
    assert Depth(c0, i + 1) == Depth(c0, p) >= 0;
    forall a, b | 0 <= a < b < i + 1 && Matched(c0, a, b)
      ensures c0[a].tag == c0[b].tag
    {
      if b == i {
        MatchedUniqueClose(c0, a, p, i);
      }
    }
  }

  lemma StackPop(c0: seq<Instr>, st: seq<Frame>, i: nat)
    requires i < |c0| && c0[i].op == JNZ && StackOk(c0, st, i) && st != []
    requires Matched(c0, st[|st| - 1].pc, i)
    ensures StackOk(c0, st[..|st| - 1], i + 1)
  {
    var p := st[|st| - 1].pc;
    var st' := st[..|st| - 1];
    assert Depth(c0, i + 1) == Depth(c0, i) - 1;
    forall k | 0 <= k < |st'|
      ensures st'[k].pc < i + 1 && Depth(c0, st'[k].pc) == k && st'[k].tag == c0[st'[k].pc].tag
      ensures Unclosed(c0, st'[k].pc, i + 1)
    {
      assert st'[k] == st[k];
      UnclosedPop(c0, st[k].pc, p, i);
    }
  }

  lemma ShapePop(c0: seq<Instr>, c: seq<Instr>, p: nat, i: nat)
    requires SameShape(c0, c) && p < |c| && i < |c| && IsJump(c0[p].op) && IsJump(c0[i].op)
    ensures SameShape(c0, c[p := c[p].(arg := i)][i := c[i].(arg := p)])
  {
  }

  lemma LinkPop(c0: seq<Instr>, c: seq<Instr>, st: seq<Frame>, i: nat)
    requires LinkState(c0, c, st, i) && i < |c0| && c0[i].op == JNZ && st != []
    requires st[|st| - 1].tag == c0[i].tag
    ensures var p := st[|st| - 1].pc;
      LinkState(c0, c[p := c[p].(arg := i)][i := c[i].(arg := p)], st[..|st| - 1], i + 1)
  {
    var p := st[|st| - 1].pc;
    LinkTop(c0, c, st, i);
    CleanPop(c0, p, i);
    LinkedPop(c0, c, p, i);
    StackPop(c0, st, i);
    ShapePop(c0, c, p, i);
  }

  /** At the end of the scan, an empty stack means every jump is linked. */
  lemma LinkDone(c0: seq<Instr>, c: seq<Instr>, st: seq<Frame>)
    requires LinkState(c0, c, st, |c0|)
    ensures st == [] ==> Linkable(c0) && IsLinkOf(c0, c)
    ensures st != [] ==> UnclosedAtEnd(c0)
  {
    if st == [] {
      forall x | 0 <= x < |c0| && c0[x].op == JZ
        ensures Matched(c0, x, c[x].arg)
      {
        assert !Unclosed(c0, x, |c0|) by {
          assert Depth(c0, x) >= 0;
        }
      }
    }
  }

  /** link_jumps: one scan with a stack of open `[`s. A `]` with an empty
      stack, or whose label differs from the popped `[`'s, stops the scan;
      so does a `[` still open at the end. */
  method LinkJumps(code: array<Instr>) returns (fault: Option<LinkFault>)
    modifies code
    ensures fault == None <==> Linkable(old(code[..]))
    ensures fault == None ==> IsLinkOf(old(code[..]), code[..])
    ensures fault.Some? ==> IsFirstFault(old(code[..]), fault.value)
  {
    ghost var c0 := code[..];
    var st: seq<Frame> := [];
    var i := 0;
    LinkStart(c0);
    while i < code.Length
      invariant c0 == old(code[..])
      invariant LinkState(c0, code[..], st, i)
    {
      if code[i].op == JZ {
        LinkPush(c0, code[..], st, i);
        st := st + [Frame(i, code[i].tag)];
      } else if code[i].op == JNZ {
        if st == [] {
          LinkEmpty(c0, code[..], i);
          UnmatchedCloseNotLinkable(c0, i);
          return Some(UnmatchedClose(i));
        }
        var top := st[|st| - 1];
        LinkTop(c0, code[..], st, i);
        if top.tag != code[i].tag {
          MismatchNotLinkable(c0, top.pc, i);
          return Some(MismatchedLabels(top.pc, i));
        }
        LinkPop(c0, code[..], st, i);
        st := st[..|st| - 1];
        code[top.pc] := code[top.pc].(arg := i);
        code[i] := code[i].(arg := top.pc);
      } else {
        LinkOther(c0, code[..], st, i);
      }
      i := i + 1;
    }
    LinkDone(c0, code[..], st);
    if st != [] {
      return Some(UnmatchedOpen);
    }
    return None;
  }
}
