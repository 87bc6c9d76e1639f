/**
  What the graph says about executions: every run of a well-formed function
  follows the edges of its graph, and, exactly when two conditions hold, every
  path of the graph is followed by a run.
 */
module CfgTheorems {
  import opened Wrappers
  import opened Bpf
  import opened CfgSpec

  /** `pc` is the second slot of a 64-bit immediate load. */
  predicate SecondSlot(insns: seq<Insn>, lo: int, pc: int)
    requires 0 <= lo && pc <= |insns|
  {
    lo < pc && insns[pc - 1].code == CODE_LD_IMM64
  }

  /** A sequence of program counters that starts at `lo` and follows the step relation. */
  ghost predicate IsRun(insns: seq<Insn>, lo: int, run: seq<int>) {
    && |run| > 0
    && run[0] == lo
    && forall i :: 0 <= i < |run| - 1 ==> 0 <= run[i] < |insns| && Steps(insns, run[i], run[i + 1])
  }

  ghost predicate Reachable(insns: seq<Insn>, lo: int, pc: int) {
    exists run :: IsRun(insns, lo, run) && run[|run| - 1] == pc
  }

  /** The shape of a function that the kernel accepts: jumps stay inside it and never
      hit a second slot, it does not run off its end, and no instruction is dead. */
  ghost predicate WellFormed(insns: seq<Insn>, lo: int, hi: int) {
    && 0 <= lo <= hi < |insns|
    && (IsExit(insns[hi]) || IsJa(insns[hi]))
    && (forall i :: lo <= i <= hi && Class(insns[i].code) == CLASS_JMP32 ==> IsCond(insns[i]))
    && (forall i, h :: lo <= i <= hi && Leads(insns, i, h) ==> lo <= h <= hi && !SecondSlot(insns, lo, h))
    && (forall i :: lo <= i < hi && insns[i].code == CODE_LD_IMM64 ==> insns[i + 1].code == 0)
    && (forall pc :: lo <= pc <= hi ==> SecondSlot(insns, lo, pc) || Reachable(insns, lo, pc))
  }

  ghost predicate GoodFunc(insns: seq<Insn>, f: Func) {
    FuncGraph(insns, f) && WellFormed(insns, f.start, f.end)
  }

  ghost predicate InBlock(f: Func, k: int, pc: int) {
    1 <= k <= Last(f) && f.bbs[k].head <= pc <= f.bbs[k].tail
  }

  /** The block that contains slot `pc`: the last one whose head is not beyond it. */
  ghost function BlockBelow(f: Func, pc: int, k: int): (r: int)
    requires 1 <= k <= Last(f)
    ensures 1 <= r <= k
    decreases k
  {
    if k == 1 || f.bbs[k].head <= pc then k else BlockBelow(f, pc, k - 1)
  }

  ghost function BlockOf(f: Func, pc: int): (r: int)
    requires 1 <= Last(f)
    ensures 1 <= r <= Last(f)
  {
    BlockBelow(f, pc, Last(f))
  }

  /** `pc` is the last instruction of block `k`. */
  ghost predicate AtTail(insns: seq<Insn>, f: Func, k: int, pc: int)
    requires 1 <= k <= Last(f) && 0 <= pc < |insns|
  {
    pc + Width(insns[pc]) - 1 == f.bbs[k].tail
  }

  ghost predicate HasEdge(f: Func, j: int, k: int)
    requires 0 <= j < |f.bbs|
  {
    exists e :: e in f.bbs[j].succs && e.dst == Some(k)
  }

  // ---------- the blocks partition the function ----------

  /** The leaders of a function lie inside it. */
  ghost predicate LeadersInside(insns: seq<Insn>, f: Func)
    requires 0 <= f.start && f.end < |insns|
  {
    forall h :: IsLeader(insns, f, h) ==> f.start <= h <= f.end
  }

  /** A function graph whose leaders lie inside the function: all that the partition into blocks needs. */
  ghost predicate Cut(insns: seq<Insn>, f: Func) {
    FuncGraph(insns, f) && LeadersInside(insns, f)
  }

  lemma Bounds(insns: seq<Insn>, f: Func)
    requires GoodFunc(insns, f)
    ensures 0 <= f.start <= f.end < |insns| && 1 <= Last(f) && WellFormed(insns, f.start, f.end) && Cut(insns, f)
  {
  }

  /** What the graph says about one block. */
  lemma GraphAt(insns: seq<Insn>, f: Func, k: int)
    requires Cut(insns, f) && 1 <= k <= Last(f)
    ensures 0 <= f.bbs[k].tail < |insns| && EdgesOf(insns, f.bbs, k)
    ensures if k < Last(f) then f.bbs[k].tail + 1 == f.bbs[k + 1].head else f.bbs[k].tail == f.end
    ensures 0 <= f.start <= f.end < |insns| && IsLeader(insns, f, f.bbs[k].head)
  {
  }

  lemma HeadsInside(insns: seq<Insn>, f: Func, k: int)
    requires Cut(insns, f) && 1 <= k <= Last(f)
    ensures f.start <= f.bbs[k].head <= f.end
    ensures f.bbs[1].head == f.start
    ensures f.bbs[k].head <= f.bbs[k].tail <= f.end
  {
    assert IsLeader(insns, f, f.bbs[k].head);
    assert IsLeader(insns, f, f.bbs[1].head);
    assert IsLeader(insns, f, f.start);
    if k < Last(f) {
      assert IsLeader(insns, f, f.bbs[k + 1].head);
    }
  }

  /** Blocks of a well-formed function do not begin with a second slot. */
  lemma HeadsAreFirstSlots(insns: seq<Insn>, f: Func, k: int)
    requires GoodFunc(insns, f) && 1 <= k <= Last(f)
    ensures f.start <= f.bbs[k].head <= f.end && !SecondSlot(insns, f.start, f.bbs[k].head)
  {
    Bounds(insns, f);
    HeadsInside(insns, f, k);
    assert IsLeader(insns, f, f.bbs[k].head);
  }

  /** Every slot of the function lies in exactly one block. */
  lemma BlocksPartition(insns: seq<Insn>, f: Func, pc: int)
    requires Cut(insns, f) && f.start <= pc <= f.end
    ensures InBlock(f, BlockOf(f, pc), pc)
    ensures forall k :: InBlock(f, k, pc) ==> k == BlockOf(f, pc)
  {
    HeadsInside(insns, f, 1);
    BlockBelowCovers(f, pc, Last(f));
    forall k | InBlock(f, k, pc)
      ensures k == BlockOf(f, pc)
    {
      BlocksApart(insns, f, k, BlockOf(f, pc), pc);
    }
  }

  /** The blocks are not empty, lie inside the function, and every slot of it is in exactly one of them. */
  ghost predicate Partitions(f: Func) {
    && (forall k :: 1 <= k <= Last(f) ==> f.start <= f.bbs[k].head <= f.bbs[k].tail <= f.end)
    && (forall pc :: f.start <= pc <= f.end ==> InOneBlock(f, pc))
  }

  ghost predicate InOneBlock(f: Func, pc: int) {
    exists k :: InBlock(f, k, pc) && forall j :: InBlock(f, j, pc) ==> j == k
  }

  /** The blocks that are built partition the function if and only if all its leaders lie inside it. */
  lemma PartitionIff(insns: seq<Insn>, f: Func)
    requires FuncGraph(insns, f)
    ensures Partitions(f) <==> LeadersInside(insns, f)
  {
    if LeadersInside(insns, f) {
      forall k | 1 <= k <= Last(f)
        ensures f.start <= f.bbs[k].head <= f.bbs[k].tail <= f.end
      {
        HeadsInside(insns, f, k);
      }
      forall pc | f.start <= pc <= f.end
        ensures InOneBlock(f, pc)
      {
        BlocksPartition(insns, f, pc);
      }
    }
    if Partitions(f) {
      forall h | IsLeader(insns, f, h)
        ensures f.start <= h <= f.end
      {
        var k :| 1 <= k <= Last(f) && f.bbs[k].head == h;
      }
    }
  }

  lemma {:induction false} BlockBelowCovers(f: Func, pc: int, k: int)
    requires 1 <= k <= Last(f) && f.bbs[1].head <= pc <= f.bbs[k].tail
    requires forall j :: 1 <= j < Last(f) ==> f.bbs[j].tail + 1 == f.bbs[j + 1].head
    ensures InBlock(f, BlockBelow(f, pc, k), pc)
    decreases k
  {
    if k > 1 && pc < f.bbs[k].head {
      assert f.bbs[k - 1].tail + 1 == f.bbs[k].head;
      BlockBelowCovers(f, pc, k - 1);
    }
  }

  lemma BlocksApart(insns: seq<Insn>, f: Func, j: int, k: int, pc: int)
    requires FuncGraph(insns, f) && InBlock(f, j, pc) && InBlock(f, k, pc)
    ensures j == k
  {
    if j < k {
      TailBeforeHead(insns, f, j, k);
    } else if k < j {
      TailBeforeHead(insns, f, k, j);
    }
  }

  lemma TailBeforeHead(insns: seq<Insn>, f: Func, j: int, k: int)
    requires FuncGraph(insns, f) && 1 <= j < k <= Last(f)
    ensures f.bbs[j].tail < f.bbs[k].head
  {
    assert f.bbs[j].tail + 1 == f.bbs[j + 1].head;
  }

  /** A slot that is no head continues the block of the slot before it. */
  lemma NotLeaderStays(insns: seq<Insn>, f: Func, pc: int)
    requires Cut(insns, f) && f.start <= pc < f.end
    ensures IsLeader(insns, f, pc + 1) <==> f.bbs[BlockOf(f, pc)].tail == pc
    ensures IsLeader(insns, f, pc + 1) ==> BlockOf(f, pc + 1) == BlockOf(f, pc) + 1
    ensures IsLeader(insns, f, pc + 1) ==> f.bbs[BlockOf(f, pc + 1)].head == pc + 1
    ensures !IsLeader(insns, f, pc + 1) ==> BlockOf(f, pc + 1) == BlockOf(f, pc)
  {
    assert 1 <= Last(f) && 0 <= f.start && f.end < |insns|;
    hide Cut;
    hide IsLeader;
    hide BlockOf;
    var k := BlockOf(f, pc);
    BlocksPartition(insns, f, pc);
    BlocksPartition(insns, f, pc + 1);
    GraphAt(insns, f, k);
    if f.bbs[k].tail == pc {
      GraphAt(insns, f, k + 1);
      HeadsInside(insns, f, k + 1);
      assert InBlock(f, k + 1, pc + 1);
    } else {
      assert InBlock(f, k, pc + 1);
      if IsLeader(insns, f, pc + 1) {
        var j := LeaderHeads(insns, f, pc + 1);
      }
    }
  }

  lemma LeaderHeads(insns: seq<Insn>, f: Func, h: int) returns (k: int)
    requires Cut(insns, f) && IsLeader(insns, f, h)
    ensures InBlock(f, k, h) && f.bbs[k].head == h
  {
    k :| 1 <= k <= Last(f) && f.bbs[k].head == h;
    HeadsInside(insns, f, k);
  }

  /** Block indices number the list of blocks, special blocks included, without gaps. */
  lemma BlockIndices(insns: seq<Insn>, f: Func, v: int)
    requires FuncGraph(insns, f) && 0 <= v < f.bbNum
    ensures exists k :: 0 <= k < |f.bbs| && f.bbs[k].idx == v
    ensures forall j, k :: 0 <= j < |f.bbs| && 0 <= k < |f.bbs| && f.bbs[j].idx == f.bbs[k].idx ==> j == k
  {
    var k := if v == ENTRY_BLOCK_INDEX then 0 else if v == EXIT_BLOCK_INDEX then Last(f) + 1 else v - 1;
    assert f.bbs[k].idx == v;
  }

  /** Every slot of the array lies in exactly one function. */
  lemma FunctionsPartition(insns: seq<Insn>, fs: seq<Func>, pc: int)
    requires Graph(insns, fs) && 0 <= pc < |insns|
    ensures exists i :: 0 <= i < |fs| && fs[i].start <= pc <= fs[i].end
    ensures forall i, j ::
      0 <= i < |fs| && 0 <= j < |fs| && fs[i].start <= pc <= fs[i].end && fs[j].start <= pc <= fs[j].end ==> i == j
  {
    FirstFunction(insns, fs);
    hide FuncGraph;
    hide StartsFunc;
    var i := FunctionCovering(fs, pc, |fs| - 1);
    forall i, j | 0 <= i < j < |fs|
      ensures fs[i].end < fs[j].start
    {
      assert fs[i].end + 1 == fs[i + 1].start;
    }
  }

  lemma FirstFunction(insns: seq<Insn>, fs: seq<Func>)
    requires Graph(insns, fs)
    ensures fs[0].start == 0
  {
    assert StartsFunc(insns, |insns|, 0);
    assert FuncGraph(insns, fs[0]);
  }

  lemma {:induction false} FunctionCovering(fs: seq<Func>, pc: int, i: int) returns (j: int)
    requires 0 <= i < |fs| && fs[0].start <= pc <= fs[i].end
    requires forall i :: 0 <= i < |fs| - 1 ==> fs[i].end + 1 == fs[i + 1].start
    ensures 0 <= j <= i && fs[j].start <= pc <= fs[j].end
    decreases i
  {
    j := i;
    if pc < fs[i].start {
      assert fs[i - 1].end + 1 == fs[i].start;
      j := FunctionCovering(fs, pc, i - 1);
    }
  }

  // ---------- jumps and exits only at block ends ----------

  /** A slot that only falls through to its successor is never entered by a run unless it is
      a leader: so nothing can follow JA or EXIT inside a block. */
  lemma NoJumpInside(insns: seq<Insn>, f: Func, pc: int)
    requires GoodFunc(insns, f) && f.start <= pc <= f.end
    requires IsExit(insns[pc]) || IsJa(insns[pc]) || IsCond(insns[pc])
    ensures f.bbs[BlockOf(f, pc)].tail == pc
  {
    hide GoodFunc;
    hide WellFormed;
    hide Cut;
    Bounds(insns, f);
    BlocksPartition(insns, f, pc);
    GraphAt(insns, f, BlockOf(f, pc));
    if pc < f.end {
      NotLeaderStays(insns, f, pc);
      if IsCond(insns[pc]) {
        assert Leads(insns, pc, pc + 1);
      } else {
        var p := EnteredFrom(insns, f.start, f.end, pc + 1);
        assert Leads(insns, p, pc + 1);
      }
    } else {
      HeadsInside(insns, f, BlockOf(f, pc));
    }
  }

  /** A slot that is neither the start nor a second slot is entered by a step. */
  lemma EnteredFrom(insns: seq<Insn>, lo: int, hi: int, pc: int) returns (p: int)
    requires WellFormed(insns, lo, hi) && lo < pc <= hi && !SecondSlot(insns, lo, pc)
    ensures lo <= p <= hi && !SecondSlot(insns, lo, p) && Steps(insns, p, pc)
  {
    assert Reachable(insns, lo, pc);
    var run :| IsRun(insns, lo, run) && run[|run| - 1] == pc;
    p := run[|run| - 2];
    RunStaysInside(insns, lo, hi, run[..|run| - 1]);
    assert run[..|run| - 1][|run| - 2] == p;
  }

  /** Runs never leave the function and never execute a second slot. */
  lemma {:induction false} RunStaysInside(insns: seq<Insn>, lo: int, hi: int, run: seq<int>)
    requires WellFormed(insns, lo, hi) && IsRun(insns, lo, run)
    ensures forall i :: 0 <= i < |run| ==> lo <= run[i] <= hi && !SecondSlot(insns, lo, run[i])
  {
    if |run| > 1 {
      var n := |run| - 1;
      RunStaysInside(insns, lo, hi, run[..n]);
      assert run[..n][n - 1] == run[n - 1];
      StepStaysInside(insns, lo, hi, run[n - 1], run[n]);
      assert forall i :: 0 <= i < n ==> run[i] == run[..n][i];
    }
  }

  lemma StepStaysInside(insns: seq<Insn>, lo: int, hi: int, pc: int, next: int)
    requires WellFormed(insns, lo, hi)
    requires lo <= pc <= hi && !SecondSlot(insns, lo, pc) && Steps(insns, pc, next)
    ensures lo <= next <= hi && !SecondSlot(insns, lo, next)
  {
    if IsJa(insns[pc]) || IsCond(insns[pc]) {
      assert Leads(insns, pc, next);
    } else if Width(insns[pc]) == 2 {
      assert insns[pc + 1].code == 0;
    }
  }

  // ---------- every step follows the graph ----------

  lemma FoundBlock(insns: seq<Insn>, f: Func, h: int, d: Option<nat>)
    requires GoodFunc(insns, f) && Finds(f.bbs, h, d)
    ensures IsLeader(insns, f, h) <==> d.Some?
    ensures d.Some? ==> 1 <= d.value <= Last(f) && BlockOf(f, h) == d.value && f.bbs[d.value].head == h
  {
    if d.Some? {
      var k := d.value;
      assert 1 <= k <= Last(f);
      HeadsInside(insns, f, k);
      BlocksPartition(insns, f, h);
      assert InBlock(f, k, h);
    }
  }

  /** A step inside a block goes to the next instruction; a step from a block's last
      instruction goes to the head of a block named by one of its successor edges. */
  lemma StepFollowsGraph(insns: seq<Insn>, f: Func, pc: int, next: int)
    requires GoodFunc(insns, f) && f.start <= pc <= f.end && !SecondSlot(insns, f.start, pc)
    requires Steps(insns, pc, next)
    ensures f.start <= next <= f.end
    ensures !AtTail(insns, f, BlockOf(f, pc), pc) ==>
      next == pc + Width(insns[pc]) && BlockOf(f, next) == BlockOf(f, pc)
    ensures AtTail(insns, f, BlockOf(f, pc), pc) ==>
      f.bbs[BlockOf(f, next)].head == next && HasEdge(f, BlockOf(f, pc), BlockOf(f, next))
  {
    StepStaysInside(insns, f.start, f.end, pc, next);
    if IsJa(insns[pc]) || IsCond(insns[pc]) {
      JumpFollowsGraph(insns, f, pc, next);
    } else {
      FallFollowsGraph(insns, f, pc);
    }
  }

  lemma JumpFollowsGraph(insns: seq<Insn>, f: Func, pc: int, next: int)
    requires GoodFunc(insns, f) && f.start <= pc <= f.end && !SecondSlot(insns, f.start, pc)
    requires IsJa(insns[pc]) || IsCond(insns[pc])
    requires Steps(insns, pc, next)
    ensures AtTail(insns, f, BlockOf(f, pc), pc)
    ensures f.bbs[BlockOf(f, next)].head == next && HasEdge(f, BlockOf(f, pc), BlockOf(f, next))
  {
    hide GoodFunc;
    hide WellFormed;
    hide Cut;
    Bounds(insns, f);
    var k := BlockOf(f, pc);
    var target := pc + insns[pc].off + 1;
    NoJumpInside(insns, f, pc);
    assert Leads(insns, pc, next) && IsLeader(insns, f, next);
    GraphAt(insns, f, k);
    var d :| Finds(f.bbs, target, d) && Edge(k, d, Jump) in f.bbs[k].succs;
    FoundBlock(insns, f, target, d);
    if next != target {
      StepStaysInside(insns, f.start, f.end, pc, next);
      NotLeaderStays(insns, f, pc);
      assert Edge(k, Some(k + 1), Fallthrough) in f.bbs[k].succs;
    }
  }

  lemma FallFollowsGraph(insns: seq<Insn>, f: Func, pc: int)
    requires GoodFunc(insns, f) && f.start <= pc <= f.end && !SecondSlot(insns, f.start, pc)
    requires !IsJa(insns[pc]) && !IsCond(insns[pc]) && !IsExit(insns[pc])
    ensures
      var k, next := BlockOf(f, pc), pc + Width(insns[pc]);
      && next <= f.end
      && if AtTail(insns, f, k, pc)
         then k < Last(f) && BlockOf(f, next) == k + 1 && f.bbs[k + 1].head == next
              && Edge(k, Some(k + 1), Fallthrough) in f.bbs[k].succs
         else BlockOf(f, next) == k
  {
    Bounds(insns, f);
    FallStays(insns, f, pc);
    hide GoodFunc;
    hide WellFormed;
    hide Cut;
    hide IsLeader;
    hide BlockOf;
    var k := BlockOf(f, pc);
    BlocksPartition(insns, f, pc);
    NotLeaderStays(insns, f, pc);
    if Width(insns[pc]) == 2 {
      NotLeaderStays(insns, f, pc + 1);
    }
    GraphAt(insns, f, k);
  }

  /** An instruction that falls through is not the last one, and no block starts inside it. */
  lemma FallStays(insns: seq<Insn>, f: Func, pc: int)
    requires GoodFunc(insns, f) && f.start <= pc <= f.end && !SecondSlot(insns, f.start, pc)
    requires !IsJa(insns[pc]) && !IsCond(insns[pc]) && !IsExit(insns[pc])
    ensures pc + Width(insns[pc]) <= f.end
    ensures Width(insns[pc]) == 2 ==> !IsLeader(insns, f, pc + 1) && !IsJmp(insns[pc + 1])
  {
    if Width(insns[pc]) == 2 {
      assert insns[pc + 1].code == 0;
      assert SecondSlot(insns, f.start, pc + 1);
      LeadersAreFirstSlots(insns, f, pc + 1);
    }
  }

  lemma LeadersAreFirstSlots(insns: seq<Insn>, f: Func, h: int)
    requires GoodFunc(insns, f) && f.start <= h <= f.end && SecondSlot(insns, f.start, h)
    ensures !IsLeader(insns, f, h)
  {
  }

  // ---------- runs and paths ----------

  /** The entry block has index 0 and leads to the block that holds the first slot of the function, and nowhere else. */
  lemma EntersAtStart(insns: seq<Insn>, f: Func, k: int)
    requires Cut(insns, f)
    ensures f.bbs[0].dummy && f.bbs[0].idx == 0 && (HasEdge(f, 0, k) <==> k == BlockOf(f, f.start))
    ensures forall e :: e in f.bbs[0].succs ==> e.src == 0 && e.kind == Fallthrough && e.dst.Some?
  {
    HeadsInside(insns, f, 1);
    BlocksPartition(insns, f, f.start);
    assert InBlock(f, 1, f.start);
    assert Edge(0, Some(1), Fallthrough) in f.bbs[0].succs;
  }

  /** The exit block has index 1 and is reached from the block that holds the last slot. */
  lemma LeavesAtEnd(insns: seq<Insn>, f: Func)
    requires Cut(insns, f)
    ensures
      var x := f.bbs[Last(f) + 1];
      && x.dummy && x.idx == 1 && x.succs == []
      && x.prevs == [Edge(BlockOf(f, f.end), Some(Last(f) + 1), Fallthrough)]
    ensures forall k :: 0 <= k <= Last(f) ==> f.bbs[k].prevs == []
  {
    HeadsInside(insns, f, Last(f));
    BlocksPartition(insns, f, f.end);
    assert InBlock(f, Last(f), f.end);
  }

  /** A slot is the head of a block if and only if the function starts there or one of its jumps can step to it. */
  lemma HeadsIff(insns: seq<Insn>, f: Func, h: int)
    requires FuncGraph(insns, f)
    ensures (exists k :: 1 <= k <= Last(f) && f.bbs[k].head == h) <==>
      h == f.start || exists i :: f.start <= i <= f.end && (IsJa(insns[i]) || IsCond(insns[i])) && Steps(insns, i, h)
  {
    assert IsLeader(insns, f, h) <==>
      h == f.start || exists i :: f.start <= i <= f.end && (IsJa(insns[i]) || IsCond(insns[i])) && Steps(insns, i, h) by {
      if IsLeader(insns, f, h) && h != f.start {
        var i :| f.start <= i < f.end + 1 && Leads(insns, i, h);
        assert Steps(insns, i, h);
      }
      if i :| f.start <= i <= f.end && (IsJa(insns[i]) || IsCond(insns[i])) && Steps(insns, i, h) {
        assert Leads(insns, i, h);
      }
    }
  }

  /** What the edges of a block are: it falls through to the next block unless it ends in JA, and if it ends in a
      jump other than EXIT it leads to the block at the jump's target. */
  lemma EdgesMean(insns: seq<Insn>, f: Func, k: int)
    requires FuncGraph(insns, f) && 1 <= k <= Last(f)
    ensures 0 <= f.bbs[k].tail < |insns|
    ensures
      var t := f.bbs[k].tail;
      && (Edge(k, Some(k + 1), Fallthrough) in f.bbs[k].succs <==> !IsJa(insns[t]))
      && ((exists d :: Edge(k, d, Jump) in f.bbs[k].succs) <==> IsJmp(insns[t]) && !IsExit(insns[t]))
      && (forall e :: e in f.bbs[k].succs ==> e.src == k && (e.kind.Fallthrough? ==> e.dst == Some(k + 1)))
      && (forall d :: Edge(k, d, Jump) in f.bbs[k].succs ==> Finds(f.bbs, t + insns[t].off + 1, d))
  {
    var t := f.bbs[k].tail;
    assert EdgesOf(insns, f.bbs, k);
    if IsJmp(insns[t]) && !IsExit(insns[t]) {
      var e := f.bbs[k].succs[|f.bbs[k].succs| - 1];
      assert Edge(k, e.dst, Jump) in f.bbs[k].succs;
    }
  }

  /** Functions start at slot 0 and wherever a call with source register 1 leads, and nowhere else. */
  lemma StartsAreCallees(insns: seq<Insn>, fs: seq<Func>, h: int)
    requires Functions(insns, fs)
    ensures (exists i :: 0 <= i < |fs| && fs[i].start == h) <==>
      h == 0 || exists c :: 0 <= c < |insns| && insns[c].code == 0x85 && insns[c].srcReg == 1 && h == c + insns[c].off + 1
  {
    assert StartsFunc(insns, |insns|, h) <==> exists i :: 0 <= i < |fs| && fs[i].start == h;
    if c :| 0 <= c < |insns| && insns[c].code == 0x85 && insns[c].srcReg == 1 && h == c + insns[c].off + 1 {
      assert Calls(insns, c, h);
    }
  }

  /** The opcodes in numbers: the class is in the low three bits, the operation in the high four. */
  lemma Opcodes(i: Insn)
    ensures IsJmp(i) <==> i.code % 8 == 5 || i.code % 8 == 6
    ensures IsJmp(i) ==> (IsJa(i) <==> i.code / 16 == 0) && (IsCall(i) <==> i.code / 16 == 8)
    ensures IsJmp(i) ==> (IsExit(i) <==> i.code / 16 == 9) && (IsCond(i) <==> i.code / 16 !in {0, 8, 9})
    ensures Width(i) == if i.code == 0x18 then 2 else 1
  {
    assert i.code - i.code % 16 == 16 * (i.code / 16);
  }

  /** A path through the real blocks that starts at a successor of the entry block. */
  ghost predicate IsPath(f: Func, path: seq<int>) {
    && |path| > 0
    && |f.bbs| > 0 && HasEdge(f, 0, path[0])
    && (forall i :: 0 <= i < |path| ==> 1 <= path[i] <= Last(f))
    && forall i :: 0 <= i < |path| - 1 ==> HasEdge(f, path[i], path[i + 1])
  }

  /** The blocks a run visits: one more whenever it leaves a block's last instruction. */
  ghost function Project(insns: seq<Insn>, f: Func, run: seq<int>): (path: seq<int>)
    requires |run| > 0 && 1 <= Last(f)
    requires forall i :: 0 <= i < |run| - 1 ==> 0 <= run[i] < |insns|
  {
    var n := |run| - 1;
    if n == 0 then [BlockOf(f, run[0])]
    else
      var before := Project(insns, f, run[..n]);
      if AtTail(insns, f, BlockOf(f, run[n - 1]), run[n - 1]) then before + [BlockOf(f, run[n])] else before
  }

  /** Every execution of the function is a path of its graph. */
  lemma {:induction false} RunsArePaths(insns: seq<Insn>, f: Func, run: seq<int>)
    requires GoodFunc(insns, f) && IsRun(insns, f.start, run)
    ensures forall i :: 0 <= i < |run| ==> f.start <= run[i] <= f.end
    ensures
      var path := Project(insns, f, run);
      IsPath(f, path) && path[|path| - 1] == BlockOf(f, run[|run| - 1])
  {
    hide GoodFunc;
    hide WellFormed;
    hide Cut;
    Bounds(insns, f);
    var n := |run| - 1;
    RunStaysInside(insns, f.start, f.end, run);
    if n == 0 {
      EntersAtStart(insns, f, BlockOf(f, f.start));
    } else {
      RunsArePaths(insns, f, run[..n]);
      assert run[..n][n - 1] == run[n - 1];
      StepFollowsGraph(insns, f, run[n - 1], run[n]);
      ExtendPath(f, Project(insns, f, run[..n]), BlockOf(f, run[n]));
    }
  }

  lemma ExtendPath(f: Func, path: seq<int>, k: int)
    requires IsPath(f, path) && 1 <= k <= Last(f)
    ensures HasEdge(f, path[|path| - 1], k) ==> IsPath(f, path + [k])
  {
  }

  // ---------- exactness ----------

  /** The last instruction of block `k`. */
  ghost function LastInsn(insns: seq<Insn>, f: Func, k: int): int
    requires 1 <= k <= Last(f) && 0 <= f.start && f.bbs[k].tail < |insns|
  {
    if SecondSlot(insns, f.start, f.bbs[k].tail) then f.bbs[k].tail - 1 else f.bbs[k].tail
  }

  /** Every edge leads somewhere, and every edge between real blocks is a step of the machine. */
  ghost predicate Exact(insns: seq<Insn>, f: Func)
    requires GoodFunc(insns, f)
  {
    forall k, e :: 1 <= k <= Last(f) && e in f.bbs[k].succs ==> RealEdge(insns, f, k, e)
  }

  ghost predicate RealEdge(insns: seq<Insn>, f: Func, k: int, e: Edge)
    requires GoodFunc(insns, f) && 1 <= k <= Last(f)
  {
    HeadsInside(insns, f, k);
    var pc := LastInsn(insns, f, k);
    && e.dst.Some?
    && 1 <= e.dst.value <= Last(f) + 1
    && (e.dst.value <= Last(f) ==> 0 <= pc && Steps(insns, pc, f.bbs[e.dst.value].head))
  }

  /** What a caller can check: EXIT only at the end, and no call with an offset before a leader. */
  ghost predicate PlainEnds(insns: seq<Insn>, f: Func)
    requires 0 <= f.start && f.end < |insns|
  {
    && (forall pc :: f.start <= pc < f.end ==> !IsExit(insns[pc]))
    && (forall pc :: f.start <= pc <= f.end && IsCall(insns[pc]) && IsLeader(insns, f, pc + 1) ==> insns[pc].off == 0)
  }

  /** The graph is exact if and only if `PlainEnds` holds. */
  lemma ExactIff(insns: seq<Insn>, f: Func)
    requires GoodFunc(insns, f)
    ensures Exact(insns, f) <==> PlainEnds(insns, f)
  {
    if Exact(insns, f) {
      forall pc | f.start <= pc <= f.end && IsExit(insns[pc])
        ensures pc == f.end
      {
        ExitEdge(insns, f, pc);
      }
      forall pc | f.start <= pc <= f.end && IsCall(insns[pc]) && IsLeader(insns, f, pc + 1)
        ensures insns[pc].off == 0
      {
        CallEdge(insns, f, pc);
      }
    }
    if PlainEnds(insns, f) {
      forall k, e | 1 <= k <= Last(f) && e in f.bbs[k].succs
        ensures RealEdge(insns, f, k, e)
      {
        PlainEdge(insns, f, k, e);
      }
    }
  }

  lemma ExitEdge(insns: seq<Insn>, f: Func, pc: int)
    requires GoodFunc(insns, f) && Exact(insns, f) && f.start <= pc <= f.end && IsExit(insns[pc])
    ensures pc == f.end
  {
    var k := BlockOf(f, pc);
    NoJumpInside(insns, f, pc);
    BlocksPartition(insns, f, pc);
    HeadsInside(insns, f, k);
    assert EdgesOf(insns, f.bbs, k);
    var e := Edge(k, Some(k + 1), Fallthrough);
    assert e in f.bbs[k].succs && RealEdge(insns, f, k, e);
    TailIsInsn(insns, f, k);
  }

  lemma CallEdge(insns: seq<Insn>, f: Func, pc: int)
    requires GoodFunc(insns, f) && Exact(insns, f) && f.start <= pc <= f.end
    requires IsCall(insns[pc]) && IsLeader(insns, f, pc + 1)
    ensures insns[pc].off == 0
  {
    var k := BlockOf(f, pc);
    var target := pc + insns[pc].off + 1;
    assert pc < f.end;
    NotLeaderStays(insns, f, pc);
    BlocksPartition(insns, f, pc);
    HeadsInside(insns, f, k);
    assert EdgesOf(insns, f.bbs, k);
    var d :| Finds(f.bbs, target, d) && Edge(k, d, Jump) in f.bbs[k].succs;
    var e := Edge(k, d, Jump);
    assert RealEdge(insns, f, k, e);
    FoundBlock(insns, f, target, d);
    TailIsInsn(insns, f, k);
  }

  /** A jump or call at a block's tail is not a second slot. */
  lemma TailIsInsn(insns: seq<Insn>, f: Func, k: int)
    requires GoodFunc(insns, f) && 1 <= k <= Last(f)
    ensures f.start <= f.bbs[k].head <= f.bbs[k].tail <= f.end
    ensures IsJmp(insns[f.bbs[k].tail]) ==> LastInsn(insns, f, k) == f.bbs[k].tail
    ensures f.start <= LastInsn(insns, f, k) && !SecondSlot(insns, f.start, LastInsn(insns, f, k))
    ensures f.bbs[k].head <= LastInsn(insns, f, k)
    ensures LastInsn(insns, f, k) + Width(insns[LastInsn(insns, f, k)]) - 1 == f.bbs[k].tail
  {
    Bounds(insns, f);
    HeadsInside(insns, f, k);
    HeadsAreFirstSlots(insns, f, k);
    var tail := f.bbs[k].tail;
    if SecondSlot(insns, f.start, tail) {
      assert insns[tail].code == 0;
      assert tail != f.bbs[k].head;
    } else if insns[tail].code == CODE_LD_IMM64 {
      assert tail < f.end;
      assert SecondSlot(insns, f.start, tail + 1);
      LeadersAreFirstSlots(insns, f, tail + 1);
      BlocksPartition(insns, f, tail);
      assert InBlock(f, k, tail);
      NotLeaderStays(insns, f, tail);
      assert false;
    }
  }

  lemma PlainEdge(insns: seq<Insn>, f: Func, k: int, e: Edge)
    requires GoodFunc(insns, f) && PlainEnds(insns, f) && 1 <= k <= Last(f) && e in f.bbs[k].succs
    ensures RealEdge(insns, f, k, e)
  {
    hide FuncGraph;
    hide Cut;
    hide Reachable;
    Bounds(insns, f);
    var pc := f.bbs[k].tail;
    TailIsInsn(insns, f, k);
    GraphAt(insns, f, k);
    if k < Last(f) {
      GraphAt(insns, f, k + 1);
    }
    if e.kind == Jump {
      var target := pc + insns[pc].off + 1;
      var d :| Finds(f.bbs, target, d) && e == Edge(k, d, Jump);
      FoundBlock(insns, f, target, d);
      if !IsCall(insns[pc]) {
        assert Leads(insns, pc, target) && IsLeader(insns, f, target);
      }
    }
  }

  /** Walking to the end of a block extends a run without leaving the block. */
  lemma {:induction false} WalkBlock(insns: seq<Insn>, f: Func, run: seq<int>) returns (longer: seq<int>)
    requires GoodFunc(insns, f) && IsRun(insns, f.start, run)
    ensures IsRun(insns, f.start, longer)
    ensures Project(insns, f, longer) == Project(insns, f, run)
    ensures longer[|longer| - 1] == LastInsn(insns, f, BlockOf(f, run[|run| - 1]))
    decreases f.end - run[|run| - 1]
  {
    hide FuncGraph;
    hide Cut;
    hide Reachable;
    Bounds(insns, f);
    var pc := run[|run| - 1];
    RunStaysInside(insns, f.start, f.end, run);
    var k := BlockOf(f, pc);
    BlocksPartition(insns, f, pc);
    TailIsInsn(insns, f, k);
    if AtTail(insns, f, k, pc) {
      longer := run;
      if Width(insns[pc]) == 2 {
        assert SecondSlot(insns, f.start, f.bbs[k].tail);
      }
    } else {
      if IsExit(insns[pc]) || IsJa(insns[pc]) || IsCond(insns[pc]) {
        NoJumpInside(insns, f, pc);
      }
      var next := pc + Width(insns[pc]);
      assert Steps(insns, pc, next);
      StepFollowsGraph(insns, f, pc, next);
      ExtendRun(insns, f, run, next);
      longer := WalkBlock(insns, f, run + [next]);
    }
  }

  lemma ExtendRun(insns: seq<Insn>, f: Func, run: seq<int>, next: int)
    requires 1 <= Last(f) && IsRun(insns, f.start, run)
    requires 0 <= run[|run| - 1] < |insns| && Steps(insns, run[|run| - 1], next)
    ensures IsRun(insns, f.start, run + [next])
    ensures
      var pc := run[|run| - 1];
      Project(insns, f, run + [next])
        == Project(insns, f, run) + if AtTail(insns, f, BlockOf(f, pc), pc) then [BlockOf(f, next)] else []
  {
    hide BlockOf;
    hide Steps;
    var longer := run + [next];
    assert longer[..|longer| - 1] == run;
    assert longer[|longer| - 2] == run[|run| - 1];
  }

  /** An edge of an exact graph extends a run by one block. */
  lemma FollowEdge(insns: seq<Insn>, f: Func, run: seq<int>, k: int) returns (longer: seq<int>)
    requires GoodFunc(insns, f) && PlainEnds(insns, f) && IsRun(insns, f.start, run)
    requires 1 <= k <= Last(f) && HasEdge(f, BlockOf(f, run[|run| - 1]), k)
    ensures IsRun(insns, f.start, longer) && Project(insns, f, longer) == Project(insns, f, run) + [k]
    ensures longer[|longer| - 1] == f.bbs[k].head && BlockOf(f, f.bbs[k].head) == k
  {
    Bounds(insns, f);
    hide GoodFunc;
    hide WellFormed;
    hide Cut;
    hide PlainEnds;
    hide BlockOf;
    hide IsRun;
    hide Project;
    var j := BlockOf(f, run[|run| - 1]);
    var walked := WalkBlock(insns, f, run);
    HeadsInside(insns, f, j);
    var pc, next := LastInsn(insns, f, j), f.bbs[k].head;
    TailIsInsn(insns, f, j);
    BlocksPartition(insns, f, pc);
    assert InBlock(f, j, pc);
    var e :| e in f.bbs[j].succs && e.dst == Some(k);
    PlainEdge(insns, f, j, e);
    ExtendRun(insns, f, walked, next);
    longer := walked + [next];
    HeadsInside(insns, f, k);
    BlocksPartition(insns, f, next);
    assert InBlock(f, k, next);
  }

  /** When the graph is exact, every path is the path of some execution. */
  lemma {:induction false} PathsAreRuns(insns: seq<Insn>, f: Func, path: seq<int>) returns (run: seq<int>)
    requires GoodFunc(insns, f) && PlainEnds(insns, f) && IsPath(f, path)
    ensures IsRun(insns, f.start, run) && Project(insns, f, run) == path
  {
    Bounds(insns, f);
    hide GoodFunc;
    hide WellFormed;
    hide Cut;
    hide PlainEnds;
    hide BlockOf;
    var n := |path| - 1;
    if n == 0 {
      run := [f.start];
      RunsArePaths(insns, f, run);
      EntersAtStart(insns, f, path[0]);
      assert path == [path[0]];
    } else {
      var before := PathsAreRuns(insns, f, path[..n]);
      RunsArePaths(insns, f, before);
      assert HasEdge(f, path[n - 1], path[n]);
      run := FollowEdge(insns, f, before, path[n]);
      assert path == path[..n] + [path[n]];
    }
  }

  // ---------- the condition is not vacuous ----------

  const JEQ := Insn(0x15, 0, 1)
  const EXIT := Insn(0x95, 0, 0)

  /** `if (r == imm) goto 2; exit; exit`: the early exit gets an edge to the block after it. */
  lemma EarlyExitIsNotExact(f: Func)
    requires f.start == 0 && f.end == 2 && FuncGraph([JEQ, EXIT, EXIT], f)
    ensures WellFormed([JEQ, EXIT, EXIT], 0, 2) && !Exact([JEQ, EXIT, EXIT], f)
  {
    var insns := [JEQ, EXIT, EXIT];
    assert IsRun(insns, 0, [0]) && IsRun(insns, 0, [0, 1]) && IsRun(insns, 0, [0, 2]);
    assert [0][|[0]| - 1] == 0 && [0, 1][|[0, 1]| - 1] == 1 && [0, 2][|[0, 2]| - 1] == 2;
    assert Reachable(insns, 0, 0) && Reachable(insns, 0, 1) && Reachable(insns, 0, 2);
    ExactIff(insns, f);
    assert IsExit(insns[1]);
  }
}
