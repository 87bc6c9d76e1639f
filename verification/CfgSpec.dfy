/**
  What the control-flow graph of a program is: function starts, block leaders,
  blocks and edges, described without reference to how they are computed.
 */
module CfgSpec {
  import opened Wrappers
  import opened Bpf

  datatype EdgeKind = Fallthrough | Jump

  /** An edge names its end points by their position in the function's block list.
      `dst` is `None` where the builder stores a null pointer. */
  datatype Edge = Edge(src: nat, dst: Option<nat>, kind: EdgeKind)

  /** A basic block.  The entry and exit blocks hold no instructions (`dummy`). */
  datatype Block = Block(dummy: bool, head: int, tail: int, idx: int, prevs: seq<Edge>, succs: seq<Edge>)

  datatype Func = Func(start: int, end: int, idx: int, bbNum: int, bbs: seq<Block>)

  const ENTRY_BLOCK_INDEX := 0
  const EXIT_BLOCK_INDEX := 1
  const NUM_FIXED_BLOCKS := 2

  ghost predicate Ascending(s: seq<int>) { forall i, j :: 0 <= i < j < |s| ==> s[i] < s[j] }

  function HeadsOf(bbs: seq<Block>): (s: seq<int>)
    ensures |s| == |bbs|
  {
    seq(|bbs|, i requires 0 <= i < |bbs| => bbs[i].head)
  }

  /** A call of slot `i` makes slot `h` the start of a function. */
  predicate Calls(insns: seq<Insn>, i: int, h: int)
    requires 0 <= i < |insns|
  {
    IsPseudoCall(insns[i]) && h == i + insns[i].off + 1
  }

  /** Slot `h` starts a function because of one of the first `n` slots. */
  ghost predicate StartsFunc(insns: seq<Insn>, n: int, h: int)
    requires n <= |insns|
  {
    h == 0 || exists i :: 0 <= i < n && Calls(insns, i, h)
  }

  /** Jump slot `i` makes slot `h` the head of a block. */
  predicate Leads(insns: seq<Insn>, i: int, h: int)
    requires 0 <= i < |insns|
  {
    || ((IsJa(insns[i]) || IsCond(insns[i])) && h == i + insns[i].off + 1)
    || (IsCond(insns[i]) && h == i + 1)
  }

  /** `h` is the head of a block of the function starting at `lo`, because of slots up to `n`. */
  ghost predicate Leader(insns: seq<Insn>, lo: int, n: int, h: int)
    requires 0 <= lo && n <= |insns|
  {
    h == lo || exists i :: lo <= i < n && Leads(insns, i, h)
  }

  /** Every address the builder dereferences is inside the instruction array. */
  ghost predicate MemorySafe(insns: seq<Insn>) {
    && |insns| > 0
    && (forall i, h :: 0 <= i < |insns| && Calls(insns, i, h) ==> 0 <= h < |insns|)
    && (forall i, h :: 0 <= i < |insns| && Leads(insns, i, h) ==> 0 <= h <= |insns|)
  }

  /** `r` is the position of the block with head `h`, or `None` when there is none. */
  ghost predicate Finds(bbs: seq<Block>, h: int, r: Option<nat>) {
    match r
    case Some(p) => p < |bbs| && !bbs[p].dummy && bbs[p].head == h
    case None => forall p :: 0 <= p < |bbs| ==> bbs[p].dummy || bbs[p].head != h
  }

  /** Position `k` of `bbs` holds a block whose successor edges are those of its tail instruction. */
  ghost predicate EdgesOf(insns: seq<Insn>, bbs: seq<Block>, k: nat)
    requires k < |bbs| && 0 <= bbs[k].tail < |insns|
  {
    var t := bbs[k].tail;
    var target := t + insns[t].off + 1;
    var fall := Edge(k, Some(k + 1), Fallthrough);
    if !IsJmp(insns[t]) || IsExit(insns[t]) then
      bbs[k].succs == [fall]
    else if IsJa(insns[t]) then
      exists d :: Finds(bbs, target, d) && bbs[k].succs == [Edge(k, d, Jump)]
    else
      exists d :: Finds(bbs, target, d) && bbs[k].succs == [fall, Edge(k, d, Jump)]
  }

  /** The real blocks of `f` are at the positions 1 to `Last(f)`. */
  function Last(f: Func): int { |f.bbs| - 2 }

  /** `h` is the head of a block of function `f`. */
  ghost predicate IsLeader(insns: seq<Insn>, f: Func, h: int)
    requires 0 <= f.start && f.end < |insns|
  {
    Leader(insns, f.start, f.end + 1, h)
  }

  /** Heads, tails and indices: the real blocks cut the function at its leaders. */
  ghost predicate Blocks(insns: seq<Insn>, f: Func)
    requires 0 <= f.start && f.end < |insns|
  {
    && 1 <= Last(f)
    && f.bbNum == |f.bbs|
    && f.bbs[0].dummy && f.bbs[0].idx == ENTRY_BLOCK_INDEX
    && f.bbs[Last(f) + 1].dummy && f.bbs[Last(f) + 1].idx == EXIT_BLOCK_INDEX
    && (forall k :: 1 <= k <= Last(f) ==> !f.bbs[k].dummy && f.bbs[k].idx == k - 1 + NUM_FIXED_BLOCKS)
    && (forall j, k :: 1 <= j < k <= Last(f) ==> f.bbs[j].head < f.bbs[k].head)
    && (forall k :: 1 <= k < Last(f) ==> f.bbs[k].tail + 1 == f.bbs[k + 1].head)
    && f.bbs[Last(f)].tail == f.end
    && (forall h :: IsLeader(insns, f, h) <==> exists k :: 1 <= k <= Last(f) && f.bbs[k].head == h)
  }

  ghost predicate Edges(insns: seq<Insn>, f: Func)
    requires 1 <= Last(f)
  {
    && f.bbs[0].succs == [Edge(0, Some(1), Fallthrough)]
    && f.bbs[Last(f) + 1].prevs == [Edge(Last(f), Some(Last(f) + 1), Fallthrough)] && f.bbs[Last(f) + 1].succs == []
    && (forall k :: 0 <= k <= Last(f) ==> f.bbs[k].prevs == [])
    && (forall k :: 1 <= k <= Last(f) ==> 0 <= f.bbs[k].tail < |insns| && EdgesOf(insns, f.bbs, k))
  }

  /** `f` is the complete graph of the function it describes. */
  ghost predicate FuncGraph(insns: seq<Insn>, f: Func) {
    0 <= f.start <= f.end < |insns| && Blocks(insns, f) && Edges(insns, f)
  }

  /** The functions cut the instruction array at 0 and at the call targets. */
  ghost predicate Functions(insns: seq<Insn>, fs: seq<Func>) {
    && |fs| > 0
    && (forall i, j :: 0 <= i < j < |fs| ==> fs[i].start < fs[j].start)
    && (forall i :: 0 <= i < |fs| - 1 ==> fs[i].end + 1 == fs[i + 1].start)
    && fs[|fs| - 1].end == |insns| - 1
    && (forall h :: StartsFunc(insns, |insns|, h) <==> exists i :: 0 <= i < |fs| && fs[i].start == h)
    && (forall i :: 0 <= i < |fs| ==> 0 <= fs[i].idx < |fs|)
    && (forall i, j :: 0 <= i < j < |fs| ==> fs[i].idx != fs[j].idx)
  }

  ghost predicate Graph(insns: seq<Insn>, fs: seq<Func>) {
    Functions(insns, fs) && forall i :: 0 <= i < |fs| ==> FuncGraph(insns, fs[i])
  }
}
