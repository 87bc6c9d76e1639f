/**
  The control-flow graph builder: functions, then blocks, then edges, kept in
  lists that are searched linearly and extended in place.
 */
module Cfg {
  import opened Wrappers
  import opened Bpf
  import opened CfgSpec

  function NewBlock(head: int): Block { Block(false, head, 0, 0, [], []) }

  function Dummy(idx: int): Block { Block(true, 0, 0, idx, [], []) }

  /** `b` differs from `a` in nothing but its tail and its index. */
  predicate Relabels(a: Block, b: Block) {
    a.dummy == b.dummy && a.head == b.head && a.prevs == b.prevs && a.succs == b.succs
  }

  predicate AllNew(bbs: seq<Block>) { forall k :: 0 <= k < |bbs| ==> bbs[k] == NewBlock(bbs[k].head) }

  class FuncNode {
    var start: int
    var end: int
    var idx: int
    var bbNum: int
    var bbs: seq<Block>

    constructor (start: int, idx: int)
      ensures this.start == start && this.idx == idx
    {
      this.start, this.idx, this.end, this.bbNum, this.bbs := start, idx, 0, 0, [];
    }

    function View(): Func
      reads this
    {
      Func(start, end, idx, bbNum, bbs)
    }

    /** func_append_bb: insert into the list ordered by head, without duplicates. */
    method AppendBb(insn: int)
      requires Ascending(HeadsOf(bbs)) && AllNew(bbs)
      modifies this`bbs
      ensures Ascending(HeadsOf(bbs)) && AllNew(bbs)
      ensures forall h :: h in HeadsOf(bbs) <==> h in old(HeadsOf(bbs)) || h == insn
    {
      var heads := HeadsOf(bbs);
      var k := 0;
      while k < |bbs|
        invariant 0 <= k <= |bbs|
        invariant forall j :: 0 <= j < k ==> heads[j] < insn
      {
        if bbs[k].head == insn {
          assert heads[k] == insn;
          return;
        } else if bbs[k].head > insn {
          break;
        }
        k := k + 1;
      }
      bbs := bbs[..k] + [NewBlock(insn)] + bbs[k..];
      assert HeadsOf(bbs) == heads[..k] + [insn] + heads[k..];
      assert heads == heads[..k] + heads[k..];
    }

    /** func_partition_bb_head: one block for the function start and one for every leader. */
    method PartitionBbHead(insns: seq<Insn>)
      requires 0 <= start && end < |insns|
      modifies this`bbs
      ensures Ascending(HeadsOf(bbs)) && AllNew(bbs)
      ensures forall h :: h in HeadsOf(bbs) <==> IsLeader(insns, View(), h)
    {
      bbs := [];
      AppendBb(start);
      var cur := start;
      while cur <= end
        invariant start <= cur && (cur <= end + 1 || cur == start)
        invariant Ascending(HeadsOf(bbs)) && AllNew(bbs)
        invariant forall h :: h in HeadsOf(bbs) <==> Leader(insns, start, if cur <= end then cur else end + 1, h)
        decreases end - cur
      {
        ghost var before := HeadsOf(bbs);
        if IsJmp(insns[cur]) && Op(insns[cur].code) != OP_EXIT && Op(insns[cur].code) != OP_CALL {
          AppendBb(cur + insns[cur].off + 1);
          if Op(insns[cur].code) != OP_JA {
            AppendBb(cur + 1);
          }
        }
        assert forall h :: h in HeadsOf(bbs) <==> h in before || Leads(insns, cur, h);
        LeaderStep(insns, start, cur);
        cur := cur + 1;
      }
    }

    /** func_partition_bb_tail: a block ends where the next one begins; indices follow the list. */
    method PartitionBbTail()
      requires |bbs| > 0
      modifies this`bbs, this`bbNum
      ensures |bbs| == old(|bbs|) && bbNum == |bbs| + NUM_FIXED_BLOCKS
      ensures forall k :: 0 <= k < |bbs| ==> Relabels(old(bbs)[k], bbs[k]) && bbs[k].idx == k + NUM_FIXED_BLOCKS
      ensures forall k :: 0 <= k < |bbs| - 1 ==> bbs[k].tail == bbs[k + 1].head - 1
      ensures bbs[|bbs| - 1].tail == end
    {
      var last := |bbs| - 1;
      var bbIdx := NUM_FIXED_BLOCKS;
      bbs := bbs[last := bbs[last].(tail := end)];
      var k := 0;
      while k != last
        invariant 0 <= k <= last == |bbs| - 1 && |bbs| == old(|bbs|)
        invariant bbIdx == k + NUM_FIXED_BLOCKS
        invariant forall j :: 0 <= j < |bbs| ==> Relabels(old(bbs)[j], bbs[j])
        invariant forall j :: 0 <= j < k ==> bbs[j].idx == j + NUM_FIXED_BLOCKS && bbs[j].tail == bbs[j + 1].head - 1
        invariant bbs[last].tail == end
        decreases last - k
      {
        bbs := bbs[k := bbs[k].(tail := bbs[k + 1].head - 1, idx := bbIdx)];
        bbIdx := bbIdx + 1;
        k := k + 1;
      }
      bbs := bbs[last := bbs[last].(idx := bbIdx)];
      bbNum := bbIdx + 1;
    }

    /** func_add_special_bb: the entry block goes first, the exit block last. */
    method AddSpecialBb()
      modifies this`bbs
      ensures bbs == [Dummy(ENTRY_BLOCK_INDEX)] + old(bbs) + [Dummy(EXIT_BLOCK_INDEX)]
    {
      bbs := [Dummy(ENTRY_BLOCK_INDEX)] + bbs;
      bbs := bbs + [Dummy(EXIT_BLOCK_INDEX)];
    }

    /** The three block passes together produce the blocks of the function. */
    method PartitionBb(insns: seq<Insn>)
      requires 0 <= start <= end < |insns|
      modifies this`bbs, this`bbNum
      ensures Blocks(insns, View())
      ensures forall k :: 0 <= k < |bbs| ==> bbs[k].prevs == [] && bbs[k].succs == []
    {
      PartitionBbHead(insns);
      ghost var headed, f := bbs, View();
      assert IsLeader(insns, f, start);
      PartitionBbTail();
      ghost var cut := bbs;
      AddSpecialBb();
      CutIsBlocks(insns, f, View(), headed, cut);
    }

    /** func_search_bb_with_head */
    method SearchBbWithHead(insn: int) returns (r: Option<nat>)
      ensures Finds(bbs, insn, r)
    {
      for k := 0 to |bbs|
        invariant forall p :: 0 <= p < k ==> bbs[p].dummy || bbs[p].head != insn
      {
        if !bbs[k].dummy && bbs[k].head == insn {
          return Some(k);
        }
      }
      return None;
    }

    method AddSucc(k: nat, e: Edge)
      requires k < |bbs|
      modifies this`bbs
      ensures bbs == old(bbs)[k := old(bbs)[k].(succs := old(bbs)[k].succs + [e])]
    {
      bbs := bbs[k := bbs[k].(succs := bbs[k].succs + [e])];
    }

    /** func_add_bb_edges: edges in and out of the special blocks, then one pass over the real blocks. */
    method AddBbEdges(insns: seq<Insn>)
      requires 1 <= Last(View())
      requires forall k :: 1 <= k <= Last(View()) ==> 0 <= bbs[k].tail < |insns|
      requires forall k :: 0 <= k < |bbs| ==> bbs[k].prevs == [] && bbs[k].succs == []
      modifies this`bbs
      ensures |bbs| == old(|bbs|)
      ensures SameBlocks(old(bbs), bbs)
      ensures Edges(insns, View())
    {
      var last := |bbs| - 2;
      AddSucc(0, Edge(0, Some(1), Fallthrough));
      bbs := bbs[last + 1 := bbs[last + 1].(prevs := bbs[last + 1].prevs + [Edge(last, Some(last + 1), Fallthrough)])];
      var k := 1;
      while k != last + 1
        invariant 1 <= k <= last + 1 == |bbs| - 1 && |bbs| == old(|bbs|)
        invariant SameBlocks(old(bbs), bbs)
        invariant bbs[0].succs == [Edge(0, Some(1), Fallthrough)]
        invariant bbs[last + 1].prevs == [Edge(last, Some(last + 1), Fallthrough)] && bbs[last + 1].succs == []
        invariant forall j :: 0 <= j <= last ==> bbs[j].prevs == []
        invariant forall j :: 1 <= j < k ==> EdgesOf(insns, bbs, j)
        invariant forall j :: k <= j <= last ==> bbs[j].succs == []
        decreases last + 1 - k
      {
        ghost var before := bbs;
        AddBlockEdges(insns, k);
        forall j | 1 <= j < k
          ensures EdgesOf(insns, bbs, j)
        {
          EdgesOfStable(insns, before, bbs, j);
        }
        k := k + 1;
      }
    }

    /** One iteration of the edge pass. */
    method AddBlockEdges(insns: seq<Insn>, k: nat)
      requires 1 <= k < |bbs| - 1 && 0 <= bbs[k].tail < |insns|
      requires bbs[k].succs == []
      modifies this`bbs
      ensures |bbs| == old(|bbs|) && SameBlocks(old(bbs), bbs)
      ensures forall j :: 0 <= j < |bbs| && j != k ==> bbs[j] == old(bbs)[j]
      ensures EdgesOf(insns, bbs, k) && bbs[k].prevs == old(bbs)[k].prevs
    {
      var insn := insns[bbs[k].tail];
      var target := bbs[k].tail + insn.off + 1;
      if !IsJmp(insn) || Op(insn.code) == OP_EXIT {
        AddSucc(k, Edge(k, Some(k + 1), Fallthrough));
      } else if Op(insn.code) == OP_JA {
        var d := SearchBbWithHead(target);
        AddSucc(k, Edge(k, d, Jump));
        FindsStable(old(bbs), bbs, target, d);
      } else {
        AddSucc(k, Edge(k, Some(k + 1), Fallthrough));
        var d := SearchBbWithHead(target);
        FindsStable(bbs, old(bbs), target, d);
        AddSucc(k, Edge(k, d, Jump));
        FindsStable(old(bbs), bbs, target, d);
      }
    }
  }

  class Cfg {
    var funcs: seq<FuncNode>
    var funcNum: int

    constructor ()
      ensures funcs == [] && funcNum == 0
    {
      funcs, funcNum := [], 0;
    }

    ghost predicate Distinct()
      reads this
    {
      forall i, j :: 0 <= i < j < |funcs| ==> funcs[i] != funcs[j]
    }

    function Views(): (fs: seq<Func>)
      reads this, funcs
      ensures |fs| == |funcs|
    {
      seq(|funcs|, i requires 0 <= i < |funcs| reads this, funcs => funcs[i].View())
    }

    ghost function Starts(): (s: seq<int>)
      reads this, funcs
      ensures |s| == |funcs|
    {
      seq(|funcs|, i requires 0 <= i < |funcs| reads this, funcs => funcs[i].start)
    }

    ghost function Idxs(): (s: seq<int>)
      reads this, funcs
      ensures |s| == |funcs|
    {
      seq(|funcs|, i requires 0 <= i < |funcs| reads this, funcs => funcs[i].idx)
    }

    /** The function list is ordered by start, holds no node twice and numbers its nodes. */
    ghost predicate Valid()
      reads this, funcs
    {
      Distinct() && funcNum == |funcs| && Ascending(Starts()) && Numbering(Idxs())
    }

    /** cfg_append_func: insert into the list ordered by start, without duplicates. */
    method AppendFunc(insn: int)
      requires Valid()
      modifies this
      ensures Valid()
      ensures forall i :: 0 <= i < |funcs| ==> funcs[i] in old(funcs) || fresh(funcs[i])
      ensures forall h :: h in Starts() <==> h in old(Starts()) || h == insn
    {
      ghost var starts, idxs, num := Starts(), Idxs(), funcNum;
      var k := 0;
      while k < |funcs|
        invariant 0 <= k <= |funcs|
        invariant forall j :: 0 <= j < k ==> starts[j] < insn
      {
        assert starts[k] == funcs[k].start;
        if funcs[k].start == insn {
          return;
        } else if funcs[k].start > insn {
          break;
        }
        k := k + 1;
      }
      assert forall j :: k <= j < |funcs| ==> insn < starts[j];
      var node := new FuncNode(insn, funcNum);
      funcs := funcs[..k] + [node] + funcs[k..];
      funcNum := funcNum + 1;
      assert Starts() == starts[..k] + [insn] + starts[k..];
      assert Idxs() == idxs[..k] + [num] + idxs[k..];
      InsertAscending(starts, k, insn);
      InsertNumber(idxs, k);
    }

    /** The head of cfg_partition_funcs: one function for slot 0 and one for every call target. */
    method CollectFuncs(insns: seq<Insn>)
      requires funcs == [] && funcNum == 0
      modifies this
      ensures Valid() && |funcs| >= 1
      ensures forall i :: 0 <= i < |funcs| ==> fresh(funcs[i])
      ensures forall h :: h in Starts() <==> StartsFunc(insns, |insns|, h)
    {
      AppendFunc(0);
      var cur := 0;
      while cur < |insns|
        invariant 0 <= cur <= |insns|
        invariant Valid()
        invariant forall i :: 0 <= i < |funcs| ==> fresh(funcs[i])
        invariant forall h :: h in Starts() <==> StartsFunc(insns, cur, h)
      {
        if insns[cur].code == CODE_CALL && insns[cur].srcReg == PSEUDO_CALL {
          AppendFunc(cur + insns[cur].off + 1);
        }
        forall h
          ensures h in Starts() <==> StartsFunc(insns, cur + 1, h)
        {
          StartsFuncStep(insns, cur, h);
        }
        cur := cur + 1;
      }
      assert StartsFunc(insns, |insns|, 0) && 0 in Starts();
    }

    /** cfg_partition_funcs */
    method PartitionFuncs(insns: seq<Insn>)
      requires funcs == [] && funcNum == 0
      requires MemorySafe(insns)
      modifies this
      ensures Valid() && Functions(insns, Views())
      ensures forall i :: 0 <= i < |funcs| ==> fresh(funcs[i])
    {
      hide Functions;
      hide MemorySafe;
      hide StartsFunc;
      CollectFuncs(insns);
      SetEnds(|insns|);
      StartsAreFunctions(insns, Starts(), Idxs(), Views());
    }

    /** The tail of cfg_partition_funcs: a function ends where the next one begins. */
    method SetEnds(n: int)
      requires Valid() && |funcs| >= 1
      modifies funcs`end
      ensures Valid() && Starts() == old(Starts())
      ensures forall i :: 0 <= i < |funcs| - 1 ==> funcs[i].end == funcs[i + 1].start - 1
      ensures funcs[|funcs| - 1].end == n - 1
    {
      var last := |funcs| - 1;
      funcs[last].end := n - 1;
      var k := 0;
      while k != last
        invariant 0 <= k <= last
        invariant funcs[last].end == n - 1
        invariant forall i :: 0 <= i < k ==> funcs[i].end == funcs[i + 1].start - 1
        decreases last - k
      {
        funcs[k].end := funcs[k + 1].start - 1;
        k := k + 1;
      }
      assert Starts() == old(Starts()) && Idxs() == old(Idxs());
    }

    /** cfg_build: on every program whose jumps stay inside the array the result is its graph. */
    method Build(insns: seq<Insn>)
      requires funcs == [] && funcNum == 0
      requires MemorySafe(insns)
      modifies this
      ensures Graph(insns, Views())
    {
      hide Functions;
      hide FuncGraph;
      PartitionFuncs(insns);
      ghost var was := Views();
      FunctionsInside(insns, was);
      for k := 0 to |funcs|
        invariant Distinct() && |funcs| == |was| && funcNum == |funcs|
        invariant forall i :: 0 <= i < |funcs| ==> fresh(funcs[i])
        invariant forall i :: k <= i < |was| ==> funcs[i].View() == was[i]
        invariant forall i :: 0 <= i < k ==> SameFunc(funcs[i].View(), was[i]) && FuncGraph(insns, funcs[i].View())
      {
        BuildFunc(insns, funcs[k]);
      }
      FunctionsStable(insns, was, Views());
    }
  }

  /** The views agree on everything but their blocks. */
  predicate SameFunc(f: Func, g: Func) { f.start == g.start && f.end == g.end && f.idx == g.idx }

  /** The body of the loop in cfg_build. */
  method BuildFunc(insns: seq<Insn>, f: FuncNode)
    requires 0 <= f.start <= f.end < |insns|
    requires MemorySafe(insns)
    modifies f`bbs, f`bbNum
    ensures FuncGraph(insns, f.View())
  {
    f.PartitionBb(insns);
    TailsInside(insns, f.View());
    ghost var cut := f.View();
    f.AddBbEdges(insns);
    BlocksStable(insns, cut, f.View());
  }

  /** Distinct numbers below the length: a numbering of the list. */
  ghost predicate Numbering(s: seq<int>) {
    (forall i :: 0 <= i < |s| ==> 0 <= s[i] < |s|) && (forall i, j :: 0 <= i < j < |s| ==> s[i] != s[j])
  }

  lemma InsertAscending(s: seq<int>, k: nat, x: int)
    requires k <= |s| && Ascending(s)
    requires forall j :: 0 <= j < k ==> s[j] < x
    requires forall j :: k <= j < |s| ==> x < s[j]
    ensures Ascending(s[..k] + [x] + s[k..])
    ensures forall h :: h in s[..k] + [x] + s[k..] <==> h in s || h == x
  {
    assert s == s[..k] + s[k..];
  }

  lemma InsertNumber(s: seq<int>, k: nat)
    requires k <= |s| && Numbering(s)
    ensures Numbering(s[..k] + [|s|] + s[k..])
  {
  }

  lemma StartsFuncStep(insns: seq<Insn>, cur: int, h: int)
    requires 0 <= cur < |insns|
    ensures StartsFunc(insns, cur + 1, h) <==> StartsFunc(insns, cur, h) || Calls(insns, cur, h)
  {
  }

  lemma StartsAreFunctions(insns: seq<Insn>, starts: seq<int>, idxs: seq<int>, fs: seq<Func>)
    requires 0 < |fs| == |starts| == |idxs| && Ascending(starts) && Numbering(idxs)
    requires forall h :: h in starts <==> StartsFunc(insns, |insns|, h)
    requires forall i :: 0 <= i < |fs| ==> fs[i].start == starts[i] && fs[i].idx == idxs[i]
    requires forall i :: 0 <= i < |fs| - 1 ==> fs[i].end == fs[i + 1].start - 1
    requires fs[|fs| - 1].end == |insns| - 1
    ensures Functions(insns, fs)
  {
  }

  lemma FunctionsInside(insns: seq<Insn>, fs: seq<Func>)
    requires MemorySafe(insns) && Functions(insns, fs)
    ensures forall i :: 0 <= i < |fs| ==> 0 <= fs[i].start <= fs[i].end < |insns|
  {
    forall i | 0 <= i < |fs|
      ensures 0 <= fs[i].start <= fs[i].end < |insns|
    {
      assert StartsFunc(insns, |insns|, fs[i].start);
      if i < |fs| - 1 {
        assert StartsFunc(insns, |insns|, fs[i + 1].start);
      }
    }
  }

  lemma FunctionsStable(insns: seq<Insn>, a: seq<Func>, b: seq<Func>)
    requires Functions(insns, a) && |a| == |b|
    requires forall i :: 0 <= i < |a| ==> SameFunc(b[i], a[i])
    ensures Functions(insns, b)
  {
    forall h
      ensures StartsFunc(insns, |insns|, h) <==> exists i :: 0 <= i < |b| && b[i].start == h
    {
      if i :| 0 <= i < |b| && b[i].start == h {
        assert a[i].start == h;
      }
    }
  }

  lemma TailsInside(insns: seq<Insn>, f: Func)
    requires MemorySafe(insns) && 0 <= f.start <= f.end < |insns| && Blocks(insns, f)
    ensures forall k :: 1 <= k <= Last(f) ==> 0 <= f.bbs[k].tail < |insns|
  {
    forall k | 1 <= k <= Last(f)
      ensures 0 <= f.bbs[k].tail < |insns|
    {
      assert IsLeader(insns, f, f.bbs[k].head);
      if k < Last(f) {
        assert IsLeader(insns, f, f.bbs[k + 1].head);
      }
    }
  }

  /** Blocks with the right heads become the function's blocks once tails, indices and special blocks are set. */
  lemma CutIsBlocks(insns: seq<Insn>, f: Func, g: Func, headed: seq<Block>, cut: seq<Block>)
    requires 0 <= f.start && f.end < |insns| && g.start == f.start && g.end == f.end
    requires AllNew(headed) && Ascending(HeadsOf(headed)) && 1 <= |headed| == |cut|
    requires forall h :: h in HeadsOf(headed) <==> IsLeader(insns, f, h)
    requires forall k :: 0 <= k < |cut| ==> Relabels(headed[k], cut[k]) && cut[k].idx == k + NUM_FIXED_BLOCKS
    requires forall k :: 0 <= k < |cut| - 1 ==> cut[k].tail == cut[k + 1].head - 1
    requires cut[|cut| - 1].tail == g.end
    requires g.bbs == [Dummy(ENTRY_BLOCK_INDEX)] + cut + [Dummy(EXIT_BLOCK_INDEX)]
    requires g.bbNum == |cut| + NUM_FIXED_BLOCKS
    ensures Blocks(insns, g)
    ensures forall k :: 0 <= k < |g.bbs| ==> g.bbs[k].prevs == [] && g.bbs[k].succs == []
  {
    var heads := HeadsOf(headed);
    forall k | 1 <= k <= |cut|
      ensures g.bbs[k] == cut[k - 1] && g.bbs[k].head == heads[k - 1]
    {
      assert Relabels(headed[k - 1], cut[k - 1]);
    }
    forall h
      ensures IsLeader(insns, g, h) <==> exists k :: 1 <= k <= Last(g) && g.bbs[k].head == h
    {
      assert IsLeader(insns, g, h) == IsLeader(insns, f, h);
      if h in heads {
        var k :| 0 <= k < |heads| && heads[k] == h;
        assert g.bbs[k + 1].head == h;
      }
    }
    forall k | 1 <= k < Last(g)
      ensures g.bbs[k].tail + 1 == g.bbs[k + 1].head
    {
      assert g.bbs[k] == cut[k - 1] && g.bbs[k + 1] == cut[k];
    }
  }

  lemma BlocksStable(insns: seq<Insn>, f: Func, g: Func)
    requires 0 <= f.start && f.end < |insns| && Blocks(insns, f)
    requires SameBlocks(f.bbs, g.bbs) && g.(bbs := f.bbs) == f
    ensures Blocks(insns, g)
  {
    assert forall k :: 0 <= k < |f.bbs| ==>
      f.bbs[k].head == g.bbs[k].head && f.bbs[k].tail == g.bbs[k].tail && f.bbs[k].idx == g.bbs[k].idx
      && f.bbs[k].dummy == g.bbs[k].dummy;
    assert forall h :: IsLeader(insns, f, h) <==> IsLeader(insns, g, h);
  }

  /** The lists agree on everything but their edges. */
  ghost predicate SameBlocks(a: seq<Block>, b: seq<Block>) {
    |a| == |b| && forall k :: 0 <= k < |a| ==> b[k].(prevs := a[k].prevs, succs := a[k].succs) == a[k]
  }

  lemma FindsStable(a: seq<Block>, b: seq<Block>, h: int, d: Option<nat>)
    requires SameBlocks(a, b)
    ensures Finds(a, h, d) <==> Finds(b, h, d)
  {
    assert forall k :: 0 <= k < |a| ==> a[k].dummy == b[k].dummy && a[k].head == b[k].head;
  }

  lemma EdgesOfStable(insns: seq<Insn>, a: seq<Block>, b: seq<Block>, k: nat)
    requires SameBlocks(a, b) && k < |a| && a[k] == b[k] && 0 <= a[k].tail < |insns|
    requires EdgesOf(insns, a, k)
    ensures EdgesOf(insns, b, k)
  {
    var target := a[k].tail + insns[a[k].tail].off + 1;
    forall d: Option<nat>
      ensures Finds(a, target, d) <==> Finds(b, target, d)
    {
      FindsStable(a, b, target, d);
    }
  }

  lemma LeaderStep(insns: seq<Insn>, lo: int, cur: int)
    requires 0 <= lo <= cur < |insns|
    ensures forall h :: Leader(insns, lo, cur + 1, h) <==> Leader(insns, lo, cur, h) || Leads(insns, cur, h)
  {
  }
}
