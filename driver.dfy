/**
 * The instruction loop of main (prim2.c, lines 247-286) over instructions
 * already read: every line whose letter is not 'f' is kept in instr_list,
 * and an 'f' first applies, in arrival order, the instructions kept since
 * the previous 'f' ('i', 'c' and 'd'; any other letter is kept but never
 * applied), then runs findMST on the graph.
 *
 * Snapshots is the batched behaviour as a fold, Eager the behaviour of a
 * graph that applies every instruction as it arrives; the two produce the
 * same graphs at every 'f' (BatchingIsEager). Run is the loop itself over
 * the Graph object.
 */
module Driver {
  import opened GraphModel
  import opened GraphStore
  import opened Trees
  import opened PrimEngine
  import opened Optimality

  /** A kept line: its letter and its numbers (1-based ids; a 'd' line
      carries no weight, and none is read). */
  datatype Instr = Instr(op: char, src: int, dest: int, weight: int)

  /** A line of the input after the vertex count. */
  datatype Command = Find | Keep(instr: Instr)

  /** What the mutator the letter selects needs of its numbers. */
  ghost predicate Applicable(n: nat, ins: Instr)
  {
    match ins.op
    case 'i' => Endpoints(n, ins.src, ins.dest) && 0 < ins.weight <= INT_MAX
    case 'c' => Endpoints(n, ins.src, ins.dest) && 0 < ins.weight <= INT_MAX
    case 'd' => Endpoints(n, ins.src, ins.dest)
    case _ => true
  }

  ghost predicate AllApplicable(n: nat, p: seq<Instr>)
  {
    forall k :: 0 <= k < |p| ==> Applicable(n, p[k])
  }

  ghost predicate CommandsApplicable(n: nat, cmds: seq<Command>)
  {
    forall k :: 0 <= k < |cmds| && cmds[k].Keep? ==> Applicable(n, cmds[k].instr)
  }

  /** The dispatch of lines 252-263 for one kept instruction. */
  ghost function Apply(g: GraphState, ins: Instr): (r: GraphState)
    requires Valid(g) && Applicable(g.n, ins)
    ensures Valid(r) && r.n == g.n
    ensures ins.op !in {'i', 'c', 'd'} ==> r == g
  {
    match ins.op
    case 'i' => InsertEdgeSpec(g, ins.src, ins.dest, ins.weight); InsertEdge(g, ins.src, ins.dest, ins.weight)
    case 'c' => ChangeWeightSpec(g, ins.src, ins.dest, ins.weight); ChangeWeight(g, ins.src, ins.dest, ins.weight)
    case 'd' => DeleteEdgeSpec(g, ins.src, ins.dest); DeleteEdge(g, ins.src, ins.dest)
    case _ => g
  }

  /** The kept instructions applied in arrival order. */
  ghost function ApplyAll(g: GraphState, p: seq<Instr>): (r: GraphState)
    requires Valid(g) && AllApplicable(g.n, p)
    ensures Valid(r) && r.n == g.n
    decreases |p|
  {
    if p == [] then g
    else
      assert AllApplicable(g.n, p[..|p| - 1]);
      Apply(ApplyAll(g, p[..|p| - 1]), p[|p| - 1])
  }

  /** The number of 'f' lines. */
  function Finds(cmds: seq<Command>): nat
  {
    if cmds == [] then 0 else (if cmds[0].Find? then 1 else 0) + Finds(cmds[1..])
  }

  /** The graph findMST sees at each 'f', when the instructions in pending
      are still to be applied: batched as main does it. */
  ghost function Snapshots(g: GraphState, pending: seq<Instr>, cmds: seq<Command>): (r: seq<GraphState>)
    requires Valid(g) && AllApplicable(g.n, pending) && CommandsApplicable(g.n, cmds)
    ensures |r| == Finds(cmds)
    ensures forall k :: 0 <= k < |r| ==> Valid(r[k]) && r[k].n == g.n
    decreases |cmds|
  {
    if cmds == [] then []
    else
      assert CommandsApplicable(g.n, cmds[1..]);
      match cmds[0]
      case Find =>
        var g' := ApplyAll(g, pending);
        [g'] + Snapshots(g', [], cmds[1..])
      case Keep(ins) =>
        Snapshots(g, pending + [ins], cmds[1..])
  }

  /** The graph at each 'f' when every instruction takes effect on arrival. */
  ghost function Eager(g: GraphState, cmds: seq<Command>): (r: seq<GraphState>)
    requires Valid(g) && CommandsApplicable(g.n, cmds)
    ensures |r| == Finds(cmds)
    ensures forall k :: 0 <= k < |r| ==> Valid(r[k]) && r[k].n == g.n
    decreases |cmds|
  {
    if cmds == [] then []
    else
      assert CommandsApplicable(g.n, cmds[1..]);
      match cmds[0]
      case Find => [g] + Eager(g, cmds[1..])
      case Keep(ins) => Eager(Apply(g, ins), cmds[1..])
  }

  /** Applying the kept instructions only at the next 'f' shows findMST the
      same graphs as applying each one as it arrives. */
  lemma {:induction false} BatchingIsEager(g: GraphState, pending: seq<Instr>, cmds: seq<Command>)
    requires Valid(g) && AllApplicable(g.n, pending) && CommandsApplicable(g.n, cmds)
    ensures Snapshots(g, pending, cmds) == Eager(ApplyAll(g, pending), cmds)
    decreases |cmds|
  {
    if cmds != [] {
      assert CommandsApplicable(g.n, cmds[1..]);
      match cmds[0]
      case Find =>
        var g' := ApplyAll(g, pending);
        BatchingIsEager(g', [], cmds[1..]);
      case Keep(ins) =>
        var p := pending + [ins];
        assert p[..|p| - 1] == pending;
        BatchingIsEager(g, p, cmds[1..]);
    }
  }

  /** Instructions after the last 'f' never reach the graph findMST sees. */
  lemma {:induction false} TrailingInstructionsIgnored(g: GraphState, pending: seq<Instr>, cmds: seq<Command>, ins: Instr)
    requires Valid(g) && AllApplicable(g.n, pending) && CommandsApplicable(g.n, cmds) && Applicable(g.n, ins)
    ensures CommandsApplicable(g.n, cmds + [Keep(ins)])
    ensures Snapshots(g, pending, cmds + [Keep(ins)]) == Snapshots(g, pending, cmds)
    decreases |cmds|
  {
    var c := cmds + [Keep(ins)];
    assert CommandsApplicable(g.n, c);
    if cmds == [] {
      assert c[1..] == [];
      assert Snapshots(g, pending + [ins], []) == [];
    } else {
      assert c[1..] == cmds[1..] + [Keep(ins)];
      assert CommandsApplicable(g.n, cmds[1..]);
      match cmds[0]
      case Find =>
        TrailingInstructionsIgnored(ApplyAll(g, pending), [], cmds[1..], ins);
      case Keep(i0) =>
        TrailingInstructionsIgnored(g, pending + [i0], cmds[1..], ins);
    }
  }

  /** What findMST may write for the graph g: "Disconnected" exactly when g
      has no edge or is not connected over edges lighter than INT_MAX, and
      otherwise the weight of a spanning tree over such edges. */
  ghost predicate Reports(g: GraphState, out: Outcome)
  {
    && Square(g.adj, g.n)
    && (out == Disconnected <==> g.numEdges == 0 || !Connected(g.adj, g.n))
    && (out.Weight? ==>
          exists tree :: && MinimumTree(g.adj, g.n, tree)
                         && (forall v :: 0 < v < g.n ==> Usable(g.adj, g.n, tree[v], v))
                         && out.w == TreeWeight(g.adj, g.n, tree))
  }

  /** findMST leaves the graph alone and its answer is fixed by the graph:
      two reports on the same graph agree, since all minimum spanning trees
      weigh the same. */
  lemma ReportsDeterministic(g: GraphState, out1: Outcome, out2: Outcome)
    requires Reports(g, out1) && Reports(g, out2)
    ensures out1 == out2
  {
    if out1.Weight? && out2.Weight? {
      var t1 :| MinimumTree(g.adj, g.n, t1) && out1.w == TreeWeight(g.adj, g.n, t1);
      var t2 :| MinimumTree(g.adj, g.n, t2) && out2.w == TreeWeight(g.adj, g.n, t2);
      assert TreeWeight(g.adj, g.n, t1) <= TreeWeight(g.adj, g.n, t2);
      assert TreeWeight(g.adj, g.n, t2) <= TreeWeight(g.adj, g.n, t1);
    }
  }

  /** The dispatch of lines 254-263 on the Graph object. */
  method Dispatch(graph: Graph, ins: Instr)
    requires graph.Valid() && Applicable(graph.n, ins)
    modifies graph, graph.adj
    ensures graph.Valid() && graph.Abs() == Apply(old(graph.Abs()), ins)
  {
    if ins.op == 'i' {
      graph.InsertEdge(ins.src, ins.dest, ins.weight);
    } else if ins.op == 'c' {
      graph.ChangeWeight(ins.src, ins.dest, ins.weight);
    } else if ins.op == 'd' {
      graph.DeleteEdge(ins.src, ins.dest);
    }
  }

  /** The loop of lines 252-263: the instructions kept since the last 'f',
      applied in order. */
  method ApplyPending(graph: Graph, instrList: seq<Instr>, startIndex: int)
    requires graph.Valid() && 0 <= startIndex <= |instrList|
    requires AllApplicable(graph.n, instrList[startIndex..])
    modifies graph, graph.adj
    ensures graph.Valid() && graph.Abs() == ApplyAll(old(graph.Abs()), instrList[startIndex..])
  {
    ghost var g0 := graph.Abs();
    ghost var pending := instrList[startIndex..];
    for i := startIndex to |instrList|
      invariant graph.Valid()
      invariant graph.Abs() == ApplyAll(g0, pending[..i - startIndex])
    {
      assert instrList[i] == pending[i - startIndex];
      ApplyAllSnoc(g0, pending, i - startIndex);
      Dispatch(graph, instrList[i]);
    }
    assert pending[..|instrList| - startIndex] == pending;
  }

  /** One more kept instruction applied. */
  lemma ApplyAllSnoc(g: GraphState, p: seq<Instr>, j: int)
    requires Valid(g) && AllApplicable(g.n, p) && 0 <= j < |p|
    ensures AllApplicable(g.n, p[..j]) && Applicable(g.n, p[j])
    ensures ApplyAll(g, p[..j + 1]) == Apply(ApplyAll(g, p[..j]), p[j])
  {
    assert p[..j + 1][..j] == p[..j];
  }

  lemma SuffixApplicable(n: nat, cmds: seq<Command>, i: int)
    requires CommandsApplicable(n, cmds) && 0 <= i <= |cmds|
    ensures CommandsApplicable(n, cmds[i..])
  {
    forall k | 0 <= k < |cmds| - i && cmds[i..][k].Keep?
      ensures Applicable(n, cmds[i..][k].instr)
    {
      assert cmds[i..][k] == cmds[i + k];
    }
  }

  /** Each answer in outs is a report on the graph in the same place of done. */
  ghost predicate AllReport(done: seq<GraphState>, outs: seq<Outcome>)
    decreases |done|
  {
    && |done| == |outs|
    && (done != [] ==>
          && Reports(done[|done| - 1], outs[|outs| - 1])
          && AllReport(done[..|done| - 1], outs[..|outs| - 1]))
  }

  lemma AllReportSnoc(done: seq<GraphState>, outs: seq<Outcome>, g: GraphState, out: Outcome)
    requires AllReport(done, outs) && Reports(g, out)
    ensures AllReport(done + [g], outs + [out])
  {
    assert (done + [g])[..|done|] == done;
    assert (outs + [out])[..|outs|] == outs;
  }

  lemma {:induction false} AllReportIndex(done: seq<GraphState>, outs: seq<Outcome>, k: int)
    requires AllReport(done, outs) && 0 <= k < |done|
    ensures Reports(done[k], outs[k])
    decreases |done|
  {
    if k < |done| - 1 {
      AllReportIndex(done[..|done| - 1], outs[..|outs| - 1], k);
    }
  }

  /** An 'f' (lines 250-266): the kept instructions applied, then findMST. */
  method Flush(graph: Graph, instrList: seq<Instr>, startIndex: int) returns (out: Outcome)
    requires graph.Valid() && 0 <= startIndex <= |instrList|
    requires AllApplicable(graph.n, instrList[startIndex..])
    modifies graph, graph.adj
    ensures graph.Valid() && graph.Abs() == ApplyAll(old(graph.Abs()), instrList[startIndex..])
    ensures Reports(graph.Abs(), out)
  {
    ApplyPending(graph, instrList, startIndex);
    ghost var tree;
    out, tree := FindMST(graph);
  }

  /** Flush, with its answer added to the answers so far. */
  method FlushInto(graph: Graph, instrList: seq<Instr>, startIndex: int,
                   ghost done: seq<GraphState>, outs: seq<Outcome>) returns (out: Outcome)
    requires graph.Valid() && 0 <= startIndex <= |instrList|
    requires AllApplicable(graph.n, instrList[startIndex..]) && AllReport(done, outs)
    modifies graph, graph.adj
    ensures graph.Valid() && graph.Abs() == ApplyAll(old(graph.Abs()), instrList[startIndex..])
    ensures AllReport(done + [graph.Abs()], outs + [out])
  {
    out := Flush(graph, instrList, startIndex);
    AllReportSnoc(done, outs, graph.Abs(), out);
  }

  /** After idx commands, done holds the graphs of the 'f's so far and the
      graph g with the pending instructions gives the rest. */
  ghost predicate Progress(n: nat, cmds: seq<Command>, idx: int, g: GraphState, pending: seq<Instr>,
                           done: seq<GraphState>)
  {
    && 0 <= idx <= |cmds| && CommandsApplicable(n, cmds) && Valid(Empty(n))
    && Valid(g) && g.n == n && AllApplicable(n, pending)
    && (SuffixApplicable(n, cmds, idx);
        Snapshots(Empty(n), [], cmds) == done + Snapshots(g, pending, cmds[idx..]))
  }

  /** An 'f' moves the graph after the pending instructions into done. */
  lemma ProgressFind(n: nat, cmds: seq<Command>, idx: int, g: GraphState, pending: seq<Instr>,
                     done: seq<GraphState>)
    requires Progress(n, cmds, idx, g, pending, done) && idx < |cmds| && cmds[idx].Find?
    ensures Progress(n, cmds, idx + 1, ApplyAll(g, pending), [], done + [ApplyAll(g, pending)])
  {
    SuffixApplicable(n, cmds, idx);
    SuffixApplicable(n, cmds, idx + 1);
    assert cmds[idx..][1..] == cmds[idx + 1..];
    var g' := ApplyAll(g, pending);
    var rest := Snapshots(g', [], cmds[idx + 1..]);
    assert Snapshots(g, pending, cmds[idx..]) == [g'] + rest;
    assert done + ([g'] + rest) == (done + [g']) + rest;
  }

  /** Any other line joins the pending instructions. */
  lemma ProgressKeep(n: nat, cmds: seq<Command>, idx: int, g: GraphState, pending: seq<Instr>,
                     done: seq<GraphState>)
    requires Progress(n, cmds, idx, g, pending, done) && idx < |cmds| && cmds[idx].Keep?
    ensures Progress(n, cmds, idx + 1, g, pending + [cmds[idx].instr], done)
  {
    SuffixApplicable(n, cmds, idx);
    SuffixApplicable(n, cmds, idx + 1);
    assert cmds[idx..][1..] == cmds[idx + 1..];
    assert Applicable(n, cmds[idx].instr);
  }

  /** At the end, done holds the graph of every 'f'. */
  lemma ProgressDone(n: nat, cmds: seq<Command>, g: GraphState, pending: seq<Instr>, done: seq<GraphState>)
    requires Progress(n, cmds, |cmds|, g, pending, done)
    ensures Snapshots(Empty(n), [], cmds) == done
  {
    SuffixApplicable(n, cmds, |cmds|);
    assert cmds[|cmds|..] == [];
  }

  /** Once every command is read, outs answers each 'f' of cmds. */
  lemma RunConcludes(n: nat, cmds: seq<Command>, g: GraphState, pending: seq<Instr>,
                     done: seq<GraphState>, outs: seq<Outcome>)
    requires Progress(n, cmds, |cmds|, g, pending, done) && AllReport(done, outs)
    ensures |outs| == Finds(cmds)
    ensures forall k :: 0 <= k < |outs| ==> Reports(Snapshots(Empty(n), [], cmds)[k], outs[k])
  {
    ProgressDone(n, cmds, g, pending, done);
    forall k | 0 <= k < |outs| ensures Reports(Snapshots(Empty(n), [], cmds)[k], outs[k]) {
      AllReportIndex(done, outs, k);
    }
  }

  /** One line of the instruction list (lines 250-266): an 'f' applies the
      kept instructions and answers, any other line is kept. */
  method Step(graph: Graph, cmds: seq<Command>, idx: int, instrList: seq<Instr>, startIndex: int,
              ghost done: seq<GraphState>, outs: seq<Outcome>)
    returns (instrList': seq<Instr>, startIndex': int, ghost done': seq<GraphState>, outs': seq<Outcome>)
    requires graph.Valid() && 0 <= startIndex <= |instrList| && 0 <= idx < |cmds|
    requires Progress(graph.n, cmds, idx, graph.Abs(), instrList[startIndex..], done) && AllReport(done, outs)
    modifies graph, graph.adj
    ensures graph.Valid() && 0 <= startIndex' <= |instrList'|
    ensures Progress(graph.n, cmds, idx + 1, graph.Abs(), instrList'[startIndex'..], done')
    ensures AllReport(done', outs')
  {
    match cmds[idx]
    case Find =>
      ProgressFind(graph.n, cmds, idx, graph.Abs(), instrList[startIndex..], done);
      var out := FlushInto(graph, instrList, startIndex, done, outs);
      done', outs' := done + [graph.Abs()], outs + [out];
      instrList', startIndex' := instrList, |instrList|;
      assert instrList'[startIndex'..] == [];
    case Keep(ins) =>
      ProgressKeep(graph.n, cmds, idx, graph.Abs(), instrList[startIndex..], done);
      instrList', startIndex' := instrList + [ins], startIndex;
      assert instrList[startIndex..] + [ins] == instrList'[startIndex'..];
      done', outs' := done, outs;
  }

  /** The loop of main: one findMST result per 'f', each about the graph
      with every instruction kept before that 'f' applied in order. */
  method Run(numNodes: nat, cmds: seq<Command>) returns (outs: seq<Outcome>)
    requires CommandsApplicable(numNodes, cmds)
    ensures |outs| == Finds(cmds)
    ensures forall k :: 0 <= k < |outs| ==> Reports(Snapshots(Empty(numNodes), [], cmds)[k], outs[k])
  {
    var graph := new Graph(numNodes);
    var instrList: seq<Instr> := [];
    var startIndex := 0;
    ghost var done: seq<GraphState> := [];
    outs := [];
    for idx := 0 to |cmds|
      invariant graph.Valid() && graph.n == numNodes && 0 <= startIndex <= |instrList|
      invariant Progress(numNodes, cmds, idx, graph.Abs(), instrList[startIndex..], done)
      invariant AllReport(done, outs)
    {
      instrList, startIndex, done, outs := Step(graph, cmds, idx, instrList, startIndex, done, outs);
    }
    RunConcludes(numNodes, cmds, graph.Abs(), instrList[startIndex..], done, outs);
  }
}
