/**
 * The execution tree builder (core/planning/executionTree.js): nodes are created
 * one after the other and each is entered into the children of its parent.
 *
 * Identifiers are strings; the empty string stands for a missing one.
 */
module ExecutionTree {
  import opened Common

  const ROOT_ID: string := "tree:root"

  datatype NodeType = Goal | Subgoal | Branch | Milestone | Step

  // What a node is created with; its children come later.
  datatype Plan = Plan(nodeId: string, parentId: Option<string>, nodeType: NodeType)

  datatype StepInput = StepInput(stepId: string, branchId: string, milestoneId: string, goalId: string)

  datatype Input = Input(
    subgoals: seq<string>,
    branches: seq<string>,
    milestones: seq<string>,
    steps: seq<StepInput>)

  function TreeId(id: string): string {
    "tree:" + id
  }

  const ROOT: Plan := Plan(ROOT_ID, None, Goal)

  function ParentOf(input: Input, step: StepInput): string {
    if step.branchId != "" then (if step.branchId in input.branches then TreeId(step.branchId) else ROOT_ID)
    else if step.milestoneId != "" then
      (if step.milestoneId in input.milestones then TreeId(step.milestoneId) else ROOT_ID)
    else if step.goalId != "" then (if step.goalId in input.subgoals then TreeId(step.goalId) else ROOT_ID)
    else ROOT_ID
  }

  function UnderRoot(ids: seq<string>, t: NodeType): seq<Plan> {
    seq(|ids|, i requires 0 <= i < |ids| => Plan(TreeId(ids[i]), Some(ROOT_ID), t))
  }

  function StepPlans(input: Input): seq<Plan> {
    seq(|input.steps|, i requires 0 <= i < |input.steps| =>
      Plan(TreeId(input.steps[i].stepId), Some(ParentOf(input, input.steps[i])), Step))
  }

  // All nodes in the order of their creation.
  function Plans(input: Input): seq<Plan> {
    [ROOT] + UnderRoot(input.subgoals, Subgoal) + UnderRoot(input.branches, Branch)
      + UnderRoot(input.milestones, Milestone) + StepPlans(input)
  }

  // The first node with this id; the number of nodes if there is none.
  function FirstIndex(plans: seq<Plan>, id: string): (k: nat)
    ensures k <= |plans| && (k < |plans| ==> plans[k].nodeId == id)
    ensures forall i :: 0 <= i < k ==> plans[i].nodeId != id
  {
    if plans == [] then 0
    else
      var k := FirstIndex(plans[..|plans|-1], id);
      if k < |plans| - 1 then k else if plans[|plans|-1].nodeId == id then |plans| - 1 else |plans|
  }

  // Where the parent of node j is, if it was created by then.
  function ParentIndex(plans: seq<Plan>, j: nat): (k: Option<nat>)
    requires j < |plans|
    ensures k.Some? ==> k.value <= j
  {
    if plans[j].parentId.None? then None
    else
      var k := FirstIndex(plans[..j+1], plans[j].parentId.value);
      if k <= j then Some(k) else None
  }

  // The ids of the nodes whose parent is node k, in creation order.
  function Children(plans: seq<Plan>, k: nat): seq<string> {
    if plans == [] then []
    else
      var n := |plans| - 1;
      var before := Children(plans[..n], k);
      if ParentIndex(plans, n) == Some(k) then before + [plans[n].nodeId] else before
  }

  // ---------- the builder ----------

  class TreeNode {
    const plan: Plan
    var children: seq<string>

    constructor (plan: Plan)
      ensures this.plan == plan && children == []
    {
      this.plan := plan;
      children := [];
    }
  }

  ghost predicate Represents(nodes: seq<TreeNode>, plans: seq<Plan>)
    reads nodes
  {
    && |nodes| == |plans|
    && (forall i, j :: 0 <= i < j < |nodes| ==> nodes[i] != nodes[j])
    && (forall k {:trigger nodes[k].plan} :: 0 <= k < |nodes| ==> nodes[k].plan == plans[k])
    && (forall k {:trigger nodes[k].children} :: 0 <= k < |nodes| ==> nodes[k].children == Children(plans, k))
  }

  lemma ChildrenAppend(plans: seq<Plan>, p: Plan, k: nat)
    ensures Children(plans + [p], k) ==
      if ParentIndex(plans + [p], |plans|) == Some(k) then Children(plans, k) + [p.nodeId] else Children(plans, k)
  {
    assert (plans + [p])[..|plans|] == plans;
  }

  lemma {:induction false} NoChildrenBeyond(plans: seq<Plan>, k: nat)
    requires k >= |plans|
    ensures Children(plans, k) == []
  {
    if plans != [] {
      NoChildrenBeyond(plans[..|plans|-1], k);
    }
  }

  lemma {:induction false} FirstIndexAppend(plans: seq<Plan>, more: seq<Plan>, id: string)
    requires FirstIndex(plans, id) < |plans|
    ensures FirstIndex(plans + more, id) == FirstIndex(plans, id)
  {
    var k := FirstIndex(plans + more, id);
    assert forall i :: 0 <= i < |plans| ==> (plans + more)[i] == plans[i];
  }

  // `nodes.find`: the first node with this id.
  method FindNode(nodes: seq<TreeNode>, id: string, ghost plans: seq<Plan>) returns (k: nat)
    requires |nodes| == |plans| && forall i :: 0 <= i < |nodes| ==> nodes[i].plan == plans[i]
    ensures k == FirstIndex(plans, id)
  {
    k := 0;
    while k < |nodes| && nodes[k].plan.nodeId != id
      invariant k <= |nodes|
      invariant forall i :: 0 <= i < k ==> plans[i].nodeId != id
    {
      k := k + 1;
    }
  }

  // Append a new node and enter it into the children of node `parent`.
  method AddNode(nodes: seq<TreeNode>, plan: Plan, parent: nat, ghost plans: seq<Plan>) returns (r: seq<TreeNode>)
    requires Represents(nodes, plans) && parent < |nodes|
    requires plan.parentId.Some? && FirstIndex(plans, plan.parentId.value) == parent
    modifies nodes[parent]
    ensures |r| == |nodes| + 1 && nodes <= r && fresh(r[|nodes|])
    ensures Represents(r, plans + [plan])
  {
    var node := new TreeNode(plan);
    r := nodes + [node];
    r[parent].children := r[parent].children + [plan.nodeId];
    FirstIndexAppend(plans, [plan], plan.parentId.value);
    assert (plans + [plan])[..|plans|+1] == plans + [plan];
    NoChildrenBeyond(plans, |plans|);
    forall k | 0 <= k < |r|
      ensures r[k].plan == (plans + [plan])[k] && r[k].children == Children(plans + [plan], k)
    {
      ChildrenAppend(plans, plan, k);
    }
  }

  // The next element of a list that is being appended to a prefix.
  lemma AppendNext<T>(base: seq<T>, all: seq<T>, i: nat)
    requires i < |all|
    ensures base + all[..i+1] == base + all[..i] + [all[i]]
    ensures all[..i+1] == all[..i] + [all[i]]
  {
  }

  lemma AppendEnds<T>(base: seq<T>, all: seq<T>)
    ensures base + all[..0] == base && base + all[..|all|] == base + all && all[..|all|] == all
  {
  }

  // What a loop over identifiers remembers: the node of each one seen so far.
  ghost predicate Indexes(index: map<string, string>, ids: seq<string>) {
    forall id :: (id in index <==> id in ids) && (id in index ==> index[id] == TreeId(id))
  }

  lemma IndexNext(index: map<string, string>, ids: seq<string>, id: string)
    requires Indexes(index, ids)
    ensures Indexes(index[id := TreeId(id)], ids + [id])
  {
  }

  lemma StillExtends<T>(nodes: seq<T>, before: seq<T>, after: seq<T>)
    requires nodes <= before && before <= after
    ensures nodes <= after && forall k :: 0 <= k < |before| ==> after[k] == before[k]
  {
  }

  // The loops over subgoals, branches and milestones.
  method AddUnderRoot(nodes: seq<TreeNode>, ids: seq<string>, t: NodeType, ghost plans: seq<Plan>)
    returns (r: seq<TreeNode>, index: map<string, string>)
    requires Represents(nodes, plans) && plans != [] && plans[0] == ROOT
    modifies nodes[0]
    ensures nodes <= r && forall k :: |nodes| <= k < |r| ==> fresh(r[k])
    ensures Represents(r, plans + UnderRoot(ids, t))
    ensures Indexes(index, ids)
  {
    r, index := nodes, map[];
    ghost var all, sofar := UnderRoot(ids, t), plans;
    AppendEnds(plans, all);
    AppendEnds<string>([], ids);
    for i := 0 to |ids|
      invariant nodes <= r
      invariant forall k :: |nodes| <= k < |r| ==> fresh(r[k])
      invariant sofar == plans + all[..i]
      invariant Represents(r, sofar)
      invariant Indexes(index, ids[..i])
    {
      var plan := Plan(TreeId(ids[i]), Some(ROOT_ID), t);
      AppendNext(plans, all, i);
      AppendNext<string>([], ids, i);
      assert sofar[0] == ROOT;
      ghost var before := r;
      r := AddNode(r, plan, 0, sofar);
      StillExtends(nodes, before, r);
      sofar := sofar + [plan];
      IndexNext(index, ids[..i], ids[i]);
      index := index[ids[i] := plan.nodeId];
    }
  }

  function Lookup(index: map<string, string>, id: string): string {
    if id in index then index[id] else ROOT_ID
  }

  // The nodes before the steps.
  function Frame(input: Input): seq<Plan> {
    [ROOT] + UnderRoot(input.subgoals, Subgoal) + UnderRoot(input.branches, Branch)
      + UnderRoot(input.milestones, Milestone)
  }

  method BuildExecutionTree(input: Input) returns (nodes: seq<TreeNode>)
    ensures forall k :: 0 <= k < |nodes| ==> fresh(nodes[k])
    ensures Represents(nodes, Plans(input))
  {
    var root := new TreeNode(ROOT);
    nodes := [root];
    ghost var plans := [ROOT];
    assert Represents(nodes, plans);
    var goalNodes, branchNodes, milestoneNodes;
    nodes, goalNodes := AddUnderRoot(nodes, input.subgoals, Subgoal, plans);
    plans := plans + UnderRoot(input.subgoals, Subgoal);
    nodes, branchNodes := AddUnderRoot(nodes, input.branches, Branch, plans);
    plans := plans + UnderRoot(input.branches, Branch);
    nodes, milestoneNodes := AddUnderRoot(nodes, input.milestones, Milestone, plans);
    plans := plans + UnderRoot(input.milestones, Milestone);
    nodes := AddSteps(nodes, input, Indices(goalNodes, branchNodes, milestoneNodes));
  }

  // What the loops before the steps remember.
  datatype Indices = Indices(goals: map<string, string>, branches: map<string, string>, milestones: map<string, string>)
  {
    ghost predicate Covers(input: Input) {
      Indexes(goals, input.subgoals) && Indexes(branches, input.branches) && Indexes(milestones, input.milestones)
    }

    function ParentFor(step: StepInput): string {
      if step.branchId != "" then Lookup(branches, step.branchId)
      else if step.milestoneId != "" then Lookup(milestones, step.milestoneId)
      else if step.goalId != "" then Lookup(goals, step.goalId)
      else ROOT_ID
    }
  }

  // One step; only a node of the frame gets a new child.
  method AddStep(frame: seq<TreeNode>, nodes: seq<TreeNode>, input: Input, step: StepInput, indices: Indices,
                 ghost plans: seq<Plan>)
    returns (r: seq<TreeNode>)
    requires Represents(nodes, plans) && frame <= nodes
    requires indices.Covers(input) && FirstIndex(plans, ParentOf(input, step)) < |frame|
    modifies frame
    ensures |r| == |nodes| + 1 && nodes <= r && fresh(r[|nodes|])
    ensures Represents(r, plans + [Plan(TreeId(step.stepId), Some(ParentOf(input, step)), Step)])
  {
    var parentId := indices.ParentFor(step);
    assert parentId == ParentOf(input, step);
    var parent := FindNode(nodes, parentId, plans);
    assert nodes[parent] == frame[parent];
    r := AddNode(nodes, Plan(TreeId(step.stepId), Some(parentId), Step), parent, plans);
  }

  lemma ParentWithinFrame(input: Input, later: seq<Plan>, step: StepInput)
    ensures FirstIndex(Frame(input) + later, ParentOf(input, step)) < |Frame(input)|
  {
    ParentInFrame(input, step);
    FirstIndexAppend(Frame(input), later, ParentOf(input, step));
  }

  // Turn i of the loop over the steps.
  method AddNthStep(frame: seq<TreeNode>, nodes: seq<TreeNode>, input: Input, i: nat, indices: Indices)
    returns (r: seq<TreeNode>)
    requires i < |input.steps| && frame <= nodes && indices.Covers(input)
    requires |frame| == |Frame(input)| && Represents(nodes, Frame(input) + StepPlans(input)[..i])
    modifies frame
    ensures |r| == |nodes| + 1 && nodes <= r && fresh(r[|nodes|])
    ensures Represents(r, Frame(input) + StepPlans(input)[..i+1])
  {
    ghost var all := StepPlans(input);
    AppendNext(Frame(input), all, i);
    ParentWithinFrame(input, all[..i], input.steps[i]);
    r := AddStep(frame, nodes, input, input.steps[i], indices, Frame(input) + all[..i]);
  }

  method AddSteps(nodes: seq<TreeNode>, input: Input, indices: Indices) returns (r: seq<TreeNode>)
    requires Represents(nodes, Frame(input)) && indices.Covers(input)
    modifies nodes
    ensures nodes <= r && forall k :: |nodes| <= k < |r| ==> fresh(r[k])
    ensures Represents(r, Frame(input) + StepPlans(input))
  {
    r := nodes;
    AppendEnds(Frame(input), StepPlans(input));
    for i := 0 to |input.steps|
      invariant nodes <= r
      invariant forall k :: |nodes| <= k < |r| ==> fresh(r[k])
      invariant Represents(r, Frame(input) + StepPlans(input)[..i])
    {
      ghost var before := r;
      r := AddNthStep(nodes, r, input, i, indices);
      StillExtends(nodes, before, r);
    }
  }

  // ---------- every parent exists earlier ----------

  lemma UnderRootHas(ids: seq<string>, t: NodeType, id: string) returns (i: nat)
    requires id in ids
    ensures i < |ids| && UnderRoot(ids, t)[i].nodeId == TreeId(id)
  {
    i :| i < |ids| && ids[i] == id;
  }

  lemma ParentInFrame(input: Input, step: StepInput)
    ensures FirstIndex(Frame(input), ParentOf(input, step)) < |Frame(input)|
  {
    var g, b, m := UnderRoot(input.subgoals, Subgoal), UnderRoot(input.branches, Branch), UnderRoot(input.milestones, Milestone);
    var frame, id := Frame(input), ParentOf(input, step);
    if id == ROOT_ID {
      assert frame[0] == ROOT;
    } else if step.branchId != "" {
      var i := UnderRootHas(input.branches, Branch, step.branchId);
      assert frame[1 + |g| + i] == b[i];
    } else if step.milestoneId != "" {
      var i := UnderRootHas(input.milestones, Milestone, step.milestoneId);
      assert frame[1 + |g| + |b| + i] == m[i];
    } else {
      var i := UnderRootHas(input.subgoals, Subgoal, step.goalId);
      assert frame[1 + i] == g[i];
    }
  }

  // Plans in which every node but the first names an earlier node as its parent.
  ghost predicate WellFounded(plans: seq<Plan>) {
    && plans != [] && plans[0].parentId.None?
    && forall j :: 1 <= j < |plans| ==> ParentIndex(plans, j).Some? && ParentIndex(plans, j).value < j
  }

  lemma ParentsComeFirst(input: Input)
    ensures WellFounded(Plans(input))
    ensures forall j :: 1 <= j < |Plans(input)| ==>
      var p := ParentIndex(Plans(input), j);
      Plans(input)[j].parentId == Some(Plans(input)[p.value].nodeId)
  {
    var plans, frame, steps := Plans(input), Frame(input), StepPlans(input);
    assert plans == frame + steps;
    forall j | 1 <= j < |plans|
      ensures ParentIndex(plans, j).Some? && ParentIndex(plans, j).value < j
      ensures plans[j].parentId == Some(plans[ParentIndex(plans, j).value].nodeId)
    {
      if j < |frame| {
        assert plans[j] == frame[j] && frame[j].parentId == Some(ROOT_ID);
        assert plans[..j+1][0] == ROOT;
      } else {
        var step := input.steps[j - |frame|];
        assert plans[j] == steps[j - |frame|];
        ParentInFrame(input, step);
        FirstIndexAppend(frame, steps[..j + 1 - |frame|], ParentOf(input, step));
        assert plans[..j+1] == frame + steps[..j + 1 - |frame|];
      }
    }
  }

  // ---------- the shape of the tree ----------

  // All entries in the children lists of the nodes before m.
  function Entries(plans: seq<Plan>, m: nat): nat {
    if m == 0 then 0 else Entries(plans, m - 1) + |Children(plans, m - 1)|
  }

  lemma {:induction false} EntriesAppend(plans: seq<Plan>, p: Plan, k: nat, m: nat)
    requires ParentIndex(plans + [p], |plans|) == Some(k)
    ensures Entries(plans + [p], m) == Entries(plans, m) + if k < m then 1 else 0
  {
    if m > 0 {
      EntriesAppend(plans, p, k, m - 1);
      ChildrenAppend(plans, p, m - 1);
    }
  }

  lemma ParentIndexPrefix(plans: seq<Plan>, n: nat, j: nat)
    requires j < n <= |plans|
    ensures ParentIndex(plans[..n], j) == ParentIndex(plans, j)
  {
    assert plans[..n][..j+1] == plans[..j+1];
  }

  lemma WellFoundedPrefix(plans: seq<Plan>, n: nat)
    requires WellFounded(plans) && 1 <= n <= |plans|
    ensures WellFounded(plans[..n])
  {
    forall j | 1 <= j < n
      ensures ParentIndex(plans[..n], j).Some? && ParentIndex(plans[..n], j).value < j
    {
      ParentIndexPrefix(plans, n, j);
    }
  }

  // The lists together hold one entry for each node but the root.
  lemma {:induction false} OneEntryPerNode(plans: seq<Plan>)
    requires WellFounded(plans)
    ensures Entries(plans, |plans|) == |plans| - 1
  {
    var n := |plans| - 1;
    if n == 0 {
      assert ParentIndex(plans, 0) == None;
      assert Children(plans, 0) == [];
      assert Entries(plans, 1) == Entries(plans, 0) + 0;
    } else {
      var init, p := plans[..n], plans[n];
      WellFoundedPrefix(plans, n);
      OneEntryPerNode(init);
      assert plans == init + [p];
      EntriesAppend(init, p, ParentIndex(plans, n).value, n + 1);
      NoChildrenBeyond(init, n);
    }
  }

  ghost predicate DistinctIds(plans: seq<Plan>) {
    forall i, j :: 0 <= i < j < |plans| ==> plans[i].nodeId != plans[j].nodeId
  }

  lemma {:induction false} AbsentFromChildren(plans: seq<Plan>, k: nat, id: string)
    requires forall i :: 0 <= i < |plans| ==> plans[i].nodeId != id
    ensures id !in Children(plans, k)
  {
    if plans != [] {
      AbsentFromChildren(plans[..|plans|-1], k, id);
    }
  }

  // With distinct ids a node stands once in its parent's list and in no other.
  lemma {:induction false} ListedOnce(plans: seq<Plan>, j: nat, k: nat)
    requires DistinctIds(plans) && j < |plans|
    ensures multiset(Children(plans, k))[plans[j].nodeId] == if ParentIndex(plans, j) == Some(k) then 1 else 0
  {
    var n := |plans| - 1;
    var init, p := plans[..n], plans[n];
    assert plans == init + [p];
    ChildrenAppend(init, p, k);
    if j < n {
      ListedOnce(init, j, k);
      ParentIndexPrefix(plans, n, j);
    } else {
      AbsentFromChildren(init, k, p.nodeId);
    }
  }

  // A walk down the children lists from the root to node j.
  ghost predicate IsPath(plans: seq<Plan>, path: seq<nat>, j: nat) {
    && path != [] && path[0] == 0 && path[|path|-1] == j
    && (forall i :: 0 <= i < |path| ==> path[i] < |plans|)
    && forall i :: 1 <= i < |path| ==> plans[path[i]].nodeId in Children(plans, path[i-1])
  }

  ghost predicate Reachable(plans: seq<Plan>, j: nat) {
    exists path :: IsPath(plans, path, j)
  }

  lemma {:induction false} EveryNodeReachable(plans: seq<Plan>, j: nat) returns (path: seq<nat>)
    requires WellFounded(plans) && DistinctIds(plans) && j < |plans|
    ensures IsPath(plans, path, j)
  {
    if j == 0 {
      path := [0];
    } else {
      var p := ParentIndex(plans, j).value;
      var up := EveryNodeReachable(plans, p);
      ListedOnce(plans, j, p);
      path := up + [j];
      assert plans[j].nodeId in Children(plans, p);
    }
  }

  // ---------- every node, from the input ----------

  // The nodes directly below the root, at their places.
  lemma GroupNodes(input: Input, i: nat)
    ensures var (plans, s, b) := (Plans(input), |input.subgoals|, |input.branches|);
      && plans[0] == Plan("tree:root", None, Goal)
      && (i < s ==> plans[1 + i] == Plan("tree:" + input.subgoals[i], Some("tree:root"), Subgoal))
      && (i < b ==> plans[1 + s + i] == Plan("tree:" + input.branches[i], Some("tree:root"), Branch))
      && (i < |input.milestones| ==>
            plans[1 + s + b + i] == Plan("tree:" + input.milestones[i], Some("tree:root"), Milestone))
      && |plans| == 1 + s + b + |input.milestones| + |input.steps|
  {
  }

  // A step hangs under its branch; without a branch under its milestone; without
  // either under its goal; and under the root where the one that counts is unknown.
  lemma StepNode(input: Input, i: nat)
    requires i < |input.steps|
    ensures var (plans, step) := (Plans(input), input.steps[i]);
      var k := 1 + |input.subgoals| + |input.branches| + |input.milestones| + i;
      var (named, known) :=
        if step.branchId != "" then (step.branchId, input.branches)
        else if step.milestoneId != "" then (step.milestoneId, input.milestones)
        else (step.goalId, input.subgoals);
      plans[k] == Plan("tree:" + step.stepId,
                       Some(if named != "" && named in known then "tree:" + named else "tree:root"), Step)
  {
  }

  // ---------- the tree that is built ----------

  lemma TreeOfInput(input: Input)
    ensures WellFounded(Plans(input))
    ensures Entries(Plans(input), |Plans(input)|) == |Plans(input)| - 1
    ensures DistinctIds(Plans(input)) ==>
      forall j: nat :: j < |Plans(input)| ==> Reachable(Plans(input), j)
    ensures DistinctIds(Plans(input)) ==>
      forall j: nat, k: nat :: j < |Plans(input)| ==>
        multiset(Children(Plans(input), k))[Plans(input)[j].nodeId]
          == if ParentIndex(Plans(input), j) == Some(k) then 1 else 0
  {
    var plans := Plans(input);
    ParentsComeFirst(input);
    OneEntryPerNode(plans);
    if DistinctIds(plans) {
      forall j: nat, k: nat | j < |plans|
        ensures multiset(Children(plans, k))[plans[j].nodeId] == if ParentIndex(plans, j) == Some(k) then 1 else 0
      {
        ListedOnce(plans, j, k);
      }
      forall j: nat | j < |plans| ensures Reachable(plans, j) {
        var path := EveryNodeReachable(plans, j);
      }
    }
  }
}
