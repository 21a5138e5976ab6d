/** The review walk (review.js:87-93 and 191-198): `startReview` calls
    `reviewOneStep(root, root.children[0])`, and `reviewOneStep(parent, node)` annotates
    `node` and then awaits itself on each child of `node`, in array order. The first throw
    rejects every pending call, so the walk stops there. */
module Traversal {
  import opened Wrappers
  import opened GameTree
  import opened AnalysisParser
  import opened SideToMove
  import opened Annotation

  /** One call `reviewOneStep(parent, node)`: the parent's id and the node analysed. */
  datatype Step = Step(parent: NodeId, node: Node)

  /** The calls `reviewOneStep(parent, n)` would make if none threw, itself first, in the
      order they run. */
  function Steps(parent: NodeId, n: Node): (r: seq<Step>)
    ensures |r| > 0 && r[0] == Step(parent, n)
    decreases n, 1
  {
    [Step(parent, n)] + ChildSteps(n.id, n.children)
  }

  /** `for (let child of node.children) await this.reviewOneStep(node, child)`. */
  function ChildSteps(parent: NodeId, cs: seq<Node>): seq<Step>
    decreases cs, 0
  {
    if cs == [] then [] else Steps(parent, cs[0]) + ChildSteps(parent, cs[1..])
  }

  /** The ids of a subtree in pre-order, children in array order: the reference order. */
  function IdList(n: Node): seq<NodeId>
    decreases n, 1
  {
    [n.id] + ChildIdList(n.children)
  }

  function ChildIdList(cs: seq<Node>): seq<NodeId>
    decreases cs, 0
  {
    if cs == [] then [] else IdList(cs[0]) + ChildIdList(cs[1..])
  }

  /** `c` is the id of a child of a node with id `p` somewhere in the subtree `n`. */
  predicate HasEdge(n: Node, p: NodeId, c: NodeId)
    decreases n, 1
  {
    ChildEdge(n.id, n.children, p, c)
  }

  /** The same for the children `cs` of a node with id `q`. */
  predicate ChildEdge(q: NodeId, cs: seq<Node>, p: NodeId, c: NodeId)
    decreases cs, 0
  {
    (p == q && exists j :: 0 <= j < |cs| && cs[j].id == c)
    || exists j :: 0 <= j < |cs| && HasEdge(cs[j], p, c)
  }

  /** The walk visits the subtree in pre-order: the analysed node of each call, in the order
      the calls run, is the pre-order list of ids, one call per node of the subtree. */
  lemma {:induction false} StepsFollowPreOrder(parent: NodeId, n: Node)
    ensures |Steps(parent, n)| == |IdList(n)|
    ensures forall k :: 0 <= k < |IdList(n)| ==> Steps(parent, n)[k].node.id == IdList(n)[k]
    decreases n, 1
  {
    ChildStepsFollowPreOrder(n.id, n.children);
  }

  lemma {:induction false} ChildStepsFollowPreOrder(parent: NodeId, cs: seq<Node>)
    ensures |ChildSteps(parent, cs)| == |ChildIdList(cs)|
    ensures forall k :: 0 <= k < |ChildIdList(cs)| ==> ChildSteps(parent, cs)[k].node.id == ChildIdList(cs)[k]
    decreases cs, 0
  {
    if cs != [] {
      StepsFollowPreOrder(parent, cs[0]);
      ChildStepsFollowPreOrder(parent, cs[1..]);
    }
  }

  /** Every call after the first annotates a node together with its real parent. */
  lemma {:induction false} StepsUseRealParents(parent: NodeId, n: Node)
    ensures forall k :: 1 <= k < |Steps(parent, n)| ==>
              HasEdge(n, Steps(parent, n)[k].parent, Steps(parent, n)[k].node.id)
    decreases n, 1
  {
    var r := Steps(parent, n);
    ChildStepsUseRealParents(n.id, n.children);
    forall k | 1 <= k < |r|
      ensures HasEdge(n, r[k].parent, r[k].node.id)
    {
      assert r[k] == ChildSteps(n.id, n.children)[k - 1];
    }
  }

  lemma {:induction false} ChildStepsUseRealParents(q: NodeId, cs: seq<Node>)
    ensures forall k :: 0 <= k < |ChildSteps(q, cs)| ==>
              ChildEdge(q, cs, ChildSteps(q, cs)[k].parent, ChildSteps(q, cs)[k].node.id)
    decreases cs, 0
  {
    if cs != [] {
      var first: seq<Step> := Steps(q, cs[0]);
      var rest: seq<Step> := ChildSteps(q, cs[1..]);
      var all: seq<Step> := ChildSteps(q, cs);
      assert all == first + rest;
      StepsUseRealParents(q, cs[0]);
      ChildStepsUseRealParents(q, cs[1..]);
      forall k | 0 <= k < |all|
        ensures ChildEdge(q, cs, all[k].parent, all[k].node.id)
      {
        if k == 0 {
          assert all[0] == Step(q, cs[0]);
        } else if k < |first| {
          assert all[k] == first[k];
          assert HasEdge(cs[0], first[k].parent, first[k].node.id);
        } else {
          var s := rest[k - |first|];
          assert all[k] == s;
          assert ChildEdge(q, cs[1..], s.parent, s.node.id);
          if p :| 0 <= p < |cs[1..]| && cs[1..][p].id == s.node.id {
            assert cs[p + 1].id == s.node.id;
          } else {
            var p :| 0 <= p < |cs[1..]| && HasEdge(cs[1..][p], s.parent, s.node.id);
            assert HasEdge(cs[p + 1], s.parent, s.node.id);
          }
        }
      }
    }
  }

  /** `startReview`: the walk starts at the root's first child, with the root as its parent;
      a root without children makes `reviewOneStep` throw on `node.data` (`None`). */
  function StartReview(root: Node): (r: Option<seq<Step>>)
    ensures r.None? <==> root.children == []
    ensures r.Some? ==> |r.value| > 0 && r.value[0] == Step(root.id, root.children[0])
  {
    if root.children == [] then None else Some(Steps(root.id, root.children[0]))
  }

  /** No id occurs twice in a list. */
  predicate Distinct(ids: seq<NodeId>) {
    forall i, j :: 0 <= i < j < |ids| ==> ids[i] != ids[j]
  }

  /** Every id of the `j`th child's subtree occurs in the ids of all the children. */
  lemma {:induction false} ChildIdsInclude(cs: seq<Node>, j: nat, x: NodeId)
    requires j < |cs| && x in IdList(cs[j])
    ensures x in ChildIdList(cs)
    decreases j
  {
    if j > 0 {
      ChildIdsInclude(cs[1..], j - 1, x);
    }
  }

  /** In a list of distinct ids `[r] + a + c`, no id of `a` is `r` or occurs in `c`. */
  lemma DistinctParts(r: NodeId, a: seq<NodeId>, c: seq<NodeId>)
    requires Distinct([r] + a + c)
    ensures forall k :: 0 <= k < |a| ==> a[k] != r && a[k] !in c
  {
    var all := [r] + a + c;
    forall k | 0 <= k < |a|
      ensures a[k] != r && a[k] !in c
    {
      assert all[0] == r && all[1 + k] == a[k];
      forall i | 0 <= i < |c|
        ensures a[k] != c[i]
      {
        assert all[1 + |a| + i] == c[i];
      }
    }
  }

  /** With distinct ids, the review visits exactly the ids of the root's first child's subtree:
      neither the root nor anything under its other children is annotated as a node. */
  lemma OnlyFirstChildVisited(root: Node)
    requires root.children != [] && Distinct(IdList(root))
    ensures var steps := StartReview(root).value;
            && |steps| == |IdList(root.children[0])|
            && (forall k :: 0 <= k < |steps| ==> steps[k].node.id == IdList(root.children[0])[k])
            && (forall k :: 0 <= k < |steps| ==> steps[k].node.id != root.id)
            && (forall j, k, x :: 1 <= j < |root.children| && 0 <= k < |steps| && x in IdList(root.children[j]) ==>
                  steps[k].node.id != x)
  {
    var cs := root.children;
    var steps := StartReview(root).value;
    var ids := IdList(cs[0]);
    var rest := ChildIdList(cs[1..]);
    StepsFollowPreOrder(root.id, cs[0]);
    assert IdList(root) == [root.id] + ids + rest;
    DistinctParts(root.id, ids, rest);
    forall j, k, x | 1 <= j < |cs| && 0 <= k < |steps| && x in IdList(cs[j])
      ensures steps[k].node.id != x
    {
      ChildIdsInclude(cs[1..], j - 1, x);
      assert steps[k].node.id == ids[k] && ids[k] !in rest;
    }
  }

  /** Where a walk stopped: the property map left, how many calls annotated their node, and
      the error of the call that threw, if one did. */
  datatype Outcome = Outcome(props: PropertyMap, done: nat, error: Option<ReviewError>)

  /** Whether the call `s` gets past its annotation with the analysis texts `texts` gives
      for its node: the records parse and summarize. The map annotated plays no part. */
  predicate Annotates(s: Step, texts: NodeId -> seq<string>, host: Host) {
    var sign := SideSign(s.node.data);
    ParseAll(texts(s.node.id), sign, host).Success?
    && Summarize(ParseAll(texts(s.node.id), sign, host).value, sign, host).Success?
  }

  /** The reference: the calls `steps` run one after the other, each annotating the map the
      previous one left, until the first that throws. */
  function Run(m: PropertyMap, steps: seq<Step>, texts: NodeId -> seq<string>, host: Host): (o: Outcome)
    ensures o.done <= |steps|
    ensures o.error.None? <==> o.done == |steps|
    ensures o.props.Keys == m.Keys
    decreases |steps|
  {
    if steps == [] then Outcome(m, 0, None)
    else
      match ReviewStep(m, steps[0].parent, steps[0].node, texts(steps[0].node.id), host)
      case Failure(e) => Outcome(m, 0, Some(e))
      case Success(m1) =>
        var o := Run(m1, steps[1..], texts, host);
        Outcome(o.props, o.done + 1, o.error)
  }

  /** `reviewOneStep(parent, n)`: annotate `n`, then await the calls on its children in
      order; a throw rejects the call and, through the `await`s, every caller. */
  function Walk(m: PropertyMap, parent: NodeId, n: Node, texts: NodeId -> seq<string>, host: Host): Outcome
    decreases n, 1
  {
    match ReviewStep(m, parent, n, texts(n.id), host)
    case Failure(e) => Outcome(m, 0, Some(e))
    case Success(m1) =>
      var o := WalkChildren(m1, n.id, n.children, texts, host);
      Outcome(o.props, o.done + 1, o.error)
  }

  /** `for (let child of node.children) await this.reviewOneStep(node, child)`. */
  function WalkChildren(m: PropertyMap, parent: NodeId, cs: seq<Node>, texts: NodeId -> seq<string>, host: Host)
    : Outcome
    decreases cs, 0
  {
    if cs == [] then Outcome(m, 0, None)
    else
      var o := Walk(m, parent, cs[0], texts, host);
      if o.error.Some? then o
      else
        var o2 := WalkChildren(o.props, parent, cs[1..], texts, host);
        Outcome(o2.props, o.done + o2.done, o2.error)
  }

  /** A run stops at the first call that throws: every call before it annotates, and that
      call does not and its error is the outcome's. */
  lemma {:induction false} RunStopsAtFirstThrow(m: PropertyMap, steps: seq<Step>, texts: NodeId -> seq<string>, host: Host)
    ensures var o := Run(m, steps, texts, host);
            && (forall k :: 0 <= k < o.done ==> Annotates(steps[k], texts, host))
            && (o.error.Some? ==> !Annotates(steps[o.done], texts, host))
            && (o.error.Some? ==>
                  o.error.value == ReviewStep(o.props, steps[o.done].parent, steps[o.done].node,
                                              texts(steps[o.done].node.id), host).error)
    decreases |steps|
  {
    if steps != [] {
      var s := steps[0];
      match ReviewStep(m, s.parent, s.node, texts(s.node.id), host)
      case Failure(e) =>
      case Success(m1) =>
        RunStopsAtFirstThrow(m1, steps[1..], texts, host);
        var o := Run(m1, steps[1..], texts, host);
        forall k | 0 <= k < o.done + 1
          ensures Annotates(steps[k], texts, host)
        {
          if k > 0 {
            assert steps[k] == steps[1..][k - 1];
          }
        }
    }
  }

  /** The map a run leaves is the one the calls before the first throw produce on their own. */
  lemma {:induction false} RunKeepsPrefix(m: PropertyMap, steps: seq<Step>, texts: NodeId -> seq<string>, host: Host)
    ensures var o := Run(m, steps, texts, host);
            Run(m, steps[..o.done], texts, host) == Outcome(o.props, o.done, None)
    decreases |steps|
  {
    if steps != [] {
      var s := steps[0];
      match ReviewStep(m, s.parent, s.node, texts(s.node.id), host)
      case Failure(e) =>
        assert steps[..0] == [];
      case Success(m1) =>
        RunKeepsPrefix(m1, steps[1..], texts, host);
        var o := Run(m1, steps[1..], texts, host);
        assert steps[..o.done + 1][1..] == steps[1..][..o.done];
    }
  }

  /** Running `a` and then `b` is running `a + b`: `b` starts only when `a` did not throw. */
  lemma {:induction false} RunAppend(m: PropertyMap, a: seq<Step>, b: seq<Step>, texts: NodeId -> seq<string>, host: Host)
    ensures Run(m, a + b, texts, host) ==
              var o := Run(m, a, texts, host);
              if o.error.Some? then o
              else
                var o2 := Run(o.props, b, texts, host);
                Outcome(o2.props, o.done + o2.done, o2.error)
    decreases |a|
  {
    if a == [] {
      assert a + b == b;
    } else {
      assert (a + b)[0] == a[0] && (a + b)[1..] == a[1..] + b;
      match ReviewStep(m, a[0].parent, a[0].node, texts(a[0].node.id), host)
      case Failure(e) =>
      case Success(m1) =>
        RunAppend(m1, a[1..], b, texts, host);
    }
  }

  /** The recursive walk is the run of its calls in pre-order. */
  lemma {:induction false} WalkIsRun(m: PropertyMap, parent: NodeId, n: Node, texts: NodeId -> seq<string>, host: Host)
    ensures Walk(m, parent, n, texts, host) == Run(m, Steps(parent, n), texts, host)
    decreases n, 1
  {
    var steps := Steps(parent, n);
    assert steps[0] == Step(parent, n) && steps[1..] == ChildSteps(n.id, n.children);
    match ReviewStep(m, parent, n, texts(n.id), host)
    case Failure(e) =>
    case Success(m1) =>
      WalkChildrenIsRun(m1, n.id, n.children, texts, host);
  }

  lemma {:induction false} WalkChildrenIsRun(m: PropertyMap, parent: NodeId, cs: seq<Node>, texts: NodeId -> seq<string>,
                                             host: Host)
    ensures WalkChildren(m, parent, cs, texts, host) == Run(m, ChildSteps(parent, cs), texts, host)
    decreases cs, 0
  {
    if cs == [] {
    } else {
      RunAppend(m, Steps(parent, cs[0]), ChildSteps(parent, cs[1..]), texts, host);
      WalkIsRun(m, parent, cs[0], texts, host);
      var o := Walk(m, parent, cs[0], texts, host);
      if o.error.None? {
        WalkChildrenIsRun(o.props, parent, cs[1..], texts, host);
      }
    }
  }

  /** The review from `startReview` annotates the first child's subtree in pre-order up to the
      first node whose analysis throws, and nothing after it: the annotated nodes are exactly
      the ids before that node, the map left is theirs alone, and a review that does not throw
      annotates the whole subtree. */
  lemma ReviewStopsAtFirstThrow(root: Node, m: PropertyMap, texts: NodeId -> seq<string>, host: Host)
    requires root.children != []
    ensures var steps := StartReview(root).value;
            var ids := IdList(root.children[0]);
            var o := Walk(m, root.id, root.children[0], texts, host);
            && |steps| == |ids|
            && o.done <= |ids|
            && (forall k :: 0 <= k < o.done ==> steps[k].node.id == ids[k] && Annotates(steps[k], texts, host))
            && (o.error.None? <==> o.done == |ids|)
            && (o.error.Some? ==> steps[o.done].node.id == ids[o.done] && !Annotates(steps[o.done], texts, host))
            && Run(m, steps[..o.done], texts, host) == Outcome(o.props, o.done, None)
  {
    var steps := StartReview(root).value;
    WalkIsRun(m, root.id, root.children[0], texts, host);
    RunStopsAtFirstThrow(m, steps, texts, host);
    RunKeepsPrefix(m, steps, texts, host);
    StepsFollowPreOrder(root.id, root.children[0]);
  }
}
