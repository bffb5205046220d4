/**
 * The evolution-chain tree and the depth-first walk (`dfs`) of
 * assets/js/app.js that turns it into root-to-leaf paths of steps.
 */
module EvoChain {
  import opened Wrappers
  import opened EvoCondition

  /**
   * A node of the chain (`chain` and every element of `evolves_to`): the
   * species name, the species id taken from the species URL (0 when the URL
   * holds none, as `Number('')` gives), the `evolution_details` of the edge
   * entering this node (`None` when the field is missing) and the children.
   * A missing `evolves_to` is the empty sequence.
   */
  datatype ChainLink = ChainLink(
    species: string,
    speciesId: nat,
    details: Option<seq<Condition>>,
    evolvesTo: seq<ChainLink>)

  /** One step of a path: `{name, id, cond}`. */
  datatype Step = Step(name: string, id: nat, cond: Option<Condition>)

  type Path = seq<Step>

  predicate IsLeaf(node: ChainLink) {
    |node.evolvesTo| == 0
  }

  /**
   * The condition an edge carries: the first entry of its details, or none
   * when the details are missing or empty. Later alternatives are dropped.
   */
  function EdgeCondition(details: Option<seq<Condition>>): (c: Option<Condition>)
    ensures c.None? <==> details.None? || |details.value| == 0
    ensures c.Some? ==> c.value == details.value[0]
  {
    if details.Some? && |details.value| > 0 then Some(details.value[0]) else None
  }

  function StepOf(node: ChainLink, cond: Option<Condition>): Step {
    Step(node.species, node.speciesId, cond)
  }

  /**
   * `dfs(node, current, condFromPrev)`: extends `current` with the node's
   * step; a leaf emits the extended path, any other node hands it to each
   * child in order, with the child's own edge condition.
   */
  function Walk(node: ChainLink, current: Path, cond: Option<Condition>): seq<Path>
    decreases node
  {
    var next := current + [StepOf(node, cond)];
    if IsLeaf(node) then [next] else WalkAll(node.evolvesTo, next)
  }

  /** The walk continued into each child in turn, each child entered with its own edge condition. */
  function WalkAll(children: seq<ChainLink>, current: Path): seq<Path>
    decreases children
  {
    if |children| == 0 then []
    else Walk(children[0], current, EdgeCondition(children[0].details)) + WalkAll(children[1..], current)
  }

  /** The walk started at the root with an empty path: no root, no paths; the root step has no condition. */
  function RawPaths(root: Option<ChainLink>): seq<Path> {
    if root.None? then [] else Walk(root.value, [], None)
  }

  /** The number of leaves under a node. */
  function LeafCount(node: ChainLink): (n: nat)
    ensures n >= 1
    decreases node
  {
    if IsLeaf(node) then 1 else LeafCountAll(node.evolvesTo)
  }

  function LeafCountAll(children: seq<ChainLink>): (n: nat)
    ensures |children| > 0 ==> n >= 1
    decreases children
  {
    if |children| == 0 then 0 else LeafCount(children[0]) + LeafCountAll(children[1..])
  }

  /**
   * `steps` runs from `node` down to a leaf: its first step is the node's
   * step with the condition of the edge that entered it, and every later step
   * is a child of the step before it, carrying that child's edge condition.
   */
  ghost predicate IsChainPath(node: ChainLink, steps: Path, cond: Option<Condition>)
    decreases node
  {
    && |steps| > 0
    && steps[0] == StepOf(node, cond)
    && if IsLeaf(node) then |steps| == 1
       else exists k :: 0 <= k < |node.evolvesTo|
                && IsChainPath(node.evolvesTo[k], steps[1..], EdgeCondition(node.evolvesTo[k].details))
  }

  /** Every path the walk emits is `current` followed by a path from the node to a leaf. */
  lemma {:induction false} WalkSound(node: ChainLink, current: Path, cond: Option<Condition>)
    ensures forall p :: p in Walk(node, current, cond) ==>
      |p| > |current| && p[..|current|] == current && IsChainPath(node, p[|current|..], cond)
    decreases node
  {
    var next := current + [StepOf(node, cond)];
    if !IsLeaf(node) {
      WalkAllSound(node.evolvesTo, next);
      forall p | p in Walk(node, current, cond)
        ensures |p| > |current| && p[..|current|] == current && IsChainPath(node, p[|current|..], cond)
      {
        assert p[..|next|] == next;
        assert p[..|current|] == next[..|current|] == current;
        var k :| 0 <= k < |node.evolvesTo|
          && IsChainPath(node.evolvesTo[k], p[|next|..], EdgeCondition(node.evolvesTo[k].details));
        assert p[|current|..][1..] == p[|next|..];
        assert p[|current|..][0] == p[|current|] == next[|current|];
      }
    }
  }

  lemma {:induction false} WalkAllSound(children: seq<ChainLink>, current: Path)
    ensures forall p :: p in WalkAll(children, current) ==>
      && |p| > |current| && p[..|current|] == current
      && exists k :: 0 <= k < |children|
           && IsChainPath(children[k], p[|current|..], EdgeCondition(children[k].details))
    decreases children
  {
    if |children| > 0 {
      WalkSound(children[0], current, EdgeCondition(children[0].details));
      WalkAllSound(children[1..], current);
      forall p | p in WalkAll(children, current)
        ensures && |p| > |current| && p[..|current|] == current
                && exists k :: 0 <= k < |children|
                     && IsChainPath(children[k], p[|current|..], EdgeCondition(children[k].details))
      {
        if p in Walk(children[0], current, EdgeCondition(children[0].details)) {
          assert IsChainPath(children[0], p[|current|..], EdgeCondition(children[0].details));
        } else {
          assert p in WalkAll(children[1..], current);
          var k :| 0 <= k < |children[1..]|
            && IsChainPath(children[1..][k], p[|current|..], EdgeCondition(children[1..][k].details));
          assert children[1..][k] == children[k + 1];
        }
      }
    }
  }

  /** Every path from the node to a leaf is emitted, after `current`. */
  lemma {:induction false} WalkComplete(node: ChainLink, current: Path, cond: Option<Condition>, steps: Path)
    requires IsChainPath(node, steps, cond)
    ensures current + steps in Walk(node, current, cond)
    decreases node
  {
    var next := current + [StepOf(node, cond)];
    if IsLeaf(node) {
      assert steps == [StepOf(node, cond)];
    } else {
      var k :| 0 <= k < |node.evolvesTo|
        && IsChainPath(node.evolvesTo[k], steps[1..], EdgeCondition(node.evolvesTo[k].details));
      WalkAllComplete(node.evolvesTo, next, k, steps[1..]);
      assert steps == [steps[0]] + steps[1..];
      assert next + steps[1..] == current + steps;
    }
  }

  lemma {:induction false} WalkAllComplete(children: seq<ChainLink>, current: Path, k: nat, steps: Path)
    requires k < |children|
    requires IsChainPath(children[k], steps, EdgeCondition(children[k].details))
    ensures current + steps in WalkAll(children, current)
    decreases children
  {
    if k == 0 {
      WalkComplete(children[0], current, EdgeCondition(children[0].details), steps);
    } else {
      assert children[1..][k - 1] == children[k];
      WalkAllComplete(children[1..], current, k - 1, steps);
    }
  }

  /** The walk emits exactly one path per leaf. */
  lemma {:induction false} WalkCount(node: ChainLink, current: Path, cond: Option<Condition>)
    ensures |Walk(node, current, cond)| == LeafCount(node)
    decreases node
  {
    if !IsLeaf(node) {
      WalkAllCount(node.evolvesTo, current + [StepOf(node, cond)]);
    }
  }

  lemma {:induction false} WalkAllCount(children: seq<ChainLink>, current: Path)
    ensures |WalkAll(children, current)| == LeafCountAll(children)
    decreases children
  {
    if |children| > 0 {
      WalkCount(children[0], current, EdgeCondition(children[0].details));
      WalkAllCount(children[1..], current);
    }
  }

  /**
   * The path from `node` down to its `i`-th leaf, counting leaves left to
   * right: the children are taken in order, child `k` owning the block of
   * leaf numbers after those of the children before it.
   */
  ghost function LeafPathAt(node: ChainLink, cond: Option<Condition>, i: nat): (steps: Path)
    requires i < LeafCount(node)
    ensures |steps| > 0 && steps[0] == StepOf(node, cond)
    decreases node
  {
    [StepOf(node, cond)] + (if IsLeaf(node) then [] else LeafPathAmong(node.evolvesTo, i))
  }

  /** The path from the first of `children` that owns leaf number `i` down to that leaf. */
  ghost function LeafPathAmong(children: seq<ChainLink>, i: nat): Path
    requires i < LeafCountAll(children)
    decreases children
  {
    var first := LeafCount(children[0]);
    if i < first then LeafPathAt(children[0], EdgeCondition(children[0].details), i)
    else LeafPathAmong(children[1..], i - first)
  }

  /**
   * The walk emits its paths in depth-first order, children in order, one per
   * leaf: its `i`-th path is `current` followed by the path to the `i`-th leaf.
   */
  lemma {:induction false} WalkInLeafOrder(node: ChainLink, current: Path, cond: Option<Condition>)
    ensures |Walk(node, current, cond)| == LeafCount(node)
    ensures forall i :: 0 <= i < LeafCount(node) ==>
      Walk(node, current, cond)[i] == current + LeafPathAt(node, cond, i)
    decreases node
  {
    WalkCount(node, current, cond);
    var next := current + [StepOf(node, cond)];
    if IsLeaf(node) {
      assert LeafPathAt(node, cond, 0) == [StepOf(node, cond)];
    } else {
      WalkAllInLeafOrder(node.evolvesTo, next);
      forall i | 0 <= i < LeafCount(node)
        ensures Walk(node, current, cond)[i] == current + LeafPathAt(node, cond, i)
      {
        var tail := LeafPathAmong(node.evolvesTo, i);
        assert next + tail == current + ([StepOf(node, cond)] + tail);
      }
    }
  }

  lemma {:induction false} WalkAllInLeafOrder(children: seq<ChainLink>, current: Path)
    ensures |WalkAll(children, current)| == LeafCountAll(children)
    ensures forall i :: 0 <= i < LeafCountAll(children) ==>
      WalkAll(children, current)[i] == current + LeafPathAmong(children, i)
    decreases children
  {
    WalkAllCount(children, current);
    if |children| > 0 {
      var c := children[0];
      var head := Walk(c, current, EdgeCondition(c.details));
      var rest := WalkAll(children[1..], current);
      WalkInLeafOrder(c, current, EdgeCondition(c.details));
      WalkAllInLeafOrder(children[1..], current);
      assert WalkAll(children, current) == head + rest;
      forall i | 0 <= i < LeafCountAll(children)
        ensures WalkAll(children, current)[i] == current + LeafPathAmong(children, i)
      {
        if i >= |head| {
          assert (head + rest)[i] == rest[i - |head|];
        }
      }
    }
  }

  /**
   * The raw paths of a chain are exactly its root-to-leaf paths, one per
   * leaf and in leaf order; each starts with the root's step, whose condition
   * is `None`.
   */
  lemma RawPathsAreRootToLeafPaths(root: ChainLink)
    ensures |RawPaths(Some(root))| == LeafCount(root)
    ensures forall p :: p in RawPaths(Some(root)) <==> IsChainPath(root, p, None)
    ensures forall p :: p in RawPaths(Some(root)) ==> |p| > 0 && p[0] == Step(root.species, root.speciesId, None)
    ensures forall i :: 0 <= i < LeafCount(root) ==> RawPaths(Some(root))[i] == LeafPathAt(root, None, i)
  {
    WalkInLeafOrder(root, [], None);
    forall i | 0 <= i < LeafCount(root) ensures RawPaths(Some(root))[i] == LeafPathAt(root, None, i) {
      assert [] + LeafPathAt(root, None, i) == LeafPathAt(root, None, i);
    }
    WalkCount(root, [], None);
    WalkSound(root, [], None);
    forall p | IsChainPath(root, p, None) ensures p in RawPaths(Some(root)) {
      WalkComplete(root, [], None, p);
      assert [] + p == p;
    }
    forall p | p in RawPaths(Some(root)) ensures IsChainPath(root, p, None) {
      assert p[0..] == p;
    }
  }
}
