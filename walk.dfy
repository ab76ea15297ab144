/** The walk addBuilding takes down the folder names of a path, as a relation between
    the dictionaries before it, the dictionaries now and the Districts it went through. */
module DistrictWalk {
  import opened Geometry
  import opened MapObjects
  import opened LayoutTree
  import opened Draws

  /** Wherever t had no entry for names[i] in chain[i], that name is not one every object
      inherits, and chain[i + 1] is a District t did not have, made for that name at the
      position Offset(draws(i)). */
  ghost predicate Creates(t: Tree, chain: seq<District>, names: seq<string>, n: nat, draws: nat -> Draw)
    requires n < |chain| && n <= |names|
  {
    forall i :: 0 <= i < n && !Present(t, chain[i], names[i]) ==>
      && names[i] !in InheritedKeys
      && chain[i + 1] !in t
      && chain[i + 1].name == names[i]
      && chain[i + 1].vertices == Degenerate(Offset(draws(i)))
      && chain[i + 1].force == Origin
  }

  /** Where addBuilding's walk stands: the children dictionaries and depths so far, the
      Districts it went through, and whether it has made a District yet. */
  datatype WalkState = WalkState(tree: Tree, depth: map<District, nat>, chain: seq<District>, creating: bool)

  /** w is a walk down names from t0 (depths depth0) after |w.chain| - 1 steps; once it
      has made a District, every later step makes one too. */
  ghost predicate Walk(t0: Tree, depth0: map<District, nat>, names: seq<string>, draws: nat -> Draw, w: WalkState) {
    && 1 <= |w.chain|
    && WalkFrame(t0, depth0, w.tree, w.depth, w.chain, names, |w.chain| - 1, w.creating)
    && WalkRecord(t0, w.chain, names, |w.chain| - 1, draws)
  }

  /** The dictionaries and depths after d steps: the chain sits at depths 0 to d, the
      dictionaries are t0 linked along it, and until the first new District nothing
      has changed. */
  ghost predicate WalkFrame(t0: Tree, depth0: map<District, nat>, tree: Tree, depth: map<District, nat>,
                            chain: seq<District>, names: seq<string>, d: nat, creating: bool)
  {
    && |chain| == d + 1 && d <= |names|
    && (forall i :: 0 <= i < |chain| ==> chain[i] in depth && depth[chain[i]] == i)
    && depth.Keys == depth0.Keys + (set c | c in chain)
    && (forall c :: c in depth0 ==> depth[c] == depth0[c])
    && Layered(tree, depth)
    && t0.Keys <= tree.Keys
    && tree == Link(t0, chain, names[..d])
    && (!creating ==> tree == t0 && depth == depth0 && Walked(t0, chain, names, d))
    && (creating ==> chain[d] !in t0 && tree[chain[d]] == map[])
  }

  /** How each of the first d steps relates to t0: through an entry t0 had, or into a
      District made for that name. */
  ghost predicate WalkRecord(t0: Tree, chain: seq<District>, names: seq<string>, d: nat, draws: nat -> Draw)
  {
    && |chain| == d + 1 && d <= |names|
    && Reuses(t0, chain, names, d)
    && Creates(t0, chain, names, d, draws)
  }

  /** The walk starts at a District of t0 at depth 0. */
  lemma WalkStart(t0: Tree, depth0: map<District, nat>, root: District, names: seq<string>, draws: nat -> Draw)
    returns (w: WalkState)
    requires Layered(t0, depth0) && root in depth0 && depth0[root] == 0
    ensures w == WalkState(t0, depth0, [root], false)
    ensures Walk(t0, depth0, names, draws, w)
  {
    w := WalkState(t0, depth0, [root], false);
    assert names[..0] == [];
    assert depth0.Keys + (set c | c in [root]) == depth0.Keys;
  }

  /** What the first n steps of a walk down names from t0 amount to, in terms of t0 alone:
      n + 1 distinct Districts, entering every District t0 had under the name and making
      one for every name it lacked. */
  ghost predicate WentDown(t0: Tree, chain: seq<District>, names: seq<string>, n: nat, draws: nat -> Draw) {
    && |chain| == n + 1 && n <= |names|
    && Distinct(chain)
    && Reuses(t0, chain, names, n)
    && Creates(t0, chain, names, n, draws)
  }

  /** A walk went down its names, and its dictionaries are t0 linked along its chain. The
      Districts of a walk lie at different depths, so none repeats. */
  lemma WalkSummary(t0: Tree, depth0: map<District, nat>, names: seq<string>, draws: nat -> Draw, w: WalkState)
    requires Walk(t0, depth0, names, draws, w)
    ensures WentDown(t0, w.chain, names, |w.chain| - 1, draws)
    ensures w.tree == Link(t0, w.chain, names[..|w.chain| - 1])
    ensures w.depth.Keys == depth0.Keys + (set c | c in w.chain)
  {
    forall i, j | 0 <= i < j < |w.chain|
      ensures w.chain[i] != w.chain[j]
    {
      assert w.depth[w.chain[i]] == i && w.depth[w.chain[j]] == j;
    }
  }

  /** One step of the walk from w, into next: a District made for names[d] at Offset(draws(d))
      where d is the step's index, or the District already under names[d]. */
  lemma WalkAdvance(t0: Tree, depth0: map<District, nat>, names: seq<string>, draws: nat -> Draw,
                    w: WalkState, next: District, made: bool)
    returns (w': WalkState)
    requires Walk(t0, depth0, names, draws, w) && |w.chain| <= |names|
    requires made ==>
               var d := |w.chain| - 1;
               && names[d] !in w.tree[w.chain[d]] && names[d] !in InheritedKeys && next !in w.tree
               && next.name == names[d] && next.vertices == Degenerate(Offset(draws(d))) && next.force == Origin
    requires !made ==>
               var d := |w.chain| - 1;
               && names[d] in w.tree[w.chain[d]] && w.tree[w.chain[d]][names[d]] == DistrictNode(next)
    ensures Walk(t0, depth0, names, draws, w')
    ensures w'.chain == w.chain + [next] && w'.chain[0] == w.chain[0] && w'.chain[|w.chain|] == next
    ensures made ==>
              var d := |w.chain| - 1;
              && w'.tree == Touch(Put(w.tree, w.chain[d], names[d], DistrictNode(next)), next)
              && w'.depth == w.depth[next := w.depth[w.chain[d]] + 1]
    ensures !made ==> w'.tree == w.tree && w'.depth == w.depth && next in depth0
  {
    var d := |w.chain| - 1;
    if made {
      WalkCreate(t0, depth0, w.tree, w.depth, w.chain, names, d, w.creating, draws, next);
      w' := WalkState(Touch(Put(w.tree, w.chain[d], names[d], DistrictNode(next)), next),
                      w.depth[next := d + 1], w.chain + [next], true);
    } else {
      WalkReuse(t0, depth0, w.tree, w.depth, w.chain, names, d, w.creating, draws, next);
      w' := WalkState(w.tree, w.depth, w.chain + [next], false);
    }
  }

  /** A step through a missing name: a new District c, one level down, enters the
      dictionaries, and from then on the walk is creating. */
  lemma WalkCreate(t0: Tree, depth0: map<District, nat>, tree: Tree, depth: map<District, nat>,
                   chain: seq<District>, names: seq<string>, d: nat, creating: bool, draws: nat -> Draw,
                   c: District)
    requires WalkFrame(t0, depth0, tree, depth, chain, names, d, creating)
    requires WalkRecord(t0, chain, names, d, draws)
    requires d < |names| && names[d] !in tree[chain[d]] && names[d] !in InheritedKeys && c !in tree
    requires c.name == names[d] && c.vertices == Degenerate(Offset(draws(d))) && c.force == Origin
    ensures !Present(t0, chain[d], names[d])
    ensures WalkFrame(t0, depth0, Touch(Put(tree, chain[d], names[d], DistrictNode(c)), c), depth[c := d + 1],
                      chain + [c], names, d + 1, true)
    ensures WalkRecord(t0, chain + [c], names, d + 1, draws)
  {
    WalkCreateFrame(t0, depth0, tree, depth, chain, names, d, creating, c);
    ReusesSnoc(t0, chain, names, d, c);
    CreatesSnoc(t0, chain, names, d, draws, c);
  }

  /** The dictionaries and depths after a step that makes the District c. */
  lemma WalkCreateFrame(t0: Tree, depth0: map<District, nat>, tree: Tree, depth: map<District, nat>,
                        chain: seq<District>, names: seq<string>, d: nat, creating: bool, c: District)
    requires WalkFrame(t0, depth0, tree, depth, chain, names, d, creating)
    requires d < |names| && names[d] !in tree[chain[d]] && c !in tree
    ensures !Present(t0, chain[d], names[d]) && c !in t0
    ensures WalkFrame(t0, depth0, Touch(Put(tree, chain[d], names[d], DistrictNode(c)), c), depth[c := d + 1],
                      chain + [c], names, d + 1, true)
  {
    ChainSnoc(depth0, depth, chain, c);
    LinkStepLayered(tree, depth, chain[d], names[d], c);
    LinkStep(t0, chain, names, d, c);
  }

  /** A step through a name t0 did not have, into a District t0 did not have, keeps Creates. */
  lemma CreatesSnoc(t0: Tree, chain: seq<District>, names: seq<string>, d: nat, draws: nat -> Draw, c: District)
    requires |chain| == d + 1 && d < |names|
    requires Creates(t0, chain, names, d, draws) && c !in t0 && names[d] !in InheritedKeys
    requires c.name == names[d] && c.vertices == Degenerate(Offset(draws(d))) && c.force == Origin
    ensures Creates(t0, chain + [c], names, d + 1, draws)
  {
    var chain' := chain + [c];
    forall i | 0 <= i < d + 1 && !Present(t0, chain'[i], names[i])
      ensures names[i] !in InheritedKeys && chain'[i + 1] !in t0 && chain'[i + 1].name == names[i]
      ensures chain'[i + 1].vertices == Degenerate(Offset(draws(i))) && chain'[i + 1].force == Origin
    {
      assert chain'[i] == chain[i];
      if i < d {
        assert chain'[i + 1] == chain[i + 1];
      }
    }
  }

  /** A step through a name that holds a District already: nothing changes but the
      chain, so the walk has not begun creating and t0 had the entry. */
  lemma WalkReuse(t0: Tree, depth0: map<District, nat>, tree: Tree, depth: map<District, nat>,
                  chain: seq<District>, names: seq<string>, d: nat, creating: bool, draws: nat -> Draw,
                  next: District)
    requires WalkFrame(t0, depth0, tree, depth, chain, names, d, creating)
    requires d < |names| && chain[d] in tree && names[d] in tree[chain[d]]
    requires tree[chain[d]][names[d]] == DistrictNode(next)
    ensures !creating && Present(t0, chain[d], names[d])
    ensures WalkFrame(t0, depth0, tree, depth, chain + [next], names, d + 1, false)
    ensures WalkRecord(t0, chain + [next], names, d + 1, draws)
  {
    WalkReuseFrame(t0, depth0, tree, depth, chain, names, d, creating, next);
    WalkedSteps(t0, chain + [next], names, d + 1, draws);
  }

  /** The dictionaries and depths after a step into the existing District next. */
  lemma WalkReuseFrame(t0: Tree, depth0: map<District, nat>, tree: Tree, depth: map<District, nat>,
                       chain: seq<District>, names: seq<string>, d: nat, creating: bool, next: District)
    requires WalkFrame(t0, depth0, tree, depth, chain, names, d, creating)
    requires d < |names| && chain[d] in tree && names[d] in tree[chain[d]]
    requires tree[chain[d]][names[d]] == DistrictNode(next)
    ensures !creating && Present(t0, chain[d], names[d])
    ensures WalkFrame(t0, depth0, tree, depth, chain + [next], names, d + 1, false)
    ensures Walked(t0, chain + [next], names, d + 1)
  {
    assert !creating;
    assert next in depth && depth[next] == d + 1;
    PutExisting(tree, chain[d], names[d], DistrictNode(next));
    LinkStep(t0, chain, names, d, next);
    ChainExtend(depth, chain, next);
    WalkedSnoc(t0, chain, names, d, next);
  }

  /** Stepping into a District the depths already place one level further down keeps
      the depth bookkeeping, with no new District. */
  lemma ChainExtend(depth: map<District, nat>, chain: seq<District>, next: District)
    requires forall i :: 0 <= i < |chain| ==> chain[i] in depth && depth[chain[i]] == i
    requires next in depth && depth[next] == |chain|
    ensures forall i :: 0 <= i < |chain| + 1 ==> (chain + [next])[i] in depth && depth[(chain + [next])[i]] == i
    ensures (set x | x in chain + [next]) == (set x | x in chain) + {next}
  {
    var chain' := chain + [next];
    forall i | 0 <= i < |chain'|
      ensures chain'[i] in depth && depth[chain'[i]] == i
    {
      if i < |chain| {
        assert chain'[i] == chain[i];
      }
    }
  }

  /** A step through an entry t had extends a walk through entries t had. */
  lemma WalkedSnoc(t: Tree, chain: seq<District>, names: seq<string>, d: nat, next: District)
    requires |chain| == d + 1 && d < |names| && Walked(t, chain, names, d)
    requires Present(t, chain[d], names[d]) && t[chain[d]][names[d]] == DistrictNode(next)
    ensures Walked(t, chain + [next], names, d + 1)
  {
    var chain' := chain + [next];
    forall i | 0 <= i < d + 1
      ensures Present(t, chain'[i], names[i]) && t[chain'[i]][names[i]] == DistrictNode(chain'[i + 1])
    {
      assert chain'[i] == chain[i];
      if i < d {
        assert chain'[i + 1] == chain[i + 1];
      }
    }
  }

  /** A walk through entries t had reused every one of them and created nothing. */
  lemma WalkedSteps(t: Tree, chain: seq<District>, names: seq<string>, n: nat, draws: nat -> Draw)
    requires n < |chain| && n <= |names| && Walked(t, chain, names, n)
    ensures Reuses(t, chain, names, n) && Creates(t, chain, names, n, draws)
  {
  }
}
