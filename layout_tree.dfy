/** The map's folder tree seen as a value: for every District, the contents of its
    children dictionary. The operations here are the dictionary writes addBuilding
    makes, and the lemmas say where those writes land. */
module LayoutTree {
  import opened Wrappers
  import opened MapObjects

  /** The children dictionary of every District of a map, keyed by the District. */
  type Tree = map<District, map<string, Child>>

  /** The children of d, or none when t does not know d. */
  function Kids(t: Tree, d: District): map<string, Child> {
    if d in t then t[d] else map[]
  }

  /** d.children[key] = value */
  function Put(t: Tree, d: District, key: string, value: Child): Tree {
    t[d := Kids(t, d)[key := value]]
  }

  /** Registers d with an empty dictionary, unless t already has it. */
  function Touch(t: Tree, d: District): Tree {
    if d in t then t else t[d := map[]]
  }

  /** The walk down a chain of Districts: for each i in order, chain[i] gets
      chain[i + 1] under names[i]. */
  function Link(t: Tree, chain: seq<District>, names: seq<string>): Tree
    requires |chain| == |names| + 1
    decreases |names|
  {
    if |names| == 0 then t
    else
      var k := |names| - 1;
      var before := Link(t, chain[..k + 1], names[..k]);
      Touch(Put(before, chain[k], names[k], DistrictNode(chain[k + 1])), chain[k + 1])
  }

  /** The whole of addBuilding's effect: link the chain of Districts along the
      directory names, then write the Building under the last name in the last District. */
  function Attach(t: Tree, chain: seq<District>, names: seq<string>, leaf: Building): Tree
    requires |names| >= 1 && |chain| == |names|
  {
    var k := |names| - 1;
    Put(Link(t, chain, names[..k]), chain[k], names[k], BuildingNode(leaf))
  }

  /** What Attach stores under names[i] of chain[i]. */
  function NextChild(chain: seq<District>, leaf: Building, i: nat): Child
    requires i < |chain|
  {
    if i + 1 < |chain| then DistrictNode(chain[i + 1]) else BuildingNode(leaf)
  }

  ghost predicate Distinct(chain: seq<District>) {
    forall i, j :: 0 <= i < j < |chain| ==> chain[i] != chain[j]
  }

  /** The District reached from d by following names through District children. */
  function Resolve(t: Tree, d: District, names: seq<string>): Option<District>
    decreases |names|
  {
    if |names| == 0 then Some(d)
    else if names[0] in Kids(t, d) && Kids(t, d)[names[0]].DistrictNode? then
      Resolve(t, Kids(t, d)[names[0]].district, names[1..])
    else None
  }

  /** Every District of t has a depth, and a District's District children lie one
      level deeper. This keeps the child relation free of cycles. */
  ghost predicate Layered(t: Tree, depth: map<District, nat>) {
    && t.Keys == depth.Keys
    && forall d, k | d in t && k in t[d] && t[d][k].DistrictNode? ::
         t[d][k].district in depth && depth[t[d][k].district] == depth[d] + 1
  }

  /** t has an entry named key in d's dictionary. */
  predicate Present(t: Tree, d: District, key: string) {
    d in t && key in t[d]
  }

  /** For the first n names, chain[i + 1] is what t already had under names[i] in
      chain[i], wherever t had an entry there: existing Districts are entered, not replaced. */
  ghost predicate Reuses(t: Tree, chain: seq<District>, names: seq<string>, n: nat)
    requires n < |chain| && n <= |names|
  {
    forall i :: 0 <= i < n && Present(t, chain[i], names[i]) ==> t[chain[i]][names[i]] == DistrictNode(chain[i + 1])
  }

  /** The first n names all lead through Districts t already had, along the chain. */
  ghost predicate Walked(t: Tree, chain: seq<District>, names: seq<string>, n: nat)
    requires n < |chain| && n <= |names|
  {
    forall i :: 0 <= i < n ==> Present(t, chain[i], names[i]) && t[chain[i]][names[i]] == DistrictNode(chain[i + 1])
  }

  /** One more step of the walk, as Link takes it. */
  lemma LinkSnoc(t: Tree, chain: seq<District>, names: seq<string>, c: District, name: string)
    requires |chain| == |names| + 1
    ensures Link(t, chain + [c], names + [name])
            == Touch(Put(Link(t, chain, names), chain[|chain| - 1], name, DistrictNode(c)), c)
  {
    assert (chain + [c])[..|names| + 1] == chain;
    assert (names + [name])[..|names|] == names;
  }

  /** Step d of the walk along names, in the terms a walk that has taken d steps uses. */
  lemma LinkStep(t: Tree, chain: seq<District>, names: seq<string>, d: nat, c: District)
    requires |chain| == d + 1 && d < |names|
    ensures Link(t, chain + [c], names[..d + 1])
            == Touch(Put(Link(t, chain, names[..d]), chain[d], names[d], DistrictNode(c)), c)
  {
    assert names[..d + 1] == names[..d] + [names[d]];
    LinkSnoc(t, chain, names[..d], c, names[d]);
  }

  /** Writing a value that is already there changes nothing. */
  lemma PutExisting(t: Tree, d: District, key: string, value: Child)
    requires d in t && key in t[d] && t[d][key] == value
    ensures Put(t, d, key, value) == t
  {
    assert t[d][key := value] == t[d];
  }

  /** Along a chain of distinct Districts, Link changes each District's dictionary in
      exactly one entry, and leaves the last District and every other District alone. */
  lemma {:induction false} LinkAt(t: Tree, chain: seq<District>, names: seq<string>)
    requires |chain| == |names| + 1 && Distinct(chain)
    ensures forall i :: 0 <= i < |names| ==>
              chain[i] in Link(t, chain, names) &&
              Link(t, chain, names)[chain[i]] == Kids(t, chain[i])[names[i] := DistrictNode(chain[i + 1])]
    ensures Kids(Link(t, chain, names), chain[|names|]) == Kids(t, chain[|names|])
    ensures |names| > 0 ==> chain[|names|] in Link(t, chain, names)
    ensures forall d :: d !in chain ==>
              (d in Link(t, chain, names) <==> d in t) && Kids(Link(t, chain, names), d) == Kids(t, d)
    decreases |names|
  {
    if |names| > 0 {
      var k := |names| - 1;
      var prefix, first := chain[..k + 1], names[..k];
      var last := chain[k + 1];
      assert Distinct(prefix);
      LinkAt(t, prefix, first);
      var before := Link(t, prefix, first);
      var put := Put(before, chain[k], names[k], DistrictNode(last));
      var after := Touch(put, last);
      assert after == Link(t, chain, names);
      assert last !in prefix;
      assert Kids(before, last) == Kids(t, last) && (last in before <==> last in t);
      forall i | 0 <= i < |names|
        ensures chain[i] in after && after[chain[i]] == Kids(t, chain[i])[names[i] := DistrictNode(chain[i + 1])]
      {
        assert prefix[i] == chain[i] && chain[i] != last;
        if i < k {
          assert prefix[i + 1] == chain[i + 1] && first[i] == names[i] && chain[i] != chain[k];
        }
      }
      forall d | d !in chain
        ensures (d in after <==> d in t) && Kids(after, d) == Kids(t, d)
      {
        assert d !in prefix && d != chain[k] && d != last;
      }
    }
  }

  /** Attach registers exactly the chain's Districts besides those t had; it changes
      the dictionary of chain[i] in the name names[i] alone, and no other District's. */
  lemma AttachAt(t: Tree, chain: seq<District>, names: seq<string>, leaf: Building)
    requires |names| >= 1 && |chain| == |names| && Distinct(chain)
    ensures forall d :: d in Attach(t, chain, names, leaf) <==> d in t || d in chain
    ensures forall i :: 0 <= i < |chain| ==>
              Attach(t, chain, names, leaf)[chain[i]] == Kids(t, chain[i])[names[i] := NextChild(chain, leaf, i)]
    ensures forall d :: d in t && d !in chain ==> Attach(t, chain, names, leaf)[d] == t[d]
  {
    forall d
      ensures d in Attach(t, chain, names, leaf) <==> d in t || d in chain
      ensures d in t && d !in chain ==> Attach(t, chain, names, leaf)[d] == t[d]
    {
      AttachElsewhere(t, chain, names, leaf, d);
    }
    forall i | 0 <= i < |chain|
      ensures Attach(t, chain, names, leaf)[chain[i]] == Kids(t, chain[i])[names[i] := NextChild(chain, leaf, i)]
    {
      AttachAtIndex(t, chain, names, leaf, i);
    }
  }

  /** What Attach leaves in the dictionary of chain[i]. */
  lemma AttachAtIndex(t: Tree, chain: seq<District>, names: seq<string>, leaf: Building, i: nat)
    requires |names| >= 1 && |chain| == |names| && Distinct(chain) && i < |chain|
    ensures chain[i] in Attach(t, chain, names, leaf)
    ensures Attach(t, chain, names, leaf)[chain[i]] == Kids(t, chain[i])[names[i] := NextChild(chain, leaf, i)]
  {
    var k := |names| - 1;
    LinkAt(t, chain, names[..k]);
    if i < k {
      assert chain[i] != chain[k] && names[..k][i] == names[i];
    }
  }

  /** Attach knows d exactly when t or the chain does, and leaves it alone off the chain. */
  lemma AttachElsewhere(t: Tree, chain: seq<District>, names: seq<string>, leaf: Building, d: District)
    requires |names| >= 1 && |chain| == |names| && Distinct(chain)
    ensures d in Attach(t, chain, names, leaf) <==> d in t || d in chain
    ensures d in t && d !in chain ==> Attach(t, chain, names, leaf)[d] == t[d]
  {
    var k := |names| - 1;
    LinkAt(t, chain, names[..k]);
    if d in chain && d != chain[k] {
      var i :| 0 <= i < k && chain[i] == d;
    }
  }

  /** Attaching along the same chain a second time, with another leaf, is attaching that
      leaf alone: the links are in place already and only the leaf is replaced. */
  lemma AttachAgain(t: Tree, chain: seq<District>, names: seq<string>, first: Building, second: Building)
    requires |names| >= 1 && |chain| == |names| && Distinct(chain)
    ensures Attach(Attach(t, chain, names, first), chain, names, second) == Attach(t, chain, names, second)
  {
    var twice := Attach(Attach(t, chain, names, first), chain, names, second);
    var direct := Attach(t, chain, names, second);
    forall d | d in twice || d in direct
      ensures d in twice && d in direct && twice[d] == direct[d]
    {
      AttachAgainAt(t, chain, names, first, second, d);
    }
    SameEntries(twice, direct);
  }

  /** Two trees with the same Districts and the same dictionaries are equal. */
  lemma SameEntries(a: Tree, b: Tree)
    requires forall d | d in a || d in b :: d in a && d in b && a[d] == b[d]
    ensures a == b
  {
    assert a.Keys == b.Keys;
  }

  lemma AttachAgainAt(t: Tree, chain: seq<District>, names: seq<string>, first: Building, second: Building,
                      d: District)
    requires |names| >= 1 && |chain| == |names| && Distinct(chain)
    ensures d in Attach(Attach(t, chain, names, first), chain, names, second) <==> d in Attach(t, chain, names, second)
    ensures d in Attach(t, chain, names, second) ==>
              Attach(Attach(t, chain, names, first), chain, names, second)[d] == Attach(t, chain, names, second)[d]
  {
    var once := Attach(t, chain, names, first);
    AttachElsewhere(t, chain, names, first, d);
    AttachElsewhere(once, chain, names, second, d);
    AttachElsewhere(t, chain, names, second, d);
    if d in chain {
      var i :| 0 <= i < |chain| && chain[i] == d;
      AttachAtIndex(t, chain, names, first, i);
      AttachAtIndex(once, chain, names, second, i);
      AttachAtIndex(t, chain, names, second, i);
      var m := Kids(t, d);
      assert m[names[i] := NextChild(chain, first, i)][names[i] := NextChild(chain, second, i)]
          == m[names[i] := NextChild(chain, second, i)];
    }
  }

  /** In a tree attached along chain, a walk from chain[0] that enters what is stored under
      each directory name goes through chain itself. */
  lemma ReusedChainIsChain(t: Tree, chain: seq<District>, names: seq<string>, leaf: Building, other: seq<District>)
    requires |names| >= 1 && |chain| == |names| && Distinct(chain)
    requires |other| == |names| && other[0] == chain[0]
    requires Reuses(Attach(t, chain, names, leaf), other, names, |names| - 1)
    ensures other == chain
  {
    forall i | 0 <= i < |names|
      ensures other[i] == chain[i]
    {
      ReusedPrefix(t, chain, names, leaf, other, i);
    }
  }

  /** A walk from chain[0] that reuses what it finds in a tree attached along chain agrees
      with chain, however far it has gone. */
  lemma {:induction false} ReusedPrefix(t: Tree, chain: seq<District>, names: seq<string>, leaf: Building,
                                        other: seq<District>, n: nat)
    requires |names| >= 1 && |chain| == |names| && Distinct(chain)
    requires 1 <= |other| <= |names| && other[0] == chain[0]
    requires Reuses(Attach(t, chain, names, leaf), other, names, |other| - 1)
    requires n < |other|
    ensures other[n] == chain[n]
    decreases n
  {
    if n > 0 {
      ReusedPrefix(t, chain, names, leaf, other, n - 1);
      AttachAtIndex(t, chain, names, leaf, n - 1);
      assert Present(Attach(t, chain, names, leaf), other[n - 1], names[n - 1]);
    }
  }

  /** In a tree attached along chain, a walk from chain[0] that reuses what it finds and
      has not reached the file name stands on a name that holds the next District of chain:
      the walk can stop neither at a Building nor at a missing name, even after its own links. */
  lemma AttachedWalkGoesOn(t: Tree, chain: seq<District>, names: seq<string>, leaf: Building, other: seq<District>)
    requires |names| >= 1 && |chain| == |names| && Distinct(chain)
    requires 1 <= |other| < |names| && other[0] == chain[0] && Distinct(other)
    requires Reuses(Attach(t, chain, names, leaf), other, names, |other| - 1)
    ensures var i := |other| - 1;
            var after := Attach(t, chain, names, leaf);
            && other[i] == chain[i]
            && Present(after, other[i], names[i]) && after[other[i]][names[i]] == DistrictNode(chain[i + 1])
            && Present(Link(after, other, names[..i]), other[i], names[i])
  {
    var i := |other| - 1;
    var after := Attach(t, chain, names, leaf);
    ReusedPrefix(t, chain, names, leaf, other, i);
    AttachAtIndex(t, chain, names, leaf, i);
    LinkAt(after, other, names[..i]);
  }

  /** Adding a file whose path was added before: a walk that reuses every District it finds
      retraces the first walk, and the result is the first Attach with the new leaf only. */
  lemma AttachSamePath(t: Tree, chain: seq<District>, names: seq<string>, first: Building,
                       other: seq<District>, second: Building)
    requires |names| >= 1 && |chain| == |names| && Distinct(chain)
    requires |other| == |names| && other[0] == chain[0]
    requires Reuses(Attach(t, chain, names, first), other, names, |names| - 1)
    ensures other == chain
    ensures Attach(Attach(t, chain, names, first), other, names, second) == Attach(t, chain, names, second)
  {
    ReusedChainIsChain(t, chain, names, first, other);
    AttachAgain(t, chain, names, first, second);
  }

  /** Following names through a dictionary in which each link of the chain is present
      ends at the chain's last District. */
  lemma {:induction false} ResolveAlongChain(t: Tree, chain: seq<District>, names: seq<string>)
    requires |chain| == |names| + 1
    requires forall i :: 0 <= i < |names| ==>
               names[i] in Kids(t, chain[i]) && Kids(t, chain[i])[names[i]] == DistrictNode(chain[i + 1])
    ensures Resolve(t, chain[0], names) == Some(chain[|names|])
    decreases |names|
  {
    if |names| > 0 {
      ResolveAlongChain(t, chain[1..], names[1..]);
    }
  }

  /** After Attach, the directory names lead from the first District of the chain to the
      last, and the last name holds the Building. */
  lemma AttachResolves(t: Tree, chain: seq<District>, names: seq<string>, leaf: Building)
    requires |names| >= 1 && |chain| == |names| && Distinct(chain)
    ensures Resolve(Attach(t, chain, names, leaf), chain[0], names[..|names| - 1]) == Some(chain[|chain| - 1])
    ensures names[|names| - 1] in Kids(Attach(t, chain, names, leaf), chain[|chain| - 1])
    ensures Kids(Attach(t, chain, names, leaf), chain[|chain| - 1])[names[|names| - 1]] == BuildingNode(leaf)
  {
    var after := Attach(t, chain, names, leaf);
    AttachAt(t, chain, names, leaf);
    var k := |names| - 1;
    forall i | 0 <= i < k
      ensures names[..k][i] in Kids(after, chain[i]) && Kids(after, chain[i])[names[..k][i]] == DistrictNode(chain[i + 1])
    {
      assert after[chain[i]] == Kids(t, chain[i])[names[i] := NextChild(chain, leaf, i)];
    }
    ResolveAlongChain(after, chain, names[..k]);
    assert after[chain[k]] == Kids(t, chain[k])[names[k] := NextChild(chain, leaf, k)];
  }

  /** Extending the chain by a District one level below its end keeps the depth
      bookkeeping of a walk. */
  lemma ChainSnoc(depth0: map<District, nat>, depth: map<District, nat>, chain: seq<District>, c: District)
    requires forall i :: 0 <= i < |chain| ==> chain[i] in depth && depth[chain[i]] == i
    requires depth.Keys == depth0.Keys + (set x | x in chain)
    requires forall x :: x in depth0 ==> depth[x] == depth0[x]
    requires c !in depth
    ensures forall i :: 0 <= i < |chain| + 1 ==>
              (chain + [c])[i] in depth[c := |chain|] && depth[c := |chain|][(chain + [c])[i]] == i
    ensures depth[c := |chain|].Keys == depth0.Keys + (set x | x in chain + [c])
    ensures forall x :: x in depth0 ==> depth[c := |chain|][x] == depth0[x]
  {
    var chain' := chain + [c];
    forall i | 0 <= i < |chain'|
      ensures chain'[i] in depth[c := |chain|] && depth[c := |chain|][chain'[i]] == i
    {
      if i < |chain| {
        assert chain'[i] == chain[i];
      }
    }
    assert (set x | x in chain') == (set x | x in chain) + {c};
  }

  /** A step through a name t0 did not have keeps Reuses, whatever District it makes. */
  lemma ReusesSnoc(t0: Tree, chain: seq<District>, names: seq<string>, d: nat, c: District)
    requires |chain| == d + 1 && d < |names|
    requires Reuses(t0, chain, names, d) && !Present(t0, chain[d], names[d])
    ensures Reuses(t0, chain + [c], names, d + 1)
  {
    var chain' := chain + [c];
    forall i | 0 <= i < d + 1 && Present(t0, chain'[i], names[i])
      ensures t0[chain'[i]][names[i]] == DistrictNode(chain'[i + 1])
    {
      assert chain'[i] == chain[i];
      if i < d {
        assert chain'[i + 1] == chain[i + 1];
      }
    }
  }

  /** One step of the walk keeps the layering when the District it steps into is one
      level below the District it leaves, or new. */
  lemma LinkStepLayered(t: Tree, depth: map<District, nat>, p: District, key: string, c: District)
    requires Layered(t, depth) && p in t
    requires c in t ==> depth[c] == depth[p] + 1
    ensures Layered(Touch(Put(t, p, key, DistrictNode(c)), c), depth[c := depth[p] + 1])
  {
    var after: Tree := Touch(Put(t, p, key, DistrictNode(c)), c);
    var depth' := depth[c := depth[p] + 1];
    assert p != c;
    forall d: District, k: string | d in after && k in after[d] && after[d][k].DistrictNode?
      ensures after[d][k].district in depth' && depth'[after[d][k].district] == depth'[d] + 1
    {
      if d == p && k == key {
      } else {
        assert d in t && k in t[d] && after[d][k] == t[d][k];
      }
    }
  }

  /** Writing a Building keeps the layering. */
  lemma PutBuildingLayered(t: Tree, depth: map<District, nat>, p: District, key: string, b: Building)
    requires Layered(t, depth) && p in t
    ensures Layered(Put(t, p, key, BuildingNode(b)), depth)
  {
    var after: Tree := Put(t, p, key, BuildingNode(b));
    forall d: District, k: string | d in after && k in after[d] && after[d][k].DistrictNode?
      ensures after[d][k].district in depth && depth[after[d][k].district] == depth[d] + 1
    {
      assert d in t && k in t[d] && after[d][k] == t[d][k];
    }
  }
}
