/** MapGenerator: the root of the map. It remembers the chosen folder and grows the tree
    of Districts and Buildings one file at a time. */
module MapGenerator {
  import opened Wrappers
  import opened Geometry
  import opened Paths
  import opened MapObjects
  import opened LayoutTree
  import opened Draws
  import opened DistrictWalk

  /** The metadata record the directory watcher sends for a file; only path is used here. */
  datatype FileInfo = FileInfo(
    path: string,
    ext: string,
    name: string,
    mime: Option<string>,
    charset: Option<string>,
    lineCount: Option<int>,
    size: Option<int>)

  /** How a call of addBuilding ended. */
  datatype AddOutcome =
    | Added
      /** rootPath or rootDistrict is undefined: the call returns at once. */
    | NotInitialized
      /** The path has no "/" after the root prefix; the source would then store the
          Building under the key "undefined". */
    | NoFileName
      /** The directory name at this index of the relative path already names a
          Building; the source fails at run time when it looks for that Building's
          children. */
    | BuildingInPath(index: nat)
      /** The directory name at this index is not in the dictionary but is one every
          object inherits, so the lookup is not undefined and no District is made; the
          source enters what it found and fails at run time when it looks for its
          children. The Districts made before this index stay in the map. */
    | InheritedName(index: nat)
      /** The file name is "__proto__": the assignment replaces the prototype of the last
          District's dictionary and stores no entry. The Districts made on the way stay
          in the map. */
    | PrototypeFileName

  class MapGenerator {
    var rootPath: Option<string>
    var rootDistrict: District?
    /** Every District ever put in the map, with its distance below the root. A District
        replaced by a Building of the same name stays here, no longer reachable. */
    ghost var depth: map<District, nat>

    /** The children dictionaries of all Districts in the map. */
    ghost function Tree(): Tree
      reads this, depth.Keys
    {
      map d | d in depth :: d.children
    }

    ghost predicate Valid()
      reads this, depth.Keys
    {
      && Layered(Tree(), depth)
      && (rootDistrict != null ==> rootDistrict in depth && depth[rootDistrict] == 0)
    }

    /** Before a folder is chosen there is neither a root path nor a root District. */
    constructor ()
      ensures Valid()
      ensures rootPath == None && rootDistrict == null && depth == map[]
    {
      rootPath := None;
      rootDistrict := null;
      depth := map[];
    }

    /** initialize(path): remember path and start a new, empty map whose root District
        is named after the last "/"-separated piece of path and sits at the origin. */
    method Initialize(path: string)
      modifies this
      ensures Valid()
      ensures rootPath == Some(path)
      ensures rootDistrict != null && fresh(rootDistrict)
      ensures rootDistrict.name == LastSegment(path)
      ensures rootDistrict.vertices == Degenerate(Origin) && rootDistrict.force == Origin
      ensures depth == map[rootDistrict := 0]
      ensures Tree() == map[rootDistrict := map[]]
    {
      rootPath := Some(path);
      var pathList := Split(path);
      var root := new District(pathList[|pathList| - 1], 0.0, 0.0);
      rootDistrict := root;
      depth := map[root := 0];
    }

    /** addBuilding(fileInfo): place a Building for the file, creating the Districts for
        its folders that do not exist yet.

        The relative path is split into directory names and a file name. Walking from
        the root, each directory name that is missing gets a new District, placed by
        dirDraws at that index; one that exists is entered as it is. The file name then
        gets a new unit-square Building, placed by buildingDraw, in the District where
        the walk ended, replacing whatever had that name. The returned chain is the walk:
        the root, then the District of each directory name it entered. */
    method AddBuilding(fileInfo: FileInfo, dirDraws: nat -> Draw, buildingDraw: Draw)
      returns (outcome: AddOutcome, ghost chain: seq<District>)
      requires Valid()
      modifies this, depth.Keys
      ensures Valid()
      ensures rootPath == old(rootPath) && rootDistrict == old(rootDistrict)
      ensures forall c :: c in depth ==> c in old(depth) || fresh(c)
      ensures outcome == NotInitialized <==> (old(rootPath).None? || old(rootDistrict) == null)
      ensures outcome == NoFileName <==>
                old(rootPath).Some? && old(rootDistrict) != null &&
                |RelativePath(old(rootPath).value, fileInfo.path)| == 0
      ensures outcome.NotInitialized? || outcome.NoFileName? || outcome.BuildingInPath? ==>
                Tree() == old(Tree()) && depth == old(depth)
      ensures !outcome.NotInitialized? && !outcome.NoFileName? ==>
                var names := RelativePath(rootPath.value, fileInfo.path);
                && |chain| >= 1 && WentDown(old(Tree()), chain, names, |chain| - 1, dirDraws)
                && chain[0] == rootDistrict
                && depth.Keys == old(depth).Keys + (set c | c in chain)
                && (outcome.Added? || outcome.PrototypeFileName? <==> |chain| == |names|)
                && (outcome.BuildingInPath? || outcome.InheritedName? ==> outcome.index == |chain| - 1 < |names| - 1)
      ensures outcome.BuildingInPath? ==>
                var names := RelativePath(rootPath.value, fileInfo.path);
                && Walked(old(Tree()), chain, names, outcome.index)
                && Present(old(Tree()), chain[outcome.index], names[outcome.index])
                && old(Tree())[chain[outcome.index]][names[outcome.index]].BuildingNode?
      ensures outcome.InheritedName? ==>
                var names := RelativePath(rootPath.value, fileInfo.path);
                && names[outcome.index] in InheritedKeys
                && !Present(Tree(), chain[outcome.index], names[outcome.index])
                && Tree() == Link(old(Tree()), chain, names[..outcome.index])
      ensures outcome == PrototypeFileName ==>
                var names := RelativePath(rootPath.value, fileInfo.path);
                && names[|names| - 1] == PrototypeKey
                && Tree() == Link(old(Tree()), chain, names[..|names| - 1])
      ensures outcome == Added ==>
                var names := RelativePath(rootPath.value, fileInfo.path);
                && names[|names| - 1] != PrototypeKey
                && Tree() == Attach(old(Tree()), chain, names, NewBuilding(names[|names| - 1], UnitSquare(Offset(buildingDraw)), 1.0))
    {
      chain := [];
      if rootPath.None? || rootDistrict == null {
        outcome := NotInitialized;
        return;
      }
      var relativePath := RelativePath(rootPath.value, fileInfo.path);
      if |relativePath| == 0 {
        outcome := NoFileName;
        return;
      }
      outcome, chain := AddAlong(relativePath, dirDraws, buildingDraw);
    }

    /** addBuilding once the relative path is known and not empty: the folder loop, then
        the Building under the last name. */
    method AddAlong(names: seq<string>, dirDraws: nat -> Draw, buildingDraw: Draw)
      returns (outcome: AddOutcome, ghost chain: seq<District>)
      requires Valid() && rootDistrict != null && |names| >= 1
      modifies this`depth, depth.Keys`children
      ensures Valid()
      ensures forall c :: c in depth ==> c in old(depth) || fresh(c)
      ensures outcome.Added? || outcome.BuildingInPath? || outcome.InheritedName? || outcome.PrototypeFileName?
      ensures |chain| >= 1 && WentDown(old(Tree()), chain, names, |chain| - 1, dirDraws) && chain[0] == rootDistrict
      ensures depth.Keys == old(depth).Keys + (set c | c in chain)
      ensures outcome.Added? || outcome.PrototypeFileName? <==> |chain| == |names|
      ensures outcome.BuildingInPath? || outcome.InheritedName? ==> outcome.index == |chain| - 1 < |names| - 1
      ensures outcome.BuildingInPath? ==>
                && Tree() == old(Tree()) && depth == old(depth)
                && Walked(old(Tree()), chain, names, outcome.index)
                && Present(old(Tree()), chain[outcome.index], names[outcome.index])
                && old(Tree())[chain[outcome.index]][names[outcome.index]].BuildingNode?
      ensures outcome.InheritedName? ==>
                && names[outcome.index] in InheritedKeys
                && !Present(Tree(), chain[outcome.index], names[outcome.index])
                && Tree() == Link(old(Tree()), chain, names[..outcome.index])
      ensures outcome == PrototypeFileName ==>
                && names[|names| - 1] == PrototypeKey
                && Tree() == Link(old(Tree()), chain, names[..|names| - 1])
      ensures outcome == Added ==>
                && names[|names| - 1] != PrototypeKey
                && Tree() == Attach(old(Tree()), chain, names, NewBuilding(names[|names| - 1], UnitSquare(Offset(buildingDraw)), 1.0))
    {
      var stop, currentDistrict;
      ghost var w;
      stop, currentDistrict, w := Descend(names, dirDraws);
      chain := w.chain;
      WalkSummary(old(Tree()), old(depth), names, dirDraws, w);
      MirrorsTree(w.tree);
      if stop.Some? {
        outcome := stop.value;
        return;
      }
      var buildingName := names[|names| - 1];
      if buildingName == PrototypeKey {
        outcome := PrototypeFileName;
        return;
      }
      var position := Offset(buildingDraw);
      var building := NewBuilding(buildingName, UnitSquare(position), 1.0);
      PutBuildingLayered(w.tree, depth, currentDistrict, buildingName, building);
      PutBuilding(currentDistrict, buildingName, building, w.tree);
      MirrorsTree(Put(w.tree, currentDistrict, buildingName, BuildingNode(building)));
      outcome := Added;
    }

    /** The folder loop of addBuilding: from the root, enter the District under each
        directory name of names (all but the last name), making it first when the name
        is neither in the dictionary nor inherited. It stops early, at the index it
        reports, when a name holds a Building or is an inherited name. */
    method Descend(names: seq<string>, dirDraws: nat -> Draw)
      returns (stop: Option<AddOutcome>, current: District, ghost w: WalkState)
      requires Valid() && rootDistrict != null && |names| >= 1
      modifies this`depth, depth.Keys`children
      ensures Walk(old(Tree()), old(depth), names, dirDraws, w) && w.chain[0] == rootDistrict
      ensures w.depth == depth && Mirrors(w.tree)
      ensures forall c :: c in depth ==> c in old(depth) || fresh(c)
      ensures stop.None? ==> |w.chain| == |names| && current == w.chain[|names| - 1]
      ensures stop.Some? ==>
                && (stop.value.BuildingInPath? || stop.value.InheritedName?)
                && stop.value.index == |w.chain| - 1 && stop.value.index < |names| - 1
      ensures stop.Some? && stop.value.BuildingInPath? ==>
                && !w.creating
                && Present(old(Tree()), w.chain[stop.value.index], names[stop.value.index])
                && old(Tree())[w.chain[stop.value.index]][names[stop.value.index]].BuildingNode?
      ensures stop.Some? && stop.value.InheritedName? ==>
                && names[stop.value.index] in InheritedKeys
                && !Present(w.tree, w.chain[stop.value.index], names[stop.value.index])
    {
      current := rootDistrict;
      w := WalkStart(Tree(), depth, current, names, dirDraws);
      var d := 0;
      while d < |names| - 1
        invariant d == |w.chain| - 1 && d < |names|
        invariant Walk(old(Tree()), old(depth), names, dirDraws, w)
        invariant current == w.chain[d] && w.chain[0] == rootDistrict
        invariant w.depth == depth && Mirrors(w.tree)
        invariant forall c :: c in depth ==> c in old(depth) || fresh(c)
      {
        var next;
        ghost var w';
        stop, next, w' := Enter(current, names, d, dirDraws, old(Tree()), old(depth), w);
        if stop.Some? {
          MirrorsTree(w.tree);
          return;
        }
        w := w';
        current := next;
        d := d + 1;
      }
      stop := None;
    }

    /** One pass of the folder loop, at directory index d: the District
        under names[d] in current, made first when the name is neither in the dictionary
        nor inherited; or, changing nothing, the reason the loop cannot go on. */
    method Enter(current: District, names: seq<string>, d: nat, dirDraws: nat -> Draw,
                 ghost t0: Tree, ghost depth0: map<District, nat>, ghost w: WalkState)
      returns (stop: Option<AddOutcome>, next: District, ghost w': WalkState)
      requires Walk(t0, depth0, names, dirDraws, w) && d == |w.chain| - 1 && d < |names|
      requires current == w.chain[d] && w.depth == depth && Mirrors(w.tree)
      modifies this`depth, current`children
      ensures forall c :: c in depth ==> c in old(depth) || fresh(c)
      ensures stop.None? ==>
                && Walk(t0, depth0, names, dirDraws, w')
                && w'.chain == w.chain + [next] && w'.chain[0] == w.chain[0] && w'.chain[|w.chain|] == next
                && w'.depth == depth && Mirrors(w'.tree)
      ensures stop.Some? ==>
                && depth == old(depth) && Mirrors(w.tree)
                && (stop.value.BuildingInPath? || stop.value.InheritedName?) && stop.value.index == d
      ensures stop.Some? && stop.value.BuildingInPath? ==>
                && !w.creating
                && Present(t0, w.chain[d], names[d]) && t0[w.chain[d]][names[d]].BuildingNode?
      ensures stop.Some? && stop.value.InheritedName? ==>
                && names[d] in InheritedKeys && !Present(w.tree, w.chain[d], names[d])
    {
      var districtName := names[d];
      assert current in depth && current.children == w.tree[current];
      ghost var made := false;
      if districtName in current.children {
        match current.children[districtName]
        case BuildingNode(_) =>
          stop, next, w' := Some(BuildingInPath(d)), current, w;
          return;
        case DistrictNode(n) =>
          next := n;
      } else if districtName in InheritedKeys {
        stop, next, w' := Some(InheritedName(d)), current, w;
        return;
      } else {
        next := AddDistrict(current, districtName, dirDraws(d), w.tree);
        made := true;
      }
      stop := None;
      w' := WalkAdvance(t0, depth0, names, dirDraws, w, next, made);
    }

    /** The step of addBuilding that makes a missing folder: a new District, placed by
        draw, goes under name in parent, one level below it. */
    method AddDistrict(parent: District, name: string, draw: Draw, ghost tree: Tree)
      returns (district: District)
      requires Mirrors(tree) && parent in depth && name !in parent.children
      modifies this`depth, parent`children
      ensures fresh(district)
      ensures district.name == name && district.vertices == Degenerate(Offset(draw))
      ensures district.force == Origin && district.children == map[]
      ensures parent.children == old(parent.children)[name := DistrictNode(district)]
      ensures depth == old(depth)[district := old(depth)[parent] + 1]
      ensures Mirrors(Touch(Put(tree, parent, name, DistrictNode(district)), district))
    {
      var position := Offset(draw);
      district := new District(name, position.x, position.z);
      ghost var before := depth;
      label Write:
      parent.children := parent.children[name := DistrictNode(district)];
      depth := depth[district := depth[parent] + 1];
      ghost var after := Touch(Put(tree, parent, name, DistrictNode(district)), district);
      forall c | c in depth
        ensures c.children == after[c]
      {
        if c != district && c != parent {
          assert c in before && c.children == old@Write(c.children) == tree[c];
        }
      }
    }

    /** The last step of addBuilding: the Building goes under name in parent. */
    method PutBuilding(parent: District, name: string, building: Building, ghost tree: Tree)
      requires Mirrors(tree) && parent in depth
      modifies parent`children
      ensures parent.children == old(parent.children)[name := BuildingNode(building)]
      ensures Mirrors(Put(tree, parent, name, BuildingNode(building)))
    {
      label Write:
      parent.children := parent.children[name := BuildingNode(building)];
      ghost var after := Put(tree, parent, name, BuildingNode(building));
      forall c | c in depth
        ensures c.children == after[c]
      {
        if c != parent {
          assert c.children == old@Write(c.children) == tree[c];
        }
      }
    }

    /** t holds exactly the children dictionaries of the map's Districts. */
    ghost predicate Mirrors(t: Tree)
      reads this, depth.Keys
    {
      t.Keys == depth.Keys && forall c {:trigger c.children} :: c in depth ==> c.children == t[c]
    }

    lemma MirrorsTree(t: Tree)
      requires Mirrors(t)
      ensures Tree() == t
    {
    }
  }

  /** A caller that hands addBuilding the same file twice, as the directory watcher may when
      it reports a file again. When the first call adds the Building, the second one walks
      the same Districts, makes none, adds its own Building too, and the map ends as if only
      that second Building had been added. */
  method AddTwice(g: MapGenerator, fileInfo: FileInfo, dirDraws: nat -> Draw, firstDraw: Draw, secondDraw: Draw)
    returns (first: AddOutcome, second: AddOutcome, ghost chain: seq<District>)
    requires g.Valid()
    modifies g, g.depth.Keys
    ensures g.Valid()
    ensures first == Added ==>
              && g.rootPath.Some?
              && var names := RelativePath(g.rootPath.value, fileInfo.path);
              && |names| >= 1 && |chain| == |names| && chain[0] == g.rootDistrict
              && second == Added
              && g.Tree() == Attach(old(g.Tree()), chain, names,
                                    NewBuilding(names[|names| - 1], UnitSquare(Offset(secondDraw)), 1.0))
  {
    ghost var t0 := g.Tree();
    first, chain := g.AddBuilding(fileInfo, dirDraws, firstDraw);
    ghost var t1 := g.Tree();
    ghost var other;
    second, other := g.AddBuilding(fileInfo, dirDraws, secondDraw);
    if first == Added {
      var names := RelativePath(g.rootPath.value, fileInfo.path);
      var leaf := NewBuilding(names[|names| - 1], UnitSquare(Offset(firstDraw)), 1.0);
      if second.BuildingInPath? || second.InheritedName? {
        AttachedWalkGoesOn(t0, chain, names, leaf, other);
        assert false;
      } else if second == Added {
        AttachSamePath(t0, chain, names, leaf, other,
                       NewBuilding(names[|names| - 1], UnitSquare(Offset(secondDraw)), 1.0));
      }
    }
  }
}
