# codecity: the map generator, modelled in Dafny

codecity draws a folder tree as a city: folders become Districts, files become
Buildings. This project models `src/background/MapGenerator.ts`, the part that builds the
tree of map objects. The model covers:

- the two measurements every map object offers, `area()` and `barycenter()`;
- the District and Building constructors;
- `MapGenerator.initialize`, which remembers the chosen folder and makes the root District
  named after the folder's last path piece;
- `MapGenerator.addBuilding`, which splits a file path into directory names and a file
  name. It walks down from the root, entering existing Districts and creating missing
  ones, then puts a new unit-square Building under the file name.

A `children` dictionary is a plain JavaScript object. A lookup in it also finds the
properties of `Object.prototype` (`InheritedKeys`: "constructor", "toString", "__proto__"
and the rest), and assigning to "__proto__" replaces the object's prototype instead of
storing an entry. The model keeps both behaviours. A directory name that is inherited and
not stored is never made into a District: the source enters the inherited value and fails
at the next lookup. A file named "__proto__" stores no Building.

Modules, in dependency order:

- `Wrappers`: `Option`.
- `Geometry`: points of the ground plane (`Vertex2d` with `x` and `z`), the open cross sum
  that `area()` computes, the true shoelace area, coordinate sums and the centroid, and the
  two outlines the generator makes. These are the degenerate three-point outline of a new
  District and the unit square of a Building.
- `MapObjects`: `Building` is a value, because nothing changes a Building after it is made;
  `NewBuilding` is its constructor. `District` is a class whose `children` dictionary is
  updated in place. `Area` and `Barycenter` are the two loops of `MapObject`, each proved
  against a function. `PolygonArea` is the corrected `area()` (see Findings).
- `Draws`: a `Draw` is the pair of `Math.random()` values that place one new object.
- `Paths`: JavaScript's `split("/")` and one-argument `substring`, the root name
  (`LastSegment`) and the relative path (`RelativePath`).
- `LayoutTree`: the whole map seen as a value, `Tree = map<District, map<string, Child>>`.
  `Link` is the chain of links made by the folder loop, and `Attach` is the loop followed
  by the Building write. The lemmas say exactly which dictionary entries change.
- `DistrictWalk`: the state and invariant of the folder loop (`WalkState`, `Walk`), and
  the lemma for one step of it.
- `MapGenerator`: the `MapGenerator` class. A ghost map `depth` records every District ever
  put in the map with its distance below the root, including one that a Building of the
  same name later replaced and that is no longer reachable. It is the frame of the
  methods. Every District child lies one level below its parent (`Layered`), which rules
  out cycles, so the walk never visits a District twice.

`AddBuilding` states its whole effect. The new tree is `Attach(old tree, chain, names,
building)`, and the chain starts at the root. Each existing District or entry on the way
is reused (`Reuses`). Each District made along the way is freshly allocated, carries its
directory name and sits at `Offset` of that step's draw. A walk that stops at an inherited
name, or a file named "__proto__", leaves the map as `Link` of the chain walked so far. The
lemmas in `LayoutTree` then say what `Attach` means:

- `AttachAt`: only the chain's dictionaries change, each in one name.
- `AttachResolves`: the names lead from the root to the Building.
- `AttachSamePath`: adding the same file again only replaces the Building.

Because the new Districts are stated to be fresh, a caller can make one call after
another. `AddTwice` does so with the same file twice.

## Model

| member | source | states |
|---|---|---|
| `MapObjects.SumCrossProducts` | src/background/MapGenerator.ts:17-22 | the loop sums the cross products of consecutive vertices, with no term from the last vertex back to the first |
| `MapObjects.Area` | src/background/MapGenerator.ts:15-24 | area() returns half the magnitude of that open sum, and never a negative number |
| `MapObjects.PolygonArea` | src/background/MapGenerator.ts:15-24 | area() with the closing edge included returns the shoelace area of the polygon, never negative; by UnitSquareShape that is 1 for every Building outline, wherever it lies |
| `MapObjects.Barycenter` | src/background/MapGenerator.ts:26-35 | the loop returns the mean of the vertices, and the origin for an empty list |
| `MapObjects.District.constructor` | src/background/MapGenerator.ts:46-56 | a new District has the given name, three vertices all at (x, z), zero force and no children |
| `MapObjects.FreshDistrictShape` | src/background/MapGenerator.ts:48-56 | a new District's outline has three vertices, all equal to its position; area() gives 0 and barycenter() gives the position |
| `MapObjects.PlacedBuildingShape` | src/background/MapGenerator.ts:113-125 | the Building placed at offset c has the file name, height 1, zero force and four vertices; its barycenter is c and its true polygon area is 1 |
| `Geometry.DegenerateShape` | src/background/MapGenerator.ts:49-54 | the three-point outline has centroid at its point, and zero area with or without the closing edge |
| `Geometry.UnitSquareShape` | src/background/MapGenerator.ts:118-123 | the four vertices written for a Building are centred on c and enclose area 1 |
| `Geometry.CentroidTranslate` | src/background/MapGenerator.ts:26-35 | moving every vertex by d moves the barycenter by d |
| `Geometry.ShoelaceTranslationInvariant` | src/background/MapGenerator.ts:15-24 | the area with the closing edge does not depend on where the polygon lies |
| `Geometry.OpenAreaOfUnitSquare` | src/background/MapGenerator.ts:15-24 | area() as written gives half the magnitude of z + 1.5 for the unit square centred on (x, z), so the result depends on position |
| `Geometry.OpenAreaMissesClosingEdge` | src/background/MapGenerator.ts:15-24 | for the unit square at the origin, area() as written gives 0.75, while the polygon's area is 1 |
| `Draws.Offset` | src/background/MapGenerator.ts:107-115 | a position drawn as Math.random() - 0.5, for a District or a Building, lies in [-0.5, 0.5) on each axis |
| `Paths.LastSegment` | src/background/MapGenerator.ts:79-80 | the root District's name, the last piece of split("/"), contains no "/" |
| `Paths.LastSegmentIsBaseName` | src/background/MapGenerator.ts:79-80 | the root name is a tail of the path: all of it, or what follows its last "/" |
| `Paths.JoinSplit` | src/background/MapGenerator.ts:79 | putting the pieces of split("/") back together with "/" gives the original string |
| `Paths.SplitJoin` | src/background/MapGenerator.ts:97 | splitting pieces joined with "/" gives the pieces back, when none holds a "/" |
| `Paths.SplitPiecesHaveNoSeparator` | src/background/MapGenerator.ts:97 | no piece returned by split("/") contains "/" |
| `Paths.RelativePath` | src/background/MapGenerator.ts:95-98 | no directory name or file name of the relative path contains "/" |
| `Paths.RelativePathOfNestedFile` | src/background/MapGenerator.ts:92-98 | for root + "/" + the joined names, the relative path is exactly those names |
| `Paths.RelativePathOfRoot` | src/background/MapGenerator.ts:94 | the root path itself has an empty relative path |
| `Paths.RelativePathShape` | src/background/MapGenerator.ts:95-98 | the relative path is empty exactly when no "/" follows the root prefix; otherwise what follows the prefix is a "/"-free first piece, a "/", and the names joined with "/" |
| `Paths.PathExamples` | src/background/MapGenerator.ts:79-98 | "/repo" names the root "repo" and "/repo/" names it ""; "/repo/a/b.ts" under "/repo" gives ["a", "b.ts"], "/repo" gives [], and "/repo/" gives [""], a single empty file name, where the comment at line 94 suggests [] |
| `LayoutTree.LinkAt` | src/background/MapGenerator.ts:102-111 | along distinct Districts, the folder loop changes each District's dictionary in its one name, and no other District's |
| `LayoutTree.AttachAt` | src/background/MapGenerator.ts:102-125 | after addBuilding the map holds the old Districts plus the chain; chain[i] changes only under names[i], now the next District or, at the end, the Building; every other District is unchanged |
| `LayoutTree.AttachResolves` | src/background/MapGenerator.ts:102-125 | after addBuilding the directory names lead from the root to the last District of the chain, which holds the Building under the file name |
| `LayoutTree.AttachAgain` | src/background/MapGenerator.ts:116-125 | writing along the same chain again replaces only the Building: the earlier Building is overwritten |
| `LayoutTree.ReusedChainIsChain` | src/background/MapGenerator.ts:102-111 | a walk that enters every District it finds in a map built along a chain retraces that chain |
| `LayoutTree.ReusedPrefix` | src/background/MapGenerator.ts:102-111 | a walk from the root that reuses what it finds in a map built along a chain agrees with that chain as far as it has gone |
| `LayoutTree.AttachedWalkGoesOn` | src/background/MapGenerator.ts:102-111 | in a map built along a chain, a second walk along the same names that has not reached the file name finds the next District of the chain, so it can stop neither at a Building nor at a missing or inherited name |
| `LayoutTree.AttachSamePath` | src/background/MapGenerator.ts:100-125 | adding a file whose path was added before reuses every District and only replaces the Building |
| `DistrictWalk.WalkAdvance` | src/background/MapGenerator.ts:103-110 | one pass of the folder loop, entering an existing District or making a new one, keeps the loop invariant and extends the chain by that District |
| `DistrictWalk.WalkSummary` | src/background/MapGenerator.ts:102-111 | the Districts the loop passes through are pairwise distinct; each one it entered is what the map held under that name, and each one it made replaced no entry, has that name, sits at the draw's offset and has a name that is not inherited; the map is Link along the chain, and depth gains exactly the chain |
| `MapGenerator.MapGenerator.constructor` | src/background/MapGenerator.ts:71-73 | a new generator has no root path, no root District and an empty map |
| `MapGenerator.MapGenerator.Initialize` | src/background/MapGenerator.ts:77-81 | the root path is set; a new root District is named after the last split piece, sits at the origin with no children, and is the whole map |
| `MapGenerator.MapGenerator.AddBuilding` | src/background/MapGenerator.ts:84-126 | uninitialised, or no "/" after the root prefix: nothing changes; otherwise a chain from the root that reuses existing Districts and makes fresh ones from the draws, every District added being fresh; Added, the map becomes Attach of the relative path and a unit-square Building of height 1; a directory name holding a Building: nothing changes; an inherited directory name: the map keeps the Districts linked so far and the name stays unstored; a file named "__proto__": the map is the full chain linked, with no Building stored |
| `MapGenerator.MapGenerator.AddAlong` | src/background/MapGenerator.ts:100-125 | with a non-empty relative path: the folder loop, then the Building write or the "__proto__" no-op, with the same outcomes, effects and freshness as AddBuilding |
| `MapGenerator.MapGenerator.Descend` | src/background/MapGenerator.ts:100-111 | the folder loop keeps the walk invariant and adds only fresh Districts; it ends in the District of the last directory name, or stops at the first directory name that holds a Building (having made nothing) or that is inherited and not stored |
| `MapGenerator.MapGenerator.Enter` | src/background/MapGenerator.ts:102-111 | one pass of the folder loop: the District stored under the name, or a fresh one made when the name is neither stored nor inherited, extends the walk; at a stored Building or an inherited name nothing changes and the reason is returned |
| `MapGenerator.MapGenerator.AddDistrict` | src/background/MapGenerator.ts:104-109 | a missing directory name gets a new, empty District with that name, placed at the draw's offset, one level below its parent; nothing else changes |
| `MapGenerator.MapGenerator.PutBuilding` | src/background/MapGenerator.ts:116-125 | the Building is written under its name in the current District, replacing any entry; no other dictionary changes; AddAlong does not call it for the file name "__proto__" |
| `MapGenerator.AddTwice` | src/background/MapGenerator.ts:84-126 | two addBuilding calls with the same file: when the first adds its Building, the second adds one too, along the same chain, and the map is as if only the second had been added |

## Left out

- The renderers, meshes, Electron windows, IPC, the React UI and the filesystem watcher are outside `MapGenerator.ts` and are not part of this model.
- `Math.random()` is not modelled. Each new District and each Building takes a `Draw` of two values in [0, 1) from the caller: `dirDraws(i)` for the District made at directory index i, and `buildingDraw` for the Building.
- JavaScript numbers are IEEE doubles, and the model uses exact reals, so rounding in `area()` and `barycenter()` is not modelled.
- JavaScript strings are UTF-16 code-unit sequences, and the model uses `seq<char>`.
- `FileInfo` carries the watcher's whole record, but only `path` is read, as in the source. The other fields have no meaning here.
- An empty relative path, when no "/" follows the root prefix, makes the source store the Building under the key "undefined". The model reports it as `NoFileName` and changes nothing.
- A directory name that already holds a Building makes the source throw at run time when it reads that Building's missing `children`. The model reports it as `BuildingInPath`. The loop has written nothing by then, because every earlier name was an existing District, so no partial change is lost.
- A District's name, vertices and force are `const`, because `MapGenerator.ts` never reassigns them. Only `children` is a `var`.
- A directory name that is inherited from `Object.prototype` and not stored makes the source enter that inherited value (a function, or the prototype object for "__proto__") and throw at the next children lookup or at the Building write. The model reports it as `InheritedName`, keeping the Districts linked before it, as the source does.
- `InheritedKeys` lists the properties of `Object.prototype` in current JavaScript engines. A runtime that adds others is not modelled.
- A file named "__proto__" replaces the prototype of the last District's dictionary with the new Building. The model reports `PrototypeFileName` and stores no entry. How later lookups in that dictionary would then see the Building's own properties, such as "name" or "vertices", is not modelled.
- `addBuilding` does not check that the path starts with `rootPath`. The model drops `|rootPath|` characters, as the source does.
- `MapGenerator.ts` does no relayout after an insertion. It places each new object at Math.random() - 0.5, which lies in [-0.5, 0.5).

## Findings

| source | as written | input that shows it | evidently intended | confidence | as-written member | corrected member |
|---|---|---|---|---|---|---|
| src/background/MapGenerator.ts:15-24 | `area()` sums cross products of consecutive vertices only, leaving out the term from the last vertex back to the first | the Building's unit square centred on (0, 0): `area()` gives 0.75 where the square has area 1, and the value changes with the z position | the shoelace area with the closing edge: 1 for every Building, whatever its position | not executed | `Geometry.OpenAreaMissesClosingEdge` | `MapObjects.PolygonArea` |
