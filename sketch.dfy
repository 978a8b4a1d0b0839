/** The shared sketch of the workspace (client/client/src/Workspace.jsx,
    `SketchPart`).

    The strokes live in the shared Yjs array `ypaths`, a sequence of paths.
    Pressing the pointer starts a new path of one point in the current color;
    moving it while drawing replaces the last path by a copy with one more
    point (delete at the last index, then insert there); releasing it stops
    drawing. Pointer coordinates are inputs; canvas drawing is not modelled. */
module Sketch {

  /** A canvas position as `getCoords` computes it. */
  datatype Point = Point(x: int, y: int)

  /** An entry of `ypaths`: `{ points, color }`. */
  datatype Path = Path(points: seq<Point>, color: string)

  /** `ypaths.delete(i)`: removes the element at `i`. */
  function Removed<T>(s: seq<T>, i: nat): (r: seq<T>)
    requires i < |s|
    ensures |r| == |s| - 1
    ensures forall k :: 0 <= k < i ==> r[k] == s[k]
    ensures forall k :: i <= k < |r| ==> r[k] == s[k + 1]
  {
    s[..i] + s[i + 1..]
  }

  /** `ypaths.insert(i, [x])`: puts `x` at `i`, moving the rest up. */
  function Inserted<T>(s: seq<T>, i: nat, x: T): (r: seq<T>)
    requires i <= |s|
    ensures |r| == |s| + 1 && r[i] == x
    ensures forall k :: 0 <= k < i ==> r[k] == s[k]
    ensures forall k :: i < k < |r| ==> r[k] == s[k - 1]
  {
    s[..i] + [x] + s[i..]
  }

  /** Deleting an element and inserting another at the same index replaces
      it, leaving every other element where it was. */
  lemma DeleteThenInsertReplaces<T>(s: seq<T>, i: nat, x: T)
    requires i < |s|
    ensures Inserted(Removed(s, i), i, x) == s[i := x]
  {
  }

  /** `{ ...lastPath, points: [...lastPath.points, point] }` */
  function Extended(path: Path, point: Point): Path
  {
    path.(points := path.points + [point])
  }

  class SketchPart {
    /** `ypaths` */
    var paths: seq<Path>
    /** `isDrawing.current` */
    var drawing: bool

    /** While drawing there is a path to extend: drawing starts with a push
        and no handler shortens `ypaths`. */
    ghost predicate Valid()
      reads this
    {
      drawing ==> |paths| > 0
    }

    /** A freshly mounted sketch over the shared array's current paths. */
    constructor (shared: seq<Path>)
      ensures Valid() && paths == shared && !drawing
    {
      paths := shared;
      drawing := false;
    }

    /** `onPointerDown`: starts drawing and appends exactly one path, with
        the pointer's point and the current color. */
    method PointerDown(point: Point, color: string)
      requires Valid()
      modifies this
      ensures Valid() && drawing
      ensures paths == old(paths) + [Path([point], color)]
    {
      drawing := true;
      paths := paths + [Path([point], color)];
    }

    /** `onPointerMove`: while drawing, the last path gets one more point and
        keeps its other fields; the number of paths and all other paths stay
        as they were. Not drawing, nothing happens. */
    method PointerMove(point: Point)
      requires Valid()
      modifies this`paths
      ensures Valid()
      ensures !drawing ==> paths == old(paths)
      ensures drawing ==>
        var last := |old(paths)| - 1;
        && |paths| == |old(paths)|
        && paths[..last] == old(paths)[..last]
        && paths[last].points == old(paths)[last].points + [point]
        && paths[last].color == old(paths)[last].color
    {
      if !drawing {
        return;
      }
      var index := |paths| - 1;
      var lastPath := paths[index];
      DeleteThenInsertReplaces(paths, index, Extended(lastPath, point));
      paths := Removed(paths, index);
      paths := Inserted(paths, index, Extended(lastPath, point));
    }

    /** `onPointerUp`: stops drawing. */
    method PointerUp()
      requires Valid()
      modifies this`drawing
      ensures Valid() && !drawing
    {
      drawing := false;
    }
  }

  /** The path extended is the last one in the array, whoever added it: a
      path appended by another client after the pointer went down is the one
      that gets the point. */
  lemma MoveExtendsLastPath(mine: seq<Path>, other: Path, point: Point)
    requires |mine| > 0
    ensures var before := mine + [other];
      var index := |before| - 1;
      Inserted(Removed(before, index), index, Extended(before[index], point))
        == mine + [Extended(other, point)]
  {
  }

  // ---------------------------------------------------------------- render

  /** `path.color || "#000"`: an empty color strokes in black. */
  function StrokeColor(path: Path): (c: string)
    ensures c != ""
    ensures path.color != "" ==> c == path.color
  {
    if path.color != "" then path.color else "#000"
  }

  /** The paths `render` strokes, in array order: a path with fewer than two
      points is skipped. */
  function Drawn(paths: seq<Path>): (r: seq<Path>)
    ensures |r| <= |paths|
    ensures forall p :: p in r ==> p in paths && |p.points| >= 2
    ensures forall p :: p in paths && |p.points| >= 2 ==> p in r
    decreases paths
  {
    if paths == [] then []
    else (if |paths[0].points| >= 2 then [paths[0]] else []) + Drawn(paths[1..])
  }

  /** `forEach` strokes in array order: the strokes of two arrays side by
      side are the two lists of strokes side by side, and a single path is
      stroked once exactly when it has two points or more. */
  lemma {:induction false} DrawnInOrder(a: seq<Path>, b: seq<Path>)
    ensures Drawn(a + b) == Drawn(a) + Drawn(b)
    ensures forall p :: Drawn([p]) == if |p.points| >= 2 then [p] else []
    decreases a
  {
    forall p ensures Drawn([p]) == if |p.points| >= 2 then [p] else [] {
      assert [p][1..] == [];
    }
    if a == [] {
      assert a + b == b;
    } else {
      assert (a + b)[0] == a[0];
      assert (a + b)[1..] == a[1..] + b;
      DrawnInOrder(a[1..], b);
    }
  }

  /** A path that a pointer-down has just started has one point, so the
      canvas shows nothing new until the pointer moves. */
  lemma NewPathNotDrawn(paths: seq<Path>, point: Point, color: string)
    ensures Drawn(paths + [Path([point], color)]) == Drawn(paths)
  {
    DrawnInOrder(paths, [Path([point], color)]);
  }
}
