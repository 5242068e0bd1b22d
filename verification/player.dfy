/** The maze-exploring player: one decision per turn. */
module AStarPlayer {
  import opened Field
  import opened AStarMap

  /** The kind reported in the direction of move m. */
  function Toward(s: Surroundings, m: Move): Cell
  {
    match m
    case Left => s.left
    case Right => s.right
    case Up => s.up
    case Down => s.down
    case Pass => Unknown
  }

  /** Order in which the neighbours are checked for the Finish. */
  function Order(m: Move): nat
  {
    match m
    case Left => 0
    case Right => 1
    case Up => 2
    case Down => 3
    case Pass => 4
  }

  predicate NextToFinish(s: Surroundings)
  {
    s.left == Finish || s.right == Finish || s.up == Finish || s.down == Finish
  }

  /** The move onto the first neighbour, in the order left, right, up,
      down, that is the Finish. */
  function FinishMove(s: Surroundings): (m: Move)
    requires NextToFinish(s)
    ensures m != Pass && Toward(s, m) == Finish
    ensures forall m' :: Order(m') < Order(m) ==> Toward(s, m') != Finish
  {
    if s.left == Finish then Left
    else if s.right == Finish then Right
    else if s.up == Finish then Up
    else Down
  }

  /** The search ran to its end: it found a path or showed there is none. */
  predicate Settled(r: Search)
  {
    r.Found? || r.NoPath?
  }

  /** outcomes[i] holds the first of the shortest paths found, searches that
      found none being skipped. */
  ghost predicate FirstShortest(outcomes: seq<Search>, i: int)
  {
    0 <= i < |outcomes| && outcomes[i].Found? &&
    (forall j :: 0 <= j < i && outcomes[j].Found? ==> |outcomes[j].path| > |outcomes[i].path|) &&
    (forall j :: i < j < |outcomes| && outcomes[j].Found? ==> |outcomes[j].path| >= |outcomes[i].path|)
  }

  /** A later outcome that is no shorter leaves the first shortest one in
      place. */
  lemma FirstShortestKept(outcomes: seq<Search>, k: int, r: Search)
    requires FirstShortest(outcomes, k)
    requires r.Found? ==> |r.path| >= |outcomes[k].path|
    ensures FirstShortest(outcomes + [r], k)
  {
    var o := outcomes + [r];
    forall j | k < j < |o| && o[j].Found? ensures |o[j].path| >= |o[k].path| {
      if j < |outcomes| {
        assert o[j] == outcomes[j];
      }
    }
  }

  /** A found path strictly shorter than every earlier one becomes the first
      shortest. */
  lemma FirstShortestNew(outcomes: seq<Search>, k: int, r: Search)
    requires r.Found?
    requires (k == -1 && forall j :: 0 <= j < |outcomes| ==> !outcomes[j].Found?) ||
             (FirstShortest(outcomes, k) && |r.path| < |outcomes[k].path|)
    ensures FirstShortest(outcomes + [r], |outcomes|)
  {
    var o := outcomes + [r];
    forall j | 0 <= j < |outcomes| && o[j].Found? ensures |o[j].path| > |r.path| {
      assert o[j] == outcomes[j];
    }
  }

  class Player {
    const maze: Map

    ghost predicate Valid()
      reads this, maze
    {
      maze.Valid() && maze.PosInBounds()
    }

    /** The player starts at (0, 0) on a fresh one-cell map holding a Path. */
    constructor ()
      ensures Valid() && fresh(maze)
      ensures maze.posX == 0 && maze.posY == 0
      ensures forall x, y :: maze.Get(x, y) == if x == 0 && y == 0 then Path else Unknown
    {
      maze := new Map();
    }

    /** Searches a path to every candidate in turn and keeps the first
        strictly shortest one found. A search that runs out of fuel or meets
        a predecessor loop settles nothing: the player then gives up, with
        `complete` false and no path. `outcomes` records each search's
        answer, up to the one given up on. */
    method Shortest(candidates: seq<Pos>, fuel: nat)
      returns (best: Option<seq<Pos>>, complete: bool, ghost outcomes: seq<Search>)
      requires Valid()
      ensures Ran(Pos(maze.posX, maze.posY), candidates, best.None?, complete, outcomes)
      ensures best.Some? ==> exists i :: FirstShortest(outcomes, i) && outcomes[i].path == best.value
    {
      best, outcomes := None, [];
      ghost var k := -1;
      for i := 0 to |candidates|
        invariant |outcomes| == i
        invariant forall j :: 0 <= j < i ==>
          maze.Sound(Pos(maze.posX, maze.posY), candidates[j], outcomes[j]) && Settled(outcomes[j])
        invariant best.None? <==> forall j :: 0 <= j < i ==> !outcomes[j].Found?
        invariant best.None? ==> k == -1
        invariant best.Some? ==> FirstShortest(outcomes, k) && outcomes[k].path == best.value
      {
        var r := maze.FindPathTo(candidates[i].x, candidates[i].y, fuel);
        if !Settled(r) {
          return None, false, outcomes + [r];
        }
        if r.Found? && (best.None? || |r.path| < |best.value|) {
          FirstShortestNew(outcomes, k, r);
          best, k := Some(r.path), i;
        } else if best.Some? {
          FirstShortestKept(outcomes, k, r);
        }
        outcomes := outcomes + [r];
      }
      complete := true;
    }

    /** Moves the player onto the adjacent position next and returns the
        matching move. */
    method Follow(next: Pos) returns (m: Move)
      requires maze.Valid() && maze.Step(Pos(maze.posX, maze.posY), next)
      modifies maze`posX, maze`posY
      ensures maze.Valid() && maze.PosInBounds()
      ensures maze.Step(old(Pos(maze.posX, maze.posY)), Pos(maze.posX, maze.posY))
      ensures forall x, y :: maze.Get(x, y) == old(maze.Get(x, y))
      ensures m != Pass && Shift(old(Pos(maze.posX, maze.posY)), m) == next
      ensures Pos(maze.posX, maze.posY) == next
    {
      m := Pass;
      if maze.posX + 1 == next.x {
        maze.MoveRight();
        m := Right;
      } else if maze.posX - 1 == next.x {
        maze.MoveLeft();
        m := Left;
      } else if maze.posY + 1 == next.y {
        maze.MoveUp();
        m := Up;
      } else if maze.posY - 1 == next.y {
        maze.MoveDown();
        m := Down;
      } else {
        // next is a cardinal neighbour, so one of the cases above applies
        assert false;
      }
    }

    /** What running the searches from start to each candidate in turn
        promises: `outcomes` are the answers, each sound. The searches are
        complete exactly when all ran and each settled; otherwise the last
        one ran was given up on, and no step is taken (`none`). When
        complete, no step is taken exactly when no search found a path. */
    ghost predicate Ran(start: Pos, candidates: seq<Pos>, none: bool, complete: bool, outcomes: seq<Search>)
      reads maze`x0, maze`x1, maze`y0, maze`y1, maze`grid
      requires maze.Valid()
    {
      && |outcomes| <= |candidates|
      && (forall i :: 0 <= i < |outcomes| ==> maze.Sound(start, candidates[i], outcomes[i]))
      && (forall i :: 0 <= i < |outcomes| - 1 ==> Settled(outcomes[i]))
      && (complete <==> |outcomes| == |candidates| && forall i :: 0 <= i < |outcomes| ==> Settled(outcomes[i]))
      && (!complete ==> none && 0 < |outcomes| && !Settled(outcomes[|outcomes| - 1]))
      && (complete ==> (none <==> forall i :: 0 <= i < |outcomes| ==> !outcomes[i].Found?))
    }

    /** What the searches of a turn from start promise: `targets` is exactly
        the interesting cells, in the order AllInteresting lists them; the
        searches to them ran as Ran states; and when they are complete and
        no step is taken, no interesting cell can be reached at all. */
    ghost predicate Searched(start: Pos, none: bool, complete: bool, targets: seq<Pos>, outcomes: seq<Search>)
      reads maze`x0, maze`x1, maze`y0, maze`y1, maze`grid
      requires maze.Valid()
    {
      && (forall q :: q in targets <==> maze.InBounds(q.x, q.y) && maze.IsInteresting(q.x, q.y))
      && (forall i, j :: 0 <= i < j < |targets| ==> Before(targets[i], targets[j]))
      && Ran(start, targets, none, complete, outcomes)
      && (complete && none ==>
            forall q: Pos, path: seq<Pos> :: maze.InBounds(q.x, q.y) && maze.IsInteresting(q.x, q.y) ==>
              !maze.Connects(start, q, path))
    }

    /** Searches to exactly the interesting cells, run as Ran states, keep
        what Searched promises: in particular, when every one of them
        settled without finding a path, no walk of legal moves from start
        reaches any interesting cell. */
    lemma Concluded(start: Pos, none: bool, complete: bool, targets: seq<Pos>, outcomes: seq<Search>)
      requires Valid()
      requires forall q :: q in targets <==> maze.InBounds(q.x, q.y) && maze.IsInteresting(q.x, q.y)
      requires forall i, j :: 0 <= i < j < |targets| ==> Before(targets[i], targets[j])
      requires Ran(start, targets, none, complete, outcomes)
      ensures Searched(start, none, complete, targets, outcomes)
    {
      if complete && none {
        forall q: Pos, path: seq<Pos> | maze.InBounds(q.x, q.y) && maze.IsInteresting(q.x, q.y)
          ensures !maze.Connects(start, q, path)
        {
          var i :| 0 <= i < |targets| && targets[i] == q;
          assert Settled(outcomes[i]) && !outcomes[i].Found?;
          assert maze.Sound(start, targets[i], outcomes[i]);
        }
      }
    }

    /** The first shortest path found starts with a legal move: its target
        is interesting, and the position is not. */
    lemma LeadsAway(start: Pos, none: bool, complete: bool, targets: seq<Pos>, outcomes: seq<Search>, path: seq<Pos>)
      requires maze.Valid() && maze.InBounds(start.x, start.y) && !maze.IsInteresting(start.x, start.y)
      requires forall q :: q in targets <==> maze.InBounds(q.x, q.y) && maze.IsInteresting(q.x, q.y)
      requires Ran(start, targets, none, complete, outcomes)
      requires exists i :: FirstShortest(outcomes, i) && outcomes[i].path == path
      ensures 0 < |path| && maze.Step(start, path[0])
      ensures exists i :: FirstShortest(outcomes, i) && [path[0]] <= outcomes[i].path
    {
      var i :| FirstShortest(outcomes, i) && outcomes[i].path == path;
      assert targets[i] in targets;
      assert maze.Sound(start, targets[i], outcomes[i]);
      maze.FirstStep(start, targets[i], path);
    }

    /** Searches a path to every interesting cell, in the order
        AllInteresting lists them, and picks the first step of the first
        strictly shortest path found; None when no search found one or when
        a search was given up on (`complete` false). `targets` and
        `outcomes` are the cells considered and the answers of their
        searches. */
    method Choose(fuel: nat) returns (next: Option<Pos>, complete: bool, ghost targets: seq<Pos>, ghost outcomes: seq<Search>)
      requires Valid()
      requires maze.Get(maze.posX - 1, maze.posY) != Unknown && maze.Get(maze.posX + 1, maze.posY) != Unknown
      requires maze.Get(maze.posX, maze.posY - 1) != Unknown && maze.Get(maze.posX, maze.posY + 1) != Unknown
      ensures Searched(Pos(maze.posX, maze.posY), next.None?, complete, targets, outcomes)
      ensures next.Some? ==>
        && maze.Step(Pos(maze.posX, maze.posY), next.value)
        && exists i :: FirstShortest(outcomes, i) && [next.value] <= outcomes[i].path
    {
      var start := Pos(maze.posX, maze.posY);
      // all four neighbours are known, so the position itself is not interesting
      assert !maze.IsInteresting(start.x, start.y);
      var candidates := maze.AllInteresting();
      targets := candidates;
      var best;
      best, complete, outcomes := Shortest(candidates, fuel);
      Concluded(start, best.None?, complete, targets, outcomes);
      if best.None? {
        return None, complete, targets, outcomes;
      }
      LeadsAway(start, best.None?, complete, targets, outcomes, best.value);
      next := Some(best.value[0]);
    }

    /** Steps onto the first cell of the first strictly shortest path
        Choose finds, or passes when Choose finds none; the map itself is
        left as it is. */
    method Advance(fuel: nat) returns (m: Move, complete: bool, ghost targets: seq<Pos>, ghost outcomes: seq<Search>)
      requires Valid()
      requires maze.Get(maze.posX - 1, maze.posY) != Unknown && maze.Get(maze.posX + 1, maze.posY) != Unknown
      requires maze.Get(maze.posX, maze.posY - 1) != Unknown && maze.Get(maze.posX, maze.posY + 1) != Unknown
      modifies maze`posX, maze`posY
      ensures Valid()
      ensures forall x, y :: maze.Get(x, y) == old(maze.Get(x, y))
      ensures Searched(old(Pos(maze.posX, maze.posY)), m == Pass, complete, targets, outcomes)
      ensures m == Pass ==> maze.posX == old(maze.posX) && maze.posY == old(maze.posY)
      ensures m != Pass ==>
        && Pos(maze.posX, maze.posY) == Shift(old(Pos(maze.posX, maze.posY)), m)
        && maze.Step(old(Pos(maze.posX, maze.posY)), Pos(maze.posX, maze.posY))
        && exists i :: FirstShortest(outcomes, i) && [Pos(maze.posX, maze.posY)] <= outcomes[i].path
    {
      var next;
      next, complete, targets, outcomes := Choose(fuel);
      if next.None? {
        return Pass, complete, targets, outcomes;
      }
      m := Follow(next.value);
    }

    /** One turn: step onto an adjacent Finish if there is one; otherwise
        record the surroundings, search a path to every interesting cell,
        and step onto the first cell of the first strictly shortest path
        found. Pass when no search found one, or when a search was given
        up on (`complete` false). */
    method Turn(s: Surroundings, fuel: nat)
      returns (m: Move, complete: bool, ghost targets: seq<Pos>, ghost outcomes: seq<Search>)
      requires Valid() && s.Sensed()
      modifies maze
      ensures Valid()
      ensures NextToFinish(s) ==> m == FinishMove(s) && complete && unchanged(maze)
      ensures !NextToFinish(s) ==>
        && maze.x0 == (if old(maze.posX == maze.x0) then old(maze.x0) - 1 else old(maze.x0))
        && maze.x1 == (if old(maze.posX == maze.x1) then old(maze.x1) + 1 else old(maze.x1))
        && maze.y0 == (if old(maze.posY == maze.y0) then old(maze.y0) - 1 else old(maze.y0))
        && maze.y1 == (if old(maze.posY == maze.y1) then old(maze.y1) + 1 else old(maze.y1))
        && (forall x, y :: maze.Get(x, y) ==
              Reading(old(Pos(maze.posX, maze.posY)), s, Pos(x, y), old(maze.Get(x, y))))
      ensures !NextToFinish(s) ==> Searched(old(Pos(maze.posX, maze.posY)), m == Pass, complete, targets, outcomes)
      ensures !NextToFinish(s) && m == Pass ==> maze.posX == old(maze.posX) && maze.posY == old(maze.posY)
      ensures !NextToFinish(s) && m != Pass ==>
        && Pos(maze.posX, maze.posY) == Shift(old(Pos(maze.posX, maze.posY)), m)
        && maze.Step(old(Pos(maze.posX, maze.posY)), Pos(maze.posX, maze.posY))
        && exists i :: FirstShortest(outcomes, i) && [Pos(maze.posX, maze.posY)] <= outcomes[i].path
    {
      if NextToFinish(s) {
        return FinishMove(s), true, [], [];
      }
      maze.RememberSurroundings(s);
      m, complete, targets, outcomes := Advance(fuel);
    }
  }
}
