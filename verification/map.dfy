/** The player's self-growing map of the maze and the search over it. */
module AStarMap {
  import opened Field
  import opened Queue

  function Abs(n: int): nat
  {
    if n < 0 then -n else n
  }

  /** Number of cardinal steps between (x0, y0) and (x1, y1). */
  function Dist(x0: int, y0: int, x1: int, y1: int): (d: nat)
    ensures d == 0 <==> x0 == x1 && y0 == y1
    ensures d >= Abs(x1 - x0) && d >= Abs(y1 - y0)
  {
    Abs(x1 - x0) + Abs(y1 - y0)
  }

  lemma DistSymmetric(x0: int, y0: int, x1: int, y1: int)
    ensures Dist(x0, y0, x1, y1) == Dist(x1, y1, x0, y0)
  {
  }

  /** b is one of the four cardinal neighbours of a. */
  predicate Adjacent(a: Pos, b: Pos)
  {
    b == Pos(a.x - 1, a.y) || b == Pos(a.x + 1, a.y) ||
    b == Pos(a.x, a.y - 1) || b == Pos(a.x, a.y + 1)
  }

  /** The cardinal neighbours are exactly the positions one step away. */
  lemma AdjacentIsOneStep(a: Pos, b: Pos)
    ensures Adjacent(a, b) <==> Dist(a.x, a.y, b.x, b.y) == 1
  {
  }

  /** The cell kinds around `at` after sensing s there: the four
      neighbours take the sensed kinds, every other cell keeps `before`. */
  function Reading(at: Pos, s: Surroundings, q: Pos, before: Cell): Cell
  {
    if q == Pos(at.x - 1, at.y) then s.left
    else if q == Pos(at.x + 1, at.y) then s.right
    else if q == Pos(at.x, at.y - 1) then s.down
    else if q == Pos(at.x, at.y + 1) then s.up
    else before
  }

  /** Order in which the neighbours of `from` are listed: left, right, down, up. */
  function Rank(from: Pos, q: Pos): nat
  {
    if q == Pos(from.x - 1, from.y) then 0
    else if q == Pos(from.x + 1, from.y) then 1
    else if q == Pos(from.x, from.y - 1) then 2
    else 3
  }

  /** Neighbours listed left, right, down, up, each at most once, come in
      increasing Rank. */
  lemma RankedListing(a: Pos, s: seq<Pos>, left: seq<Pos>, right: seq<Pos>, down: seq<Pos>, up: seq<Pos>)
    requires s == left + right + down + up
    requires left == [] || left == [Pos(a.x - 1, a.y)]
    requires right == [] || right == [Pos(a.x + 1, a.y)]
    requires down == [] || down == [Pos(a.x, a.y - 1)]
    requires up == [] || up == [Pos(a.x, a.y + 1)]
    ensures forall i, j :: 0 <= i < j < |s| ==> Rank(a, s[i]) < Rank(a, s[j])
  {
    forall i, j | 0 <= i < j < |s| ensures Rank(a, s[i]) < Rank(a, s[j]) {
      assert forall k :: 0 <= k < |s| ==>
        Rank(a, s[k]) == (if k < |left| then 0
                          else if k < |left + right| then 1
                          else if k < |left + right + down| then 2
                          else 3);
    }
  }

  /** x-major, then y-ascending order of positions. */
  predicate Before(a: Pos, b: Pos)
  {
    a.x < b.x || (a.x == b.x && a.y < b.y)
  }

  predicate Distinct(s: seq<Pos>)
  {
    forall i, j :: 0 <= i < j < |s| ==> s[i] != s[j]
  }

  function Elements(s: seq<Pos>): set<Pos>
  {
    set q | q in s
  }

  /** What the search records per visited position: the estimate it was
      queued with and the position it was reached from. */
  datatype Visit = Visit(est: int, pred: Pos)

  /** The position a visited position was reached from. */
  function Pred(v: map<Pos, Visit>, q: Pos): Pos
    requires q in v
  {
    v[q].pred
  }

  /** s is a chain of predecessor links that ends at target, never
      touches start, and whose first position's predecessor lies on the
      chain again: following the links back from target loops forever. */
  ghost predicate Loops(start: Pos, target: Pos, v: map<Pos, Visit>, s: seq<Pos>)
  {
    && s != [] && s[|s| - 1] == target && start !in s
    && (forall q :: q in s ==> q in v)
    && (forall i :: 0 < i < |s| ==> Pred(v, s[i]) == s[i - 1])
    && Pred(v, s[0]) in s
  }

  /** A loop of links is closed: the predecessor of every position on it is
      on it again, so it is never the start. */
  lemma LoopClosed(start: Pos, target: Pos, v: map<Pos, Visit>, s: seq<Pos>)
    requires Loops(start, target, v, s)
    ensures forall q :: q in s ==> Pred(v, q) in s && Pred(v, q) != start
  {
    forall q | q in s ensures Pred(v, q) in s {
      var i :| 0 <= i < |s| && s[i] == q;
      if i > 0 {
        assert Pred(v, s[i]) == s[i - 1];
      }
    }
  }

  /** Outcome of a search. OutOfFuel: the pop budget ran out; Cycle: the
      predecessor links loop before reaching the start, where the Python
      search never returns. */
  datatype Search = Found(path: seq<Pos>) | NoPath | OutOfFuel | Cycle

  /** A rectangular map of unknown size around the player. */
  class Map {
    var posX: int
    var posY: int
    var x0: int
    var x1: int
    var y0: int
    var y1: int
    /** Column-major storage: the kind at (x, y) is grid[x - x0][y - y0]. */
    var grid: seq<seq<Cell>>

    /** The shape of the storage agrees with the bounds. */
    ghost predicate Valid()
      reads this`x0, this`x1, this`y0, this`y1, this`grid
    {
      x0 <= x1 && y0 <= y1 && |grid| == x1 - x0 + 1 &&
      forall i :: 0 <= i < |grid| ==> |grid[i]| == y1 - y0 + 1
    }

    predicate InBounds(x: int, y: int)
      reads this`x0, this`x1, this`y0, this`y1
    {
      x0 <= x <= x1 && y0 <= y <= y1
    }

    predicate PosInBounds()
      reads this
    {
      InBounds(posX, posY)
    }

    /** The kind known at logical (x, y); Unknown outside the bounds. */
    function Get(x: int, y: int): (c: Cell)
      reads this`x0, this`x1, this`y0, this`y1, this`grid
      requires Valid()
      ensures c != Unknown ==> InBounds(x, y)
    {
      if InBounds(x, y) then grid[x - x0][y - y0] else Unknown
    }

    /** The player starts alone on a one-cell map holding a Path. */
    constructor ()
      ensures Valid() && PosInBounds()
      ensures posX == 0 && posY == 0 && x0 == 0 && x1 == 0 && y0 == 0 && y1 == 0
      ensures forall x, y :: Get(x, y) == if x == 0 && y == 0 then Path else Unknown
    {
      posX, posY := 0, 0;
      x0, x1, y0, y1 := 0, 0, 0, 0;
      grid := [[Path]];
    }

    method MoveLeft()
      modifies this`posX
      ensures posX == old(posX) - 1
    {
      posX := posX - 1;
    }

    method MoveRight()
      modifies this`posX
      ensures posX == old(posX) + 1
    {
      posX := posX + 1;
    }

    method MoveUp()
      modifies this`posY
      ensures posY == old(posY) + 1
    {
      posY := posY + 1;
    }

    method MoveDown()
      modifies this`posY
      ensures posY == old(posY) - 1
    {
      posY := posY - 1;
    }

    function Height(): (h: nat)
      reads this`x0, this`x1, this`y0, this`y1, this`grid
      requires Valid()
      ensures forall i :: 0 <= i < |grid| ==> |grid[i]| == h
    {
      y1 - y0 + 1
    }

    function Width(): (w: nat)
      reads this`x0, this`x1, this`y0, this`y1, this`grid
      requires Valid()
      ensures w == |grid|
    {
      x1 - x0 + 1
    }

    /** Adds a column of unknown cells on the left. */
    method GrowLeft()
      requires Valid()
      modifies this`grid, this`x0
      ensures Valid() && x0 == old(x0) - 1
      ensures forall x, y :: Get(x, y) == old(Get(x, y))
    {
      var column := seq(Height(), _ => Unknown);
      grid := [column] + grid;
      x0 := x0 - 1;
    }

    /** Adds a column of unknown cells on the right. */
    method GrowRight()
      requires Valid()
      modifies this`grid, this`x1
      ensures Valid() && x1 == old(x1) + 1
      ensures forall x, y :: Get(x, y) == old(Get(x, y))
    {
      var column := seq(Height(), _ => Unknown);
      grid := grid + [column];
      x1 := x1 + 1;
    }

    /** Adds an unknown cell at the top of every column. */
    method GrowUp()
      requires Valid()
      modifies this`grid, this`y1
      ensures Valid() && y1 == old(y1) + 1
      ensures forall x, y :: Get(x, y) == old(Get(x, y))
    {
      for i := 0 to |grid|
        invariant |grid| == old(|grid|) && y1 == old(y1)
        invariant forall j :: 0 <= j < i ==> grid[j] == old(grid[j]) + [Unknown]
        invariant forall j :: i <= j < |grid| ==> grid[j] == old(grid[j])
      {
        grid := grid[i := grid[i] + [Unknown]];
      }
      y1 := y1 + 1;
    }

    /** Rebuilds every column with an unknown cell at the bottom. */
    method GrowDown()
      requires Valid()
      modifies this`grid, this`y0
      ensures Valid() && y0 == old(y0) - 1
      ensures forall x, y :: Get(x, y) == old(Get(x, y))
    {
      var newMap: seq<seq<Cell>> := [];
      for i := 0 to |grid|
        invariant |newMap| == i
        invariant forall j :: 0 <= j < i ==> newMap[j] == [Unknown] + grid[j]
      {
        newMap := newMap + [[Unknown] + grid[i]];
      }
      grid := newMap;
      y0 := y0 - 1;
    }

    /** Stores c at logical (x, y). */
    method Write(x: int, y: int, c: Cell)
      requires Valid() && InBounds(x, y)
      modifies this`grid
      ensures Valid()
      ensures forall i, j :: Get(i, j) == if i == x && j == y then c else old(Get(i, j))
    {
      grid := grid[x - x0 := grid[x - x0][y - y0 := c]];
    }

    /** Grows the map in every direction in which the position touches a
        bound, so that the position ends strictly inside. */
    method GrowAround()
      requires Valid() && PosInBounds()
      modifies this`grid, this`x0, this`x1, this`y0, this`y1
      ensures Valid()
      ensures x0 < posX < x1 && y0 < posY < y1
      ensures x0 == if old(posX == x0) then old(x0) - 1 else old(x0)
      ensures x1 == if old(posX == x1) then old(x1) + 1 else old(x1)
      ensures y0 == if old(posY == y0) then old(y0) - 1 else old(y0)
      ensures y1 == if old(posY == y1) then old(y1) + 1 else old(y1)
      ensures forall x, y :: Get(x, y) == old(Get(x, y))
    {
      if posX == x0 {
        GrowLeft();
      }
      if posX == x1 {
        GrowRight();
      }
      if posY == y0 {
        GrowDown();
      }
      if posY == y1 {
        GrowUp();
      }
    }

    /** Grows the map wherever the position touches a bound, then records
        the four sensed neighbours. */
    method RememberSurroundings(s: Surroundings)
      requires Valid() && PosInBounds()
      modifies this`grid, this`x0, this`x1, this`y0, this`y1
      ensures Valid()
      ensures x0 < posX < x1 && y0 < posY < y1
      ensures x0 == if old(posX == x0) then old(x0) - 1 else old(x0)
      ensures x1 == if old(posX == x1) then old(x1) + 1 else old(x1)
      ensures y0 == if old(posY == y0) then old(y0) - 1 else old(y0)
      ensures y1 == if old(posY == y1) then old(y1) + 1 else old(y1)
      ensures forall x, y :: Get(x, y) == Reading(Pos(posX, posY), s, Pos(x, y), old(Get(x, y)))
    {
      GrowAround();
      Write(posX - 1, posY, s.left);
      Write(posX + 1, posY, s.right);
      Write(posX, posY - 1, s.down);
      Write(posX, posY + 1, s.up);
    }

    /** A Path cell next to a cell not yet known: a place worth exploring.
        With Get unknown outside the bounds, this covers both a Path cell
        on the edge of the map and one beside an unknown cell. */
    function IsInteresting(x: int, y: int): (r: bool)
      reads this`x0, this`x1, this`y0, this`y1, this`grid
      requires Valid() && InBounds(x, y)
      ensures r <==> Get(x, y) == Path &&
                     (Get(x - 1, y) == Unknown || Get(x + 1, y) == Unknown ||
                      Get(x, y - 1) == Unknown || Get(x, y + 1) == Unknown)
    {
      var xi, yi := x - x0, y - y0;
      if grid[xi][yi] != Path then false
      else if x == x0 || x == x1 then true
      else if y == y0 || y == y1 then true
      else if grid[xi - 1][yi] == Unknown then true
      else if grid[xi + 1][yi] == Unknown then true
      else if grid[xi][yi - 1] == Unknown then true
      else if grid[xi][yi + 1] == Unknown then true
      else false
    }

    /** Every interesting position of the map, column by column, each
        column bottom to top. */
    method AllInteresting() returns (r: seq<Pos>)
      requires Valid()
      ensures forall q :: q in r <==> InBounds(q.x, q.y) && IsInteresting(q.x, q.y)
      ensures forall i, j :: 0 <= i < j < |r| ==> Before(r[i], r[j])
    {
      r := [];
      for x := x0 to x1 + 1
        invariant forall q :: q in r <==> InBounds(q.x, q.y) && q.x < x && IsInteresting(q.x, q.y)
        invariant forall i, j :: 0 <= i < j < |r| ==> Before(r[i], r[j])
        invariant forall i :: 0 <= i < |r| ==> r[i].x < x
      {
        for y := y0 to y1 + 1
          invariant forall q :: q in r <==>
            InBounds(q.x, q.y) && (q.x < x || (q.x == x && q.y < y)) && IsInteresting(q.x, q.y)
          invariant forall i, j :: 0 <= i < j < |r| ==> Before(r[i], r[j])
          invariant forall i :: 0 <= i < |r| ==> Before(r[i], Pos(x, y))
        {
          if IsInteresting(x, y) {
            r := r + [Pos(x, y)];
          }
        }
      }
    }

    /** A single legal move from a to b: a cardinal step onto a known Path
        or Start cell. */
    ghost predicate Step(a: Pos, b: Pos)
      reads this`x0, this`x1, this`y0, this`y1, this`grid
      requires Valid()
    {
      Adjacent(a, b) && Passable(Get(b.x, b.y))
    }

    /** The legal moves from (x, y), in the order left, right, down, up. */
    function Moves(x: int, y: int): (r: seq<Pos>)
      reads this`x0, this`x1, this`y0, this`y1, this`grid
      requires Valid() && InBounds(x, y)
      ensures forall q :: q in r <==> Step(Pos(x, y), q)
    {
      var xi, yi := x - x0, y - y0;
      var left := if x > x0 && Passable(grid[xi - 1][yi]) then [Pos(x - 1, y)] else [];
      var right := if x < x1 && Passable(grid[xi + 1][yi]) then [Pos(x + 1, y)] else [];
      var down := if y > y0 && Passable(grid[xi][yi - 1]) then [Pos(x, y - 1)] else [];
      var up := if y < y1 && Passable(grid[xi][yi + 1]) then [Pos(x, y + 1)] else [];
      assert left == (if Passable(Get(x - 1, y)) then [Pos(x - 1, y)] else []);
      assert right == (if Passable(Get(x + 1, y)) then [Pos(x + 1, y)] else []);
      assert down == (if Passable(Get(x, y - 1)) then [Pos(x, y - 1)] else []);
      assert up == (if Passable(Get(x, y + 1)) then [Pos(x, y + 1)] else []);
      left + right + down + up
    }

    /** Moves lists the legal moves left, right, down, up. */
    lemma MovesInOrder(x: int, y: int)
      requires Valid() && InBounds(x, y)
      ensures forall i, j :: 0 <= i < j < |Moves(x, y)| ==>
        Rank(Pos(x, y), Moves(x, y)[i]) < Rank(Pos(x, y), Moves(x, y)[j])
    {
      var xi, yi := x - x0, y - y0;
      var left := if x > x0 && Passable(grid[xi - 1][yi]) then [Pos(x - 1, y)] else [];
      var right := if x < x1 && Passable(grid[xi + 1][yi]) then [Pos(x + 1, y)] else [];
      var down := if y > y0 && Passable(grid[xi][yi - 1]) then [Pos(x, y - 1)] else [];
      var up := if y < y1 && Passable(grid[xi][yi + 1]) then [Pos(x, y + 1)] else [];
      RankedListing(Pos(x, y), Moves(x, y), left, right, down, up);
    }

    /** path is a walk of legal moves starting next to `from`. */
    ghost predicate IsPath(from: Pos, path: seq<Pos>)
      reads this`x0, this`x1, this`y0, this`y1, this`grid
      requires Valid()
      decreases |path|
    {
      path == [] || (Step(from, path[0]) && IsPath(path[0], path[1..]))
    }

    /** path leads from `from` to `to`; the empty path when they coincide. */
    ghost predicate Connects(from: Pos, to: Pos, path: seq<Pos>)
      reads this`x0, this`x1, this`y0, this`y1, this`grid
      requires Valid()
    {
      IsPath(from, path) && (if path == [] then to == from else path[|path| - 1] == to)
    }

    /** What a search from start to target may answer: a found path is a
        walk of legal moves to the target that neither revisits a position
        nor returns to the start; NoPath means no such walk exists. */
    ghost predicate Sound(start: Pos, target: Pos, r: Search)
      reads this`x0, this`x1, this`y0, this`y1, this`grid
      requires Valid()
    {
      match r
      case Found(path) => Connects(start, target, path) && start !in path && Distinct(path)
      case NoPath => forall path :: !Connects(start, target, path)
      case _ => true
    }

    /** Index of the first queue entry at q, or -1 when q is not queued. */
    static method CurPriority(p: seq<Entry>, q: Pos) returns (n: int)
      ensures n == -1 || FirstAt(p, q, n)
      ensures n == -1 <==> forall j :: 0 <= j < |p| ==> p[j].at != q
    {
      for i := 0 to |p|
        invariant forall j :: 0 <= j < i ==> p[j].at != q
      {
        if p[i].at == q {
          return i;
        }
      }
      return -1;
    }

    /** Every visited position was reached by a legal move from the start or
        from another visited position. */
    ghost predicate Linked(start: Pos, v: map<Pos, Visit>)
      reads this`x0, this`x1, this`y0, this`y1, this`grid
      requires Valid()
    {
      forall q {:trigger Pred(v, q)} :: q in v ==> Step(Pred(v, q), q) && (Pred(v, q) == start || Pred(v, q) in v)
    }

    /** Every queued position is the start or a visited one. */
    ghost predicate Rooted(start: Pos, p: seq<Entry>, v: map<Pos, Visit>)
    {
      forall e :: e in p ==> e.at == start || e.at in v
    }

    /** Every legal move out of a closed position lands on a visited one. */
    ghost predicate Expanded(closed: set<Pos>, v: map<Pos, Visit>)
      reads this`x0, this`x1, this`y0, this`y1, this`grid
      requires Valid()
    {
      forall c, n :: c in closed && Step(c, n) ==> n in v
    }

    /** Considers the move from `from` onto its neighbour n with estimate
        est: n is queued and recorded when it was never visited, when its
        recorded estimate is larger, or when its first queue entry has a
        larger estimate, which is then taken out of the queue. */
    method Relax(n: Pos, est: int, from: Pos, p: seq<Entry>, v: map<Pos, Visit>,
                 ghost start: Pos, ghost covered: set<Pos>)
      returns (p': seq<Entry>, v': map<Pos, Visit>, enqueued: bool)
      requires Valid() && Linked(start, v) && Rooted(start, p, v)
      requires Step(from, n) && (from == start || from in v)
      requires {start} + v.Keys <= covered + Positions(p)
      ensures enqueued <==>
        n !in v || v[n].est > est || exists k :: FirstAt(p, n, k) && p[k].cost > est
      ensures !enqueued ==> p' == p && v' == v
      ensures enqueued ==> v' == v[n := Visit(est, from)]
      ensures enqueued && (n !in v || v[n].est > est) ==> p' == p + [Entry(est, n)]
      ensures enqueued && n in v && v[n].est <= est ==>
        exists k :: FirstAt(p, n, k) && p[k].cost > est && p' == p[..k] + p[k + 1..] + [Entry(est, n)]
      ensures n in v' && v.Keys <= v'.Keys
      ensures Linked(start, v') && Rooted(start, p', v')
      ensures {start} + v'.Keys <= covered + Positions(p')
    {
      enqueued := false;
      p', v' := p, v;
      if n !in v {
        enqueued := true;
      } else {
        var costLast := v[n].est;
        if costLast > est {
          enqueued := true;
        } else {
          var k := CurPriority(p, n);
          if k != -1 && p[k].cost > est {
            RemoveKeepsPositions(p, k);
            p' := p[..k] + p[k + 1..];
            enqueued := true;
          }
        }
      }
      if enqueued {
        Recorded(start, p, v, p', n, est, from, covered);
        p' := p' + [Entry(est, n)];
        v' := v'[n := Visit(est, from)];
      }
    }

    /** Recording the move from `from` onto n, and queueing n behind the
        entries rest kept from p, keeps the links and the queue rooted at
        the start, and every visited position still covered or queued. */
    lemma Recorded(start: Pos, p: seq<Entry>, v: map<Pos, Visit>, rest: seq<Entry>, n: Pos, est: int, from: Pos,
                   covered: set<Pos>)
      requires Valid() && Linked(start, v) && Rooted(start, p, v)
      requires Step(from, n) && (from == start || from in v)
      requires forall f :: f in rest ==> f in p
      requires Positions(p) <= Positions(rest) + {n}
      requires {start} + v.Keys <= covered + Positions(p)
      ensures Linked(start, v[n := Visit(est, from)])
      ensures Rooted(start, rest + [Entry(est, n)], v[n := Visit(est, from)])
      ensures {start} + v[n := Visit(est, from)].Keys <= covered + Positions(rest + [Entry(est, n)])
    {
      AppendPositions(rest, Entry(est, n));
      var v' := v[n := Visit(est, from)];
      forall q | q in v' ensures Step(Pred(v', q), q) && (Pred(v', q) == start || Pred(v', q) in v') {
        if q != n {
          assert Pred(v', q) == Pred(v, q);
        }
      }
    }

    /** Walks the predecessor links back from target to start; the walk,
        read forwards, is the path. */
    method Backtrack(start: Pos, target: Pos, v: map<Pos, Visit>) returns (r: Search)
      requires Valid() && Linked(start, v) && (target == start || target in v)
      ensures r.Found? || r.Cycle?
      ensures r.Found? ==> Connects(start, target, r.path) && start !in r.path && Distinct(r.path)
      ensures target == start ==> r == Found([])
      ensures r.Cycle? ==> exists s :: Loops(start, target, v, s)
      ensures Sound(start, target, r)
    {
      var path: seq<Pos> := [];
      var at := target;
      while at != start
        invariant at == start || at in v
        invariant at !in path && start !in path && Distinct(path)
        invariant Elements(path) <= v.Keys
        invariant IsPath(at, path)
        invariant if path == [] then at == target else path[|path| - 1] == target
        invariant forall i :: 0 < i < |path| ==> Pred(v, path[i]) == path[i - 1]
        invariant path != [] ==> Pred(v, path[0]) == at
        decreases v.Keys - Elements(path)
      {
        var prev := Pred(v, at);
        assert at in v.Keys - Elements(path);
        path := [at] + path;
        assert at !in v.Keys - Elements(path);
        if prev in path {
          assert Loops(start, target, v, path);
          return Cycle;
        }
        at := prev;
      }
      return Found(path);
    }

    /** A walk to a different position starts with a legal move. */
    lemma FirstStep(from: Pos, to: Pos, path: seq<Pos>)
      requires Valid() && Connects(from, to, path) && to != from
      ensures 0 < |path| && Step(from, path[0])
    {
    }

    /** A walk of legal moves that starts in a set closed under legal moves
        never leaves it. */
    lemma {:induction false} Confined(S: set<Pos>, from: Pos, path: seq<Pos>)
      requires Valid() && from in S
      requires forall c, n :: c in S && Step(c, n) ==> n in S
      requires IsPath(from, path)
      ensures forall i :: 0 <= i < |path| ==> path[i] in S
      decreases |path|
    {
      if path != [] {
        Confined(S, path[0], path[1..]);
        forall i | 0 < i < |path| ensures path[i] in S {
          assert path[i] == path[1..][i - 1];
        }
      }
    }

    /** When every position reached so far is closed and the target is not
        among them, no walk leads from the start to the target. */
    lemma Sealed(start: Pos, target: Pos, v: map<Pos, Visit>, closed: set<Pos>)
      requires Valid() && Expanded(closed, v)
      requires {start} + v.Keys <= closed && target !in closed
      ensures forall path :: !Connects(start, target, path)
      ensures Sound(start, target, NoPath)
    {
      var S := {start} + v.Keys;
      forall path | Connects(start, target, path) ensures false {
        Confined(S, start, path);
      }
    }

    /** A visited position lies inside the grid, since it was reached by a
        legal move. */
    lemma VisitedInBounds(start: Pos, v: map<Pos, Visit>, q: Pos)
      requires Valid() && Linked(start, v) && q in v
      ensures InBounds(q.x, q.y)
    {
      assert Step(Pred(v, q), q);
    }

    /** Queues every legal move out of cur.at, each with the estimate
        cur.cost + 1 + its distance to the target. */
    method Expand(cur: Entry, target: Pos, p: seq<Entry>, v: map<Pos, Visit>,
                  ghost start: Pos, ghost covered: set<Pos>)
      returns (p': seq<Entry>, v': map<Pos, Visit>)
      requires Valid() && Linked(start, v) && Rooted(start, p, v)
      requires cur.at == start || cur.at in v
      requires InBounds(start.x, start.y)
      requires {start} + v.Keys <= covered + Positions(p)
      ensures Linked(start, v') && Rooted(start, p', v')
      ensures v.Keys <= v'.Keys && {start} + v'.Keys <= covered + Positions(p')
      ensures forall n :: Step(cur.at, n) ==> n in v'
    {
      if cur.at != start {
        VisitedInBounds(start, v, cur.at);
      }
      var nexts := Moves(cur.at.x, cur.at.y);
      p', v' := RelaxAll(cur.at, nexts, cur.cost + 1, target, p, v, start, covered);
    }

    /** Relaxes the moves from `from` onto each of nexts in turn, at cost
        plus the distance to the target. */
    method RelaxAll(from: Pos, nexts: seq<Pos>, cost: int, target: Pos, p: seq<Entry>, v: map<Pos, Visit>,
                    ghost start: Pos, ghost covered: set<Pos>)
      returns (p': seq<Entry>, v': map<Pos, Visit>)
      requires Valid() && Linked(start, v) && Rooted(start, p, v)
      requires from == start || from in v
      requires forall n :: n in nexts ==> Step(from, n)
      requires {start} + v.Keys <= covered + Positions(p)
      ensures Linked(start, v') && Rooted(start, p', v')
      ensures v.Keys <= v'.Keys && {start} + v'.Keys <= covered + Positions(p')
      ensures forall n :: n in nexts ==> n in v'
    {
      p', v' := p, v;
      for i := 0 to |nexts|
        invariant Linked(start, v') && Rooted(start, p', v')
        invariant v.Keys <= v'.Keys && {start} + v'.Keys <= covered + Positions(p')
        invariant forall j :: 0 <= j < i ==> nexts[j] in v'
      {
        p', v' := RelaxMove(from, nexts[i], cost, target, p', v', start, covered);
      }
    }

    /** Relaxes the move from `from` onto n with the estimate cost plus the
        distance from n to the target. */
    method RelaxMove(from: Pos, n: Pos, cost: int, target: Pos, p: seq<Entry>, v: map<Pos, Visit>,
                     ghost start: Pos, ghost covered: set<Pos>)
      returns (p': seq<Entry>, v': map<Pos, Visit>)
      requires Valid() && Linked(start, v) && Rooted(start, p, v)
      requires Step(from, n) && (from == start || from in v)
      requires {start} + v.Keys <= covered + Positions(p)
      ensures Linked(start, v') && Rooted(start, p', v')
      ensures v.Keys <= v'.Keys && {start} + v'.Keys <= covered + Positions(p')
      ensures n in v'
      ensures v'.Keys <= v.Keys + {n}
      ensures v' == v || v' == v[n := Visit(cost + Dist(n.x, n.y, target.x, target.y), from)]
      ensures n !in v ==> v' == v[n := Visit(cost + Dist(n.x, n.y, target.x, target.y), from)]
    {
      var est := cost + Dist(n.x, n.y, target.x, target.y);
      var enqueued;
      p', v', enqueued := Relax(n, est, from, p, v, start, covered);
    }

    /** The search's loop invariant: the visited positions form predecessor
        links back to the start, every closed position is expanded, the
        target is not closed, and every position reached so far is closed
        or still queued. */
    ghost predicate Searching(start: Pos, target: Pos, p: seq<Entry>, v: map<Pos, Visit>, closed: set<Pos>)
      reads this`x0, this`x1, this`y0, this`y1, this`grid
      requires Valid()
    {
      Linked(start, v) && Rooted(start, p, v) && Expanded(closed, v) &&
      target !in closed && {start} + v.Keys <= closed + Positions(p)
    }

    /** What holds once the least entry cur has been popped off p. */
    lemma Popped(start: Pos, target: Pos, p: seq<Entry>, v: map<Pos, Visit>, closed: set<Pos>,
                 cur: Entry, rest: seq<Entry>)
      requires Valid() && Searching(start, target, p, v, closed)
      requires cur in p && (forall f :: f in rest ==> f in p)
      requires Positions(p) <= Positions(rest) + {cur.at}
      ensures Linked(start, v) && Rooted(start, rest, v) && Expanded(closed, v)
      ensures cur.at == start || cur.at in v
      ensures {start} + v.Keys <= closed + {cur.at} + Positions(rest)
    {
    }

    /** Expanding cur.at and closing it restores the loop invariant. */
    lemma Closing(start: Pos, target: Pos, c: Pos, closed: set<Pos>,
                  v: map<Pos, Visit>, p': seq<Entry>, v': map<Pos, Visit>)
      requires Valid() && Expanded(closed, v) && target !in closed && c != target
      requires Linked(start, v') && Rooted(start, p', v')
      requires v.Keys <= v'.Keys && {start} + v'.Keys <= closed + {c} + Positions(p')
      requires forall n :: Step(c, n) ==> n in v'
      ensures Searching(start, target, p', v', closed + {c})
    {
    }

    /** Searches for a path from the position to (x, y), popping at most
        fuel entries off the queue. */
    method FindPathTo(x: int, y: int, fuel: nat) returns (r: Search)
      requires Valid() && PosInBounds()
      ensures Sound(Pos(posX, posY), Pos(x, y), r)
      ensures fuel > 0 && x == posX && y == posY ==> r == Found([])
    {
      var start, target := Pos(posX, posY), Pos(x, y);
      var v: map<Pos, Visit> := map[];
      var p := [Entry(0, start)];
      ghost var closed: set<Pos> := {};
      var pops := fuel;
      while p != [] && pops > 0
        invariant Searching(start, target, p, v, closed)
        invariant target == start ==> pops == fuel && p == [Entry(0, start)]
        decreases pops
      {
        pops := pops - 1;
        var cur, rest := PopMin(p);
        Popped(start, target, p, v, closed, cur, rest);
        ghost var v0 := v;
        if cur.at == target {
          r := Backtrack(start, target, v);
          return;
        }
        p, v := Expand(cur, target, rest, v, start, closed + {cur.at});
        Closing(start, target, cur.at, closed, v0, p, v);
        closed := closed + {cur.at};
      }
      if p == [] {
        Sealed(start, target, v, closed);
        r := NoPath;
      } else {
        r := OutOfFuel;
      }
    }
  }
}
