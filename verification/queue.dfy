/** The search's priority queue: a sequence of (estimate, position) entries
    from which the least entry, in the lexicographic order of the tuple
    (cost, (x, y)), is removed first. */
module Queue {
  import opened Field

  datatype Entry = Entry(cost: int, at: Pos)

  /** a comes no later than b: tuples compare by cost, then x, then y. */
  predicate NotAbove(a: Entry, b: Entry)
  {
    a.cost < b.cost ||
    (a.cost == b.cost && (a.at.x < b.at.x || (a.at.x == b.at.x && a.at.y <= b.at.y)))
  }

  /** The positions that have an entry in the queue. */
  function Positions(p: seq<Entry>): set<Pos>
  {
    set e | e in p :: e.at
  }

  /** Index of a least entry of p. */
  method MinIndex(p: seq<Entry>) returns (k: nat)
    requires p != []
    ensures k < |p|
    ensures forall j :: 0 <= j < |p| ==> NotAbove(p[k], p[j])
  {
    k := 0;
    for i := 1 to |p|
      invariant k < i
      invariant forall j :: 0 <= j < i ==> NotAbove(p[k], p[j])
    {
      if !NotAbove(p[k], p[i]) {
        k := i;
      }
    }
  }

  /** Removes a least entry: what heappop returns, without the heap layout. */
  method PopMin(p: seq<Entry>) returns (e: Entry, rest: seq<Entry>)
    requires p != []
    ensures e in p
    ensures forall f :: f in p ==> NotAbove(e, f)
    ensures multiset(rest) + multiset{e} == multiset(p)
    ensures forall f :: f in rest ==> f in p
    ensures Positions(p) <= Positions(rest) + {e.at}
  {
    var k := MinIndex(p);
    e, rest := p[k], p[..k] + p[k + 1..];
    assert p == p[..k] + [e] + p[k + 1..];
    RemoveKeepsPositions(p, k);
  }

  /** Any two entries are ordered, and the order is transitive. */
  lemma NotAboveTotal(a: Entry, b: Entry, c: Entry)
    ensures NotAbove(a, b) || NotAbove(b, a)
    ensures NotAbove(a, b) && NotAbove(b, c) ==> NotAbove(a, c)
    ensures NotAbove(a, b) && NotAbove(b, a) ==> a == b
  {
  }

  /** k is the first index of p whose entry is at q. */
  predicate FirstAt(p: seq<Entry>, q: Pos, k: int)
  {
    0 <= k < |p| && p[k].at == q && forall j :: 0 <= j < k ==> p[j].at != q
  }

  /** Taking out the entry at index k keeps every other position queued and
      adds no entry. */
  lemma RemoveKeepsPositions(p: seq<Entry>, k: int)
    requires 0 <= k < |p|
    ensures forall f :: f in p[..k] + p[k + 1..] ==> f in p
    ensures Positions(p) <= Positions(p[..k] + p[k + 1..]) + {p[k].at}
  {
    var rest := p[..k] + p[k + 1..];
    forall f | f in rest ensures f in p {
      var j :| 0 <= j < |rest| && rest[j] == f;
      if j < k {
        assert p[j] == f;
      } else {
        assert p[j + 1] == f;
      }
    }
    forall q | q in Positions(p) ensures q in Positions(rest) + {p[k].at} {
      var j :| 0 <= j < |p| && p[j].at == q;
      if j < k {
        assert rest[j] == p[j];
      } else if j > k {
        assert rest[j - 1] == p[j];
      }
    }
  }

  /** Appending an entry queues its position and no other. */
  lemma AppendPositions(p: seq<Entry>, e: Entry)
    ensures Positions(p + [e]) == Positions(p) + {e.at}
  {
    assert (p + [e])[|p|] == e;
    forall q | q in Positions(p + [e]) ensures q in Positions(p) + {e.at} {
      var f :| f in p + [e] && f.at == q;
    }
  }
}
