/**
 * The engine's list of entities as a value: one `Cell` per entry of the
 * `entities` list of GameManager, and the four passes of one generation
 * (reset, propagate, apply the rule, clean up) as functions on that list.
 * The methods of GameManager are proved to compute exactly these functions;
 * the lemmas here prove what the passes achieve together: the live set after a
 * generation is the Conway successor of the live set before it.
 */
module Passes {
  import opened Vectors
  import opened Conway

  /** The state of one entity: its position, the `isAlive` flag and `neighbourNum`. */
  datatype Cell = Cell(position: Vector2D, alive: bool, count: int)

  /** Positions of the live entries. */
  function LiveSet(cs: seq<Cell>): set<Vector2D>
  {
    set k | 0 <= k < |cs| && cs[k].alive :: cs[k].position
  }

  /** Positions of all entries, live or dead. */
  function Tracked(cs: seq<Cell>): set<Vector2D>
  {
    set k | 0 <= k < |cs| :: cs[k].position
  }

  /** The engine's invariant: at most one entry per position. */
  predicate UniquePositions(cs: seq<Cell>)
  {
    forall a, b :: 0 <= a < b < |cs| ==> cs[a].position != cs[b].position
  }

  /**
   * r keeps the entries of cs in place, with their positions and alive flags,
   * and every entry added after them is dead.
   */
  predicate Extends(cs: seq<Cell>, r: seq<Cell>)
  {
    && |cs| <= |r|
    && (forall k :: 0 <= k < |cs| ==> r[k].position == cs[k].position && r[k].alive == cs[k].alive)
    && (forall k :: |cs| <= k < |r| ==> !r[k].alive)
  }

  /** The count an entry had in cs, 0 for an entry that cs does not have yet. */
  function Prior(cs: seq<Cell>, k: int): int
  {
    if 0 <= k < |cs| then cs[k].count else 0
  }

  // ---------------------------------------------------------------------------
  // The linear search of GameManager.isEntityAtPosition

  /** The first index whose position is q, or -1 when no entry has position q. */
  function IndexOf(cs: seq<Cell>, q: Vector2D): (r: int)
    ensures -1 <= r < |cs|
    ensures r == -1 <==> q !in Tracked(cs)
    ensures 0 <= r ==> cs[r].position == q && forall k :: 0 <= k < r ==> cs[k].position != q
  {
    if cs == [] then -1
    else if cs[0].position == q then 0
    else
      var r := IndexOf(cs[1..], q);
      assert forall k :: 0 <= k < |cs| - 1 ==> cs[1..][k] == cs[k + 1];
      if r == -1 then -1 else r + 1
  }

  // ---------------------------------------------------------------------------
  // Phase A: GameManager.resetEntityNeighbours

  /** Every count becomes 0; positions, alive flags and the length are unchanged. */
  function ResetCounts(cs: seq<Cell>): (r: seq<Cell>)
    ensures |r| == |cs|
    ensures forall k :: 0 <= k < |cs| ==>
              r[k].position == cs[k].position && r[k].alive == cs[k].alive && r[k].count == 0
  {
    seq(|cs|, k requires 0 <= k < |cs| => cs[k].(count := 0))
  }

  // ---------------------------------------------------------------------------
  // Phase B: Entity.updateNeighbours and GameManager.updateNeighbours

  /**
   * One neighbour visit of Entity.updateNeighbours: increment the entry at q,
   * or append a dead entry at q whose count is then incremented to 1.
   */
  function Touch(cs: seq<Cell>, q: Vector2D): (r: seq<Cell>)
    ensures |cs| <= |r|
  {
    var i := IndexOf(cs, q);
    if i == -1 then cs + [Cell(q, false, 1)]
    else cs[i := cs[i].(count := cs[i].count + 1)]
  }

  /** The visits to src + d for the first n offsets d of ds, in order. */
  function TouchAll(cs: seq<Cell>, src: Vector2D, ds: seq<Vector2D>, n: nat): (r: seq<Cell>)
    requires n <= |ds|
    ensures |cs| <= |r|
  {
    if n == 0 then cs
    else Touch(TouchAll(cs, src, ds, n - 1), src.Add(ds[n - 1].x, ds[n - 1].y))
  }

  /** Entity.updateNeighbours for the entry at index i: only a live entry visits its neighbours. */
  function PropagateEntity(cs: seq<Cell>, i: nat): (r: seq<Cell>)
    requires i < |cs|
    ensures |cs| <= |r|
  {
    if cs[i].alive then TouchAll(cs, cs[i].position, Offsets, |Offsets|) else cs
  }

  /** The propagate pass over the first n entries (entries appended meanwhile are dead). */
  function PropagateUpTo(cs: seq<Cell>, n: nat): (r: seq<Cell>)
    requires n <= |cs|
    ensures |cs| <= |r|
  {
    if n == 0 then cs
    else PropagateEntity(PropagateUpTo(cs, n - 1), n - 1)
  }

  /** A visit keeps every entry in place and can only append a dead one. */
  lemma TouchExtends(cs: seq<Cell>, q: Vector2D)
    ensures Extends(cs, Touch(cs, q))
  {
  }

  /** Extension is transitive. */
  lemma ExtendsTransitive(a: seq<Cell>, b: seq<Cell>, c: seq<Cell>)
    requires Extends(a, b) && Extends(b, c)
    ensures Extends(a, c)
  {
  }

  lemma {:induction false} TouchAllExtends(cs: seq<Cell>, src: Vector2D, ds: seq<Vector2D>, n: nat)
    requires n <= |ds|
    ensures Extends(cs, TouchAll(cs, src, ds, n))
  {
    if n > 0 {
      var mid := TouchAll(cs, src, ds, n - 1);
      TouchAllExtends(cs, src, ds, n - 1);
      TouchExtends(mid, src.Add(ds[n - 1].x, ds[n - 1].y));
      ExtendsTransitive(cs, mid, TouchAll(cs, src, ds, n));
    }
  }

  lemma PropagateEntityExtends(cs: seq<Cell>, i: nat)
    requires i < |cs|
    ensures Extends(cs, PropagateEntity(cs, i))
  {
    if cs[i].alive {
      TouchAllExtends(cs, cs[i].position, Offsets, |Offsets|);
    }
  }

  /** The propagate pass keeps every entry in place and only appends dead ones. */
  lemma {:induction false} PropagateUpToExtends(cs: seq<Cell>, n: nat)
    requires n <= |cs|
    ensures Extends(cs, PropagateUpTo(cs, n))
  {
    if n > 0 {
      var mid := PropagateUpTo(cs, n - 1);
      PropagateUpToExtends(cs, n - 1);
      PropagateEntityExtends(mid, n - 1);
      ExtendsTransitive(cs, mid, PropagateUpTo(cs, n));
    }
  }

  /** Phase B over the whole list as it stood when the pass began. */
  function Propagate(cs: seq<Cell>): (r: seq<Cell>)
    ensures |cs| <= |r|
  {
    PropagateUpTo(cs, |cs|)
  }

  // ---------------------------------------------------------------------------
  // Phase C: GameManager.updateEntities

  /** Entity.update on every entry, each reading only its own, already final, count. */
  function ApplyRule(cs: seq<Cell>): (r: seq<Cell>)
    ensures |r| == |cs|
    ensures forall k :: 0 <= k < |cs| ==>
              r[k].position == cs[k].position && r[k].count == cs[k].count &&
              r[k].alive == Rule(cs[k].alive, cs[k].count)
  {
    seq(|cs|, k requires 0 <= k < |cs| => cs[k].(alive := Rule(cs[k].alive, cs[k].count)))
  }

  // ---------------------------------------------------------------------------
  // Phase D: GameManager.cleanUpEntities

  /** The entries among the first n whose count is not 0, in their original order. */
  function PruneUpTo(cs: seq<Cell>, n: nat): (r: seq<Cell>)
    requires n <= |cs|
    ensures |r| <= n
    ensures forall k :: 0 <= k < |r| ==> r[k].count != 0
  {
    if n == 0 then []
    else PruneUpTo(cs, n - 1) + (if cs[n - 1].count == 0 then [] else [cs[n - 1]])
  }

  /** Phase D over the whole list. */
  function Prune(cs: seq<Cell>): (r: seq<Cell>)
    ensures |r| <= |cs|
    ensures forall k :: 0 <= k < |r| ==> r[k].count != 0
  {
    PruneUpTo(cs, |cs|)
  }

  /**
   * The loop of GameManager.cleanUpEntities from index i on: an entry with
   * count 0 is removed and the same index is examined again, otherwise the
   * loop moves on.
   */
  function CleanUpFrom(cs: seq<Cell>, i: nat): (r: seq<Cell>)
    ensures |r| <= |cs|
    ensures i <= |cs| ==> i <= |r| && r[..i] == cs[..i]
    decreases |cs| - i
  {
    if i >= |cs| then cs
    else if cs[i].count == 0 then CleanUpFrom(cs[..i] + cs[i + 1..], i)
    else CleanUpFrom(cs, i + 1)
  }

  lemma {:induction false} PruneUpToMembers(cs: seq<Cell>, n: nat)
    requires n <= |cs|
    ensures forall c :: c in PruneUpTo(cs, n) <==> c in cs[..n] && c.count != 0
  {
    if n > 0 {
      assert cs[..n] == cs[..n - 1] + [cs[n - 1]];
      PruneUpToMembers(cs, n - 1);
    }
  }

  /** The clean-up keeps exactly the entries whose count is not 0. */
  lemma PruneMembers(cs: seq<Cell>)
    ensures |Prune(cs)| <= |cs|
    ensures forall c :: c in Prune(cs) <==> c in cs && c.count != 0
  {
    PruneUpToMembers(cs, |cs|);
    assert cs[..|cs|] == cs;
  }

  // ---------------------------------------------------------------------------
  // One generation: GameManager.run, lines 67-70

  function Generation(cs: seq<Cell>): (r: seq<Cell>)
    ensures forall k :: 0 <= k < |r| ==> r[k].count != 0
  {
    Prune(ApplyRule(Propagate(ResetCounts(cs))))
  }

  // ---------------------------------------------------------------------------
  // Counting the visits

  /** How many of the translations src + ds[i] land on p. */
  function Hits(src: Vector2D, ds: seq<Vector2D>, p: Vector2D): nat
  {
    if ds == [] then 0
    else
      var d := ds[|ds| - 1];
      Hits(src, ds[..|ds| - 1], p) + (if src.Add(d.x, d.y) == p then 1 else 0)
  }

  /** How many live entries among the first n are neighbours of p. */
  function LiveAdjacentBefore(cs: seq<Cell>, n: nat, p: Vector2D): nat
    requires n <= |cs|
  {
    if n == 0 then 0
    else LiveAdjacentBefore(cs, n - 1, p) +
         (if cs[n - 1].alive && Adjacent(cs[n - 1].position, p) then 1 else 0)
  }

  lemma {:induction false} HitsOfDistinct(src: Vector2D, ds: seq<Vector2D>, p: Vector2D)
    requires forall a, b :: 0 <= a < b < |ds| ==> ds[a] != ds[b]
    ensures Hits(src, ds, p) == if Vector2D(p.x - src.x, p.y - src.y) in ds then 1 else 0
  {
    if ds != [] {
      var init := ds[..|ds| - 1];
      var d := ds[|ds| - 1];
      HitsOfDistinct(src, init, p);
      assert ds == init + [d];
      if src.Add(d.x, d.y) == p {
        assert d !in init;
      }
    }
  }

  /** Every neighbour of src is visited exactly once, and nothing else is. */
  lemma HitsOfOffsets(src: Vector2D, p: Vector2D)
    ensures Hits(src, Offsets, p) == if Adjacent(src, p) then 1 else 0
  {
    OffsetsAreTheNeighbourhood(src, p);
    HitsOfDistinct(src, Offsets, p);
  }

  lemma {:induction false} NoHits(src: Vector2D, ds: seq<Vector2D>, p: Vector2D)
    requires forall i :: 0 <= i < |ds| ==> src.Add(ds[i].x, ds[i].y) != p
    ensures Hits(src, ds, p) == 0
  {
    if ds != [] {
      NoHits(src, ds[..|ds| - 1], p);
    }
  }

  lemma {:induction false} LiveAdjacentWitness(cs: seq<Cell>, n: nat, p: Vector2D)
    requires n <= |cs| && LiveAdjacentBefore(cs, n, p) > 0
    ensures exists j :: 0 <= j < n && cs[j].alive && Adjacent(cs[j].position, p)
  {
    if !(cs[n - 1].alive && Adjacent(cs[n - 1].position, p)) {
      LiveAdjacentWitness(cs, n - 1, p);
    }
  }

  // ---------------------------------------------------------------------------
  // What each pass does on a position-unique list

  /** Entries added by an extension are at positions the original did not track. */
  lemma ExtensionAddsNewPositions(cs: seq<Cell>, r: seq<Cell>)
    requires Extends(cs, r) && UniquePositions(r)
    ensures Tracked(cs) <= Tracked(r)
    ensures LiveSet(r) == LiveSet(cs)
    ensures forall k :: |cs| <= k < |r| ==> r[k].position !in Tracked(cs)
  {
    forall p | p in Tracked(cs) ensures p in Tracked(r) {
      var k :| 0 <= k < |cs| && cs[k].position == p;
      assert r[k].position == p;
    }
    forall p | p in LiveSet(r) ensures p in LiveSet(cs) {
      var k :| 0 <= k < |r| && r[k].alive && r[k].position == p;
      assert cs[k].position == p;
    }
    forall p | p in LiveSet(cs) ensures p in LiveSet(r) {
      var k :| 0 <= k < |cs| && cs[k].alive && cs[k].position == p;
      assert r[k].alive && r[k].position == p;
    }
  }

  /** One visit adds at most one entry, and tracks exactly q besides what was tracked before. */
  lemma TouchTracked(cs: seq<Cell>, q: Vector2D)
    ensures |Touch(cs, q)| <= |cs| + 1
    ensures Tracked(Touch(cs, q)) == Tracked(cs) + {q}
  {
    var r := Touch(cs, q);
    forall p | p in Tracked(r) ensures p in Tracked(cs) + {q} {
      var k :| 0 <= k < |r| && r[k].position == p;
      if k < |cs| {
        assert cs[k].position == p;
      }
    }
    forall p | p in Tracked(cs) + {q} ensures p in Tracked(r) {
      if p in Tracked(cs) {
        var k :| 0 <= k < |cs| && cs[k].position == p;
        assert r[k].position == p;
      } else {
        // q is not tracked yet, so the visit appends it
        assert r[|cs|].position == q;
      }
    }
  }

  /** One visit bumps exactly the entry at q, appending it when it is missing. */
  lemma TouchBumpsOne(cs: seq<Cell>, q: Vector2D)
    requires UniquePositions(cs)
    ensures var r := Touch(cs, q);
      && UniquePositions(r)
      && Extends(cs, r)
      && |r| <= |cs| + 1
      && Tracked(r) == Tracked(cs) + {q}
      && forall k :: 0 <= k < |r| ==> r[k].count == Prior(cs, k) + (if r[k].position == q then 1 else 0)
  {
    TouchTracked(cs, q);
    TouchExtends(cs, q);
    var r := Touch(cs, q);
    var i := IndexOf(cs, q);
    if i == -1 {
      assert r[|cs|].position == q;
    } else {
      assert r[i].position == q;
    }
  }

  /** The count bookkeeping of one more visit, stated over the lists alone. */
  lemma CountsAfterOneMoreVisit(cs: seq<Cell>, mid: seq<Cell>, r: seq<Cell>, src: Vector2D,
                                init: seq<Vector2D>, d: Vector2D)
    requires |cs| <= |mid| && Extends(mid, r)
    requires forall k :: 0 <= k < |mid| ==> mid[k].count == Prior(cs, k) + Hits(src, init, mid[k].position)
    requires forall k :: 0 <= k < |r| ==>
               r[k].count == Prior(mid, k) + (if r[k].position == src.Add(d.x, d.y) then 1 else 0)
    requires forall k :: |mid| <= k < |r| ==> Hits(src, init, r[k].position) == 0
    ensures forall k :: 0 <= k < |r| ==> r[k].count == Prior(cs, k) + Hits(src, init + [d], r[k].position)
  {
    assert (init + [d])[..|init|] == init;
  }

  /** One more visit after the visits of init, stated over the list before it. */
  lemma TouchStep(cs: seq<Cell>, src: Vector2D, init: seq<Vector2D>, d: Vector2D, mid: seq<Cell>)
    requires UniquePositions(mid) && |cs| <= |mid|
    requires forall i :: 0 <= i < |init| ==> src.Add(init[i].x, init[i].y) in Tracked(mid)
    requires forall k :: 0 <= k < |mid| ==> mid[k].count == Prior(cs, k) + Hits(src, init, mid[k].position)
    ensures var r := Touch(mid, src.Add(d.x, d.y)); var ds := init + [d];
      && UniquePositions(r)
      && (forall i :: 0 <= i < |ds| ==> src.Add(ds[i].x, ds[i].y) in Tracked(r))
      && forall k :: 0 <= k < |r| ==> r[k].count == Prior(cs, k) + Hits(src, ds, r[k].position)
  {
    var q := src.Add(d.x, d.y);
    var r := Touch(mid, q);
    var ds := init + [d];
    TouchBumpsOne(mid, q);
    ExtensionAddsNewPositions(mid, r);
    forall i | 0 <= i < |ds| ensures src.Add(ds[i].x, ds[i].y) in Tracked(r) {
      if i < |init| {
        assert ds[i] == init[i];
      }
    }
    forall k | |mid| <= k < |r| ensures Hits(src, init, r[k].position) == 0 {
      // a fresh entry: no earlier offset reached its position
      NoHits(src, init, r[k].position);
    }
    CountsAfterOneMoreVisit(cs, mid, r, src, init, d);
  }

  /** TouchStep for the visit of ds[n - 1] after those of ds[..n - 1]. */
  lemma TouchNext(cs: seq<Cell>, src: Vector2D, ds: seq<Vector2D>, n: nat)
    requires 0 < n <= |ds|
    requires var mid := TouchAll(cs, src, ds, n - 1);
      && UniquePositions(mid)
      && (forall i :: 0 <= i < n - 1 ==> src.Add(ds[i].x, ds[i].y) in Tracked(mid))
      && forall k :: 0 <= k < |mid| ==> mid[k].count == Prior(cs, k) + Hits(src, ds[..n - 1], mid[k].position)
    ensures var r := TouchAll(cs, src, ds, n);
      && UniquePositions(r)
      && (forall i :: 0 <= i < n ==> src.Add(ds[i].x, ds[i].y) in Tracked(r))
      && forall k :: 0 <= k < |r| ==> r[k].count == Prior(cs, k) + Hits(src, ds[..n], r[k].position)
  {
    var mid := TouchAll(cs, src, ds, n - 1);
    var init, d := ds[..n - 1], ds[n - 1];
    assert ds[..n] == init + [d];
    forall i | 0 <= i < |init| ensures src.Add(init[i].x, init[i].y) in Tracked(mid) {
      assert init[i] == ds[i];
    }
    TouchStep(cs, src, init, d, mid);
    assert TouchAll(cs, src, ds, n) == Touch(mid, src.Add(d.x, d.y));
    forall i | 0 <= i < n ensures ds[i] == (init + [d])[i] {
    }
  }

  /** The visits of the first n offsets from src: each entry gains one per offset that lands on it. */
  lemma {:induction false} TouchAllCounts(cs: seq<Cell>, src: Vector2D, ds: seq<Vector2D>, n: nat)
    requires UniquePositions(cs) && n <= |ds|
    ensures var r := TouchAll(cs, src, ds, n);
      && UniquePositions(r)
      && (forall i :: 0 <= i < n ==> src.Add(ds[i].x, ds[i].y) in Tracked(r))
      && forall k :: 0 <= k < |r| ==> r[k].count == Prior(cs, k) + Hits(src, ds[..n], r[k].position)
  {
    if n > 0 {
      TouchAllCounts(cs, src, ds, n - 1);
      TouchNext(cs, src, ds, n);
    } else {
      assert ds[..n] == [];
    }
  }

  /** A position that no live source among the first m reached has no live neighbour among them. */
  lemma UntrackedHasNoLiveNeighbour(cs: seq<Cell>, m: nat, mid: seq<Cell>, p: Vector2D)
    requires m <= |cs|
    requires forall j, q :: 0 <= j < m && cs[j].alive && Adjacent(cs[j].position, q) ==> q in Tracked(mid)
    requires p !in Tracked(mid)
    ensures LiveAdjacentBefore(cs, m, p) == 0
  {
    if LiveAdjacentBefore(cs, m, p) > 0 {
      LiveAdjacentWitness(cs, m, p);
    }
  }

  /** The count bookkeeping of one more live source, stated over the lists alone. */
  lemma CountsAfterOneMoreSource(cs: seq<Cell>, n: nat, mid: seq<Cell>, r: seq<Cell>)
    requires 0 < n <= |cs| <= |mid| && Extends(mid, r) && cs[n - 1].alive
    requires forall k :: 0 <= k < |mid| ==>
               mid[k].count == Prior(cs, k) + LiveAdjacentBefore(cs, n - 1, mid[k].position)
    requires forall k :: 0 <= k < |r| ==>
               r[k].count == Prior(mid, k) + Hits(cs[n - 1].position, Offsets, r[k].position)
    requires forall j, q :: 0 <= j < n - 1 && cs[j].alive && Adjacent(cs[j].position, q) ==> q in Tracked(mid)
    requires forall k :: |mid| <= k < |r| ==> r[k].position !in Tracked(mid)
    ensures forall k :: 0 <= k < |r| ==> r[k].count == Prior(cs, k) + LiveAdjacentBefore(cs, n, r[k].position)
  {
    forall k | 0 <= k < |r|
      ensures r[k].count == Prior(cs, k) + LiveAdjacentBefore(cs, n, r[k].position)
    {
      HitsOfOffsets(cs[n - 1].position, r[k].position);
      if k >= |mid| {
        UntrackedHasNoLiveNeighbour(cs, n - 1, mid, r[k].position);
      }
    }
  }

  /** One more source of the propagate pass keeps positions unique and tracks its neighbours. */
  lemma PropagateEntityTracks(cs: seq<Cell>, n: nat, mid: seq<Cell>)
    requires 0 < n <= |cs| && Extends(cs, mid) && UniquePositions(mid)
    requires forall j, q :: 0 <= j < n - 1 && cs[j].alive && Adjacent(cs[j].position, q) ==> q in Tracked(mid)
    ensures var r := PropagateEntity(mid, n - 1);
      && UniquePositions(r)
      && forall j, q :: 0 <= j < n && cs[j].alive && Adjacent(cs[j].position, q) ==> q in Tracked(r)
  {
    var src := cs[n - 1].position;
    if cs[n - 1].alive {
      var r := TouchAll(mid, src, Offsets, |Offsets|);
      TouchAllCounts(mid, src, Offsets, |Offsets|);
      TouchAllExtends(mid, src, Offsets, |Offsets|);
      assert Offsets[..|Offsets|] == Offsets;
      ExtensionAddsNewPositions(mid, r);
      forall j, q | 0 <= j < n && cs[j].alive && Adjacent(cs[j].position, q)
        ensures q in Tracked(r)
      {
        if j == n - 1 {
          var i := OffsetIndex(src, q);
        }
      }
    }
  }

  /** After the first n sources: positions stay unique and every neighbour of a live source is tracked. */
  lemma {:induction false} PropagateUpToTracks(cs: seq<Cell>, n: nat)
    requires UniquePositions(cs) && n <= |cs|
    ensures var r := PropagateUpTo(cs, n);
      && UniquePositions(r)
      && forall j, q :: 0 <= j < n && cs[j].alive && Adjacent(cs[j].position, q) ==> q in Tracked(r)
  {
    if n > 0 {
      PropagateUpToTracks(cs, n - 1);
      PropagateUpToExtends(cs, n - 1);
      PropagateEntityTracks(cs, n, PropagateUpTo(cs, n - 1));
    }
  }

  /** One more source of the propagate pass, stated over the list before it. */
  lemma PropagateEntityCounts(cs: seq<Cell>, n: nat, mid: seq<Cell>)
    requires 0 < n <= |cs| && Extends(cs, mid) && UniquePositions(mid)
    requires forall k :: 0 <= k < |mid| ==>
               mid[k].count == Prior(cs, k) + LiveAdjacentBefore(cs, n - 1, mid[k].position)
    requires forall j, q :: 0 <= j < n - 1 && cs[j].alive && Adjacent(cs[j].position, q) ==> q in Tracked(mid)
    ensures var r := PropagateEntity(mid, n - 1);
      forall k :: 0 <= k < |r| ==> r[k].count == Prior(cs, k) + LiveAdjacentBefore(cs, n, r[k].position)
  {
    var src := cs[n - 1].position;
    if cs[n - 1].alive {
      var r := TouchAll(mid, src, Offsets, |Offsets|);
      TouchAllCounts(mid, src, Offsets, |Offsets|);
      TouchAllExtends(mid, src, Offsets, |Offsets|);
      assert Offsets[..|Offsets|] == Offsets;
      ExtensionAddsNewPositions(mid, r);
      CountsAfterOneMoreSource(cs, n, mid, r);
    }
  }

  /** After the first n sources: each entry has gained one per live neighbour among them. */
  lemma {:induction false} PropagateUpToCounts(cs: seq<Cell>, n: nat)
    requires UniquePositions(cs) && n <= |cs|
    ensures var r := PropagateUpTo(cs, n);
      forall k :: 0 <= k < |r| ==> r[k].count == Prior(cs, k) + LiveAdjacentBefore(cs, n, r[k].position)
  {
    if n > 0 {
      PropagateUpToCounts(cs, n - 1);
      PropagateUpToTracks(cs, n - 1);
      PropagateUpToExtends(cs, n - 1);
      PropagateEntityCounts(cs, n, PropagateUpTo(cs, n - 1));
    }
  }

  /** The visits of the first n offsets from src track nothing new but neighbours of src. */
  lemma {:induction false} TouchAllTracksOnlyNeighbours(cs: seq<Cell>, src: Vector2D, ds: seq<Vector2D>, n: nat)
    requires n <= |ds|
    requires forall i :: 0 <= i < |ds| ==> Adjacent(src, src.Add(ds[i].x, ds[i].y))
    ensures forall p :: p in Tracked(TouchAll(cs, src, ds, n)) ==> p in Tracked(cs) || Adjacent(src, p)
  {
    if n > 0 {
      TouchAllTracksOnlyNeighbours(cs, src, ds, n - 1);
      TouchTracked(TouchAll(cs, src, ds, n - 1), src.Add(ds[n - 1].x, ds[n - 1].y));
    }
  }

  /** One source of the propagate pass tracks nothing new but the neighbours of a live source. */
  lemma PropagateEntityTracksOnly(cs: seq<Cell>, i: nat)
    requires i < |cs|
    ensures forall p :: p in Tracked(PropagateEntity(cs, i)) ==>
              p in Tracked(cs) || (cs[i].alive && Adjacent(cs[i].position, p))
  {
    var src := cs[i].position;
    if cs[i].alive {
      forall k | 0 <= k < |Offsets| ensures Adjacent(src, src.Add(Offsets[k].x, Offsets[k].y)) {
        var q := src.Add(Offsets[k].x, Offsets[k].y);
        OffsetsAreTheNeighbourhood(src, q);
        assert Vector2D(q.x - src.x, q.y - src.y) == Offsets[k];
      }
      TouchAllTracksOnlyNeighbours(cs, src, Offsets, |Offsets|);
    }
  }

  /** After the first n sources: every newly tracked position is a neighbour of a live one of them. */
  lemma {:induction false} PropagateUpToTracksOnly(cs: seq<Cell>, n: nat)
    requires n <= |cs|
    ensures forall p :: p in Tracked(PropagateUpTo(cs, n)) ==>
              p in Tracked(cs) || exists j :: 0 <= j < n && cs[j].alive && Adjacent(cs[j].position, p)
  {
    if n > 0 {
      var mid := PropagateUpTo(cs, n - 1);
      PropagateUpToTracksOnly(cs, n - 1);
      PropagateUpToExtends(cs, n - 1);
      PropagateEntityTracksOnly(mid, n - 1);
      assert mid[n - 1].position == cs[n - 1].position && mid[n - 1].alive == cs[n - 1].alive;
    }
  }

  /** Among position-unique entries, counting live neighbours by index is counting the set. */
  lemma {:induction false} LiveAdjacentIsNeighbourCount(cs: seq<Cell>, n: nat, p: Vector2D)
    requires UniquePositions(cs) && n <= |cs|
    ensures LiveAdjacentBefore(cs, n, p) == NeighbourCount(LiveSet(cs[..n]), p)
  {
    if n == 0 {
      assert LiveSet(cs[..0]) == {};
    } else {
      LiveAdjacentIsNeighbourCount(cs, n - 1, p);
      LiveSetPrefixStep(cs, n);
      NeighbourCountAddIf(LiveSet(cs[..n - 1]), cs[n - 1].alive, cs[n - 1].position, p);
    }
  }

  /**
   * LiveSetStep stated at the prefix length n, in the terms of the induction of
   * LiveAdjacentIsNeighbourCount, with what uniqueness adds: entry n - 1 is new
   * to the live set. LiveSetStep itself needs no uniqueness, and the save loop
   * uses it on lists that need not be position-unique.
   */
  lemma LiveSetPrefixStep(cs: seq<Cell>, n: nat)
    requires UniquePositions(cs) && 0 < n <= |cs|
    ensures LiveSet(cs[..n]) ==
            LiveSet(cs[..n - 1]) + (if cs[n - 1].alive then {cs[n - 1].position} else {})
    ensures cs[n - 1].position !in LiveSet(cs[..n - 1])
  {
    LiveSetStep(cs, n - 1);
    assert cs[..n - 1 + 1] == cs[..n];
    NotEarlierLive(cs, n - 1);
  }

  /** In a position-unique list no earlier entry is live at the position of entry i. */
  lemma NotEarlierLive(cs: seq<Cell>, i: nat)
    requires UniquePositions(cs) && i < |cs|
    ensures cs[i].position !in LiveSet(cs[..i])
  {
    forall k | 0 <= k < i
      ensures cs[..i][k].position != cs[i].position
    {
      assert cs[..i][k] == cs[k];
    }
  }

  /** After reset and propagate: each count is the number of live neighbours at pass start. */
  lemma PropagateCorrect(cs: seq<Cell>)
    requires UniquePositions(cs)
    ensures var r := Propagate(ResetCounts(cs));
      && UniquePositions(r)
      && LiveSet(r) == LiveSet(cs)
      && (forall k :: 0 <= k < |r| ==> r[k].count == NeighbourCount(LiveSet(cs), r[k].position))
      && (forall p :: NeighbourCount(LiveSet(cs), p) >= 1 ==> p in Tracked(r))
      && Tracked(r) == Tracked(cs) + set p | p in Frontier(LiveSet(cs)) && NeighbourCount(LiveSet(cs), p) >= 1
  {
    var z := ResetCounts(cs);
    var r := Propagate(z);
    assert LiveSet(z) == LiveSet(cs);
    assert z[..|z|] == z;
    PropagateUpToTracks(z, |z|);
    PropagateUpToCounts(z, |z|);
    PropagateUpToExtends(z, |z|);
    ExtensionAddsNewPositions(z, r);
    forall k | 0 <= k < |r| ensures r[k].count == NeighbourCount(LiveSet(cs), r[k].position) {
      LiveAdjacentIsNeighbourCount(z, |z|, r[k].position);
    }
    forall p | NeighbourCount(LiveSet(cs), p) >= 1
      ensures p in Tracked(r)
    {
      var q :| q in LiveNeighbours(LiveSet(cs), p);
      var j :| 0 <= j < |z| && z[j].alive && z[j].position == q;
    }
    PropagateTrackedExactly(cs, z, r);
  }

  /** What the propagate pass adds to the tracked positions: the frontier cells with a live neighbour. */
  lemma PropagateTrackedExactly(cs: seq<Cell>, z: seq<Cell>, r: seq<Cell>)
    requires z == ResetCounts(cs) && r == Propagate(z) && Extends(z, r) && UniquePositions(r)
    requires forall p :: NeighbourCount(LiveSet(cs), p) >= 1 ==> p in Tracked(r)
    ensures Tracked(r) == Tracked(cs) + set p | p in Frontier(LiveSet(cs)) && NeighbourCount(LiveSet(cs), p) >= 1
  {
    var live := LiveSet(cs);
    assert LiveSet(z) == live;
    assert Tracked(z) == Tracked(cs) by {
      forall p | p in Tracked(cs) ensures p in Tracked(z) {
        var k :| 0 <= k < |cs| && cs[k].position == p;
        assert z[k].position == p;
      }
    }
    ExtensionAddsNewPositions(z, r);
    PropagateUpToTracksOnly(z, |z|);
    forall p | p in Tracked(r) && p !in Tracked(cs)
      ensures p in Frontier(live) && NeighbourCount(live, p) >= 1
    {
      var j :| 0 <= j < |z| && z[j].alive && Adjacent(z[j].position, p);
      assert z[j].position in live;
      InFrontier(live, p, z[j].position);
      assert z[j].position in LiveNeighbours(live, p);
    }
    forall p | NeighbourCount(live, p) >= 1 ensures p in Frontier(live) {
      var q :| q in LiveNeighbours(live, p);
      InFrontier(live, p, q);
    }
  }

  /** The rule applied to counts of live neighbours yields the Conway successor. */
  lemma RuleGivesSuccessor(live: set<Vector2D>, r: seq<Cell>)
    requires forall k :: 0 <= k < |r| ==> (r[k].alive <==> r[k].position in live)
    requires forall k :: 0 <= k < |r| ==> r[k].count == NeighbourCount(live, r[k].position)
    requires forall p :: NeighbourCount(live, p) >= 1 ==> p in Tracked(r)
    ensures LiveSet(ApplyRule(r)) == Next(live)
  {
    var a := ApplyRule(r);
    forall p | p in LiveSet(a) ensures p in Next(live) {
      var k :| 0 <= k < |a| && a[k].alive && a[k].position == p;
      NextIsConwaySuccessor(live, p);
    }
    forall p | p in Next(live) ensures p in LiveSet(a) {
      NextIsConwaySuccessor(live, p);
      var k :| 0 <= k < |r| && r[k].position == p;
      assert a[k].alive;
    }
  }

  /** The entries kept among the first n have distinct positions when cs does. */
  lemma {:induction false} PruneUpToUnique(cs: seq<Cell>, n: nat)
    requires UniquePositions(cs) && n <= |cs|
    ensures UniquePositions(PruneUpTo(cs, n))
  {
    if n > 0 {
      PruneUpToUnique(cs, n - 1);
      PruneUpToMembers(cs, n - 1);
      var p := PruneUpTo(cs, n - 1);
      forall c | c in p ensures c.position != cs[n - 1].position {
        var k :| 0 <= k < n - 1 && cs[..n - 1][k] == c;
        assert cs[k] == c;
      }
    }
  }

  /** Clean-up keeps positions unique: PruneUpToUnique for the whole list. */
  lemma PruneUnique(cs: seq<Cell>)
    requires UniquePositions(cs)
    ensures UniquePositions(Prune(cs))
  {
    PruneUpToUnique(cs, |cs|);
  }

  /** Clean-up removes no live entry whose count is not 0, and every survivor has a non-zero count. */
  lemma PruneKeepsCounted(a: seq<Cell>)
    requires forall k :: 0 <= k < |a| ==> a[k].alive ==> a[k].count != 0
    ensures LiveSet(Prune(a)) == LiveSet(a)
    ensures forall k :: 0 <= k < |Prune(a)| ==> Prune(a)[k].count != 0
    ensures Tracked(Prune(a)) == set k | 0 <= k < |a| && a[k].count != 0 :: a[k].position
  {
    var g := Prune(a);
    PruneMembers(a);
    forall p | p in LiveSet(a) ensures p in LiveSet(g) {
      var k :| 0 <= k < |a| && a[k].alive && a[k].position == p;
      assert a[k] in g;
      var j :| 0 <= j < |g| && g[j] == a[k];
    }
    forall p | p in LiveSet(g) ensures p in LiveSet(a) {
      var j :| 0 <= j < |g| && g[j].alive && g[j].position == p;
      assert g[j] in a;
      var k :| 0 <= k < |a| && a[k] == g[j];
    }
    forall k | 0 <= k < |g| ensures g[k].count != 0 {
      assert g[k] in a;
    }
    forall p | p in Tracked(g) ensures p in set k | 0 <= k < |a| && a[k].count != 0 :: a[k].position {
      var j :| 0 <= j < |g| && g[j].position == p;
      assert g[j] in a;
      var k :| 0 <= k < |a| && a[k] == g[j];
    }
    forall p | p in (set k | 0 <= k < |a| && a[k].count != 0 :: a[k].position) ensures p in Tracked(g) {
      var k :| 0 <= k < |a| && a[k].count != 0 && a[k].position == p;
      assert a[k] in g;
      var j :| 0 <= j < |g| && g[j] == a[k];
    }
  }

  /** The live set after one generation is the Conway successor; clean-up prunes no live entry. */
  lemma GenerationLive(cs: seq<Cell>)
    requires UniquePositions(cs)
    ensures LiveSet(Generation(cs)) == Next(LiveSet(cs))
    ensures LiveSet(Generation(cs)) == LiveSet(ApplyRule(Propagate(ResetCounts(cs))))
  {
    var r := Propagate(ResetCounts(cs));
    PropagateCorrect(cs);
    AliveIsMembership(r);
    RuleGivesSuccessor(LiveSet(cs), r);
    PruneKeepsCounted(ApplyRule(r));
  }

  /** After one generation every entry's count is its number of live neighbours before it, at least 1. */
  lemma GenerationCounts(cs: seq<Cell>)
    requires UniquePositions(cs)
    ensures var g := Generation(cs);
      && UniquePositions(g)
      && forall k :: 0 <= k < |g| ==> g[k].count >= 1 && g[k].count == NeighbourCount(LiveSet(cs), g[k].position)
  {
    var r := Propagate(ResetCounts(cs));
    var a := ApplyRule(r);
    var g := Prune(a);
    PropagateCorrect(cs);
    PruneUnique(a);
    PruneMembers(a);
    forall k | 0 <= k < |g|
      ensures g[k].count >= 1 && g[k].count == NeighbourCount(LiveSet(cs), g[k].position)
    {
      assert g[k] in a;
    }
  }

  /** Entries whose count of live neighbours is not 0 sit exactly on the positions with a live neighbour. */
  lemma CountedIsFrontier(live: set<Vector2D>, r: seq<Cell>)
    requires forall k :: 0 <= k < |r| ==> r[k].count == NeighbourCount(live, r[k].position)
    requires forall p :: NeighbourCount(live, p) >= 1 ==> p in Tracked(r)
    ensures (set k | 0 <= k < |r| && r[k].count != 0 :: r[k].position) ==
            set p | p in Frontier(live) && NeighbourCount(live, p) >= 1
  {
    var frontier := set p | p in Frontier(live) && NeighbourCount(live, p) >= 1;
    var counted := set k | 0 <= k < |r| && r[k].count != 0 :: r[k].position;
    forall p | p in counted ensures p in frontier {
      if p !in Frontier(live) {
        OffFrontierIsolated(live, p);
      }
    }
    forall p | p in frontier ensures p in counted {
      assert p in Tracked(r);
      var k :| 0 <= k < |r| && r[k].position == p;
      assert r[k].count != 0;
    }
  }

  /** After one generation the tracked positions are exactly those that had a live neighbour. */
  lemma GenerationTracked(cs: seq<Cell>)
    requires UniquePositions(cs)
    ensures Tracked(Generation(cs)) ==
            set p | p in Frontier(LiveSet(cs)) && NeighbourCount(LiveSet(cs), p) >= 1
  {
    var r := Propagate(ResetCounts(cs));
    var a := ApplyRule(r);
    PropagateCorrect(cs);
    AliveIsMembership(r);
    PruneKeepsCounted(a);
    CountedIsFrontier(LiveSet(cs), r);
    assert (set k | 0 <= k < |a| && a[k].count != 0 :: a[k].position) ==
           (set k | 0 <= k < |r| && r[k].count != 0 :: r[k].position);
  }

  /**
   * One generation on a position-unique list: the live set becomes the Conway
   * successor, no live entry is pruned, every survivor has a positive count equal to
   * its live neighbours before the step, and the tracked positions are exactly those
   * with a live neighbour before the step.
   */
  lemma GenerationCorrect(cs: seq<Cell>)
    requires UniquePositions(cs)
    ensures var g := Generation(cs);
      && UniquePositions(g)
      && LiveSet(g) == Next(LiveSet(cs))
      && LiveSet(g) == LiveSet(ApplyRule(Propagate(ResetCounts(cs))))
      && (forall k :: 0 <= k < |g| ==> g[k].count >= 1 && g[k].count == NeighbourCount(LiveSet(cs), g[k].position))
      && Tracked(g) == set p | p in Frontier(LiveSet(cs)) && NeighbourCount(LiveSet(cs), p) >= 1
  {
    GenerationLive(cs);
    GenerationCounts(cs);
    GenerationTracked(cs);
  }

  /** In a position-unique list the alive flag of an entry is membership of its position in the live set. */
  lemma AliveIsMembership(cs: seq<Cell>)
    requires UniquePositions(cs)
    ensures forall k :: 0 <= k < |cs| ==> (cs[k].alive <==> cs[k].position in LiveSet(cs))
  {
  }

  /** The live set of one more entry of a list, whether or not positions are unique. */
  lemma LiveSetStep(cs: seq<Cell>, i: nat)
    requires i < |cs|
    ensures LiveSet(cs[..i + 1]) == LiveSet(cs[..i]) + (if cs[i].alive then {cs[i].position} else {})
  {
    var a, b := cs[..i + 1], cs[..i];
    forall p | p in LiveSet(b) ensures p in LiveSet(a) {
      var k :| 0 <= k < |b| && b[k].alive && b[k].position == p;
      assert a[k] == b[k];
    }
    assert a[i] == cs[i];
  }

  /**
   * The propagate pass visits index i after the first min(i, |cs|) entries; an
   * index past the original length holds a dead entry and changes nothing.
   */
  lemma PropagateUpToNext(cs: seq<Cell>, i: nat)
    requires i < |PropagateUpTo(cs, if i <= |cs| then i else |cs|)|
    ensures var n := if i <= |cs| then i else |cs|;
      var n' := if i + 1 <= |cs| then i + 1 else |cs|;
      PropagateEntity(PropagateUpTo(cs, n), i) == PropagateUpTo(cs, n')
  {
    if |cs| <= i {
      PropagateUpToExtends(cs, |cs|);
    }
  }

  lemma {:induction false} PruneUpToCons(c: Cell, t: seq<Cell>, n: nat)
    requires n <= |t|
    ensures PruneUpTo([c] + t, n + 1) == (if c.count == 0 then [] else [c]) + PruneUpTo(t, n)
  {
    if n > 0 {
      PruneUpToCons(c, t, n - 1);
      assert ([c] + t)[n] == t[n - 1];
    }
  }

  /** Filtering a list with a head: the head is kept exactly when its count is not 0. */
  lemma PruneCons(c: Cell, t: seq<Cell>)
    ensures Prune([c] + t) == (if c.count == 0 then [] else [c]) + Prune(t)
  {
    PruneUpToCons(c, t, |t|);
  }

  /** Once the first i entries are all kept, the loop keeps them and filters the rest. */
  lemma {:induction false} CleanUpFromFilters(cs: seq<Cell>, i: nat)
    requires i <= |cs|
    requires forall k :: 0 <= k < i ==> cs[k].count != 0
    ensures CleanUpFrom(cs, i) == cs[..i] + Prune(cs[i..])
    decreases |cs| - i
  {
    if i == |cs| {
      assert cs[..i] == cs && cs[i..] == [];
    } else if cs[i].count == 0 {
      var rest := cs[..i] + cs[i + 1..];
      assert rest[..i] == cs[..i] && rest[i..] == cs[i + 1..];
      CleanUpFromFilters(rest, i);
      assert cs[i..] == [cs[i]] + cs[i + 1..];
      PruneCons(cs[i], cs[i + 1..]);
      assert Prune(cs[i..]) == Prune(cs[i + 1..]);
    } else {
      CleanUpFromFilters(cs, i + 1);
      assert cs[i..] == [cs[i]] + cs[i + 1..];
      PruneCons(cs[i], cs[i + 1..]);
      assert cs[..i + 1] + Prune(cs[i + 1..]) == cs[..i] + ([cs[i]] + Prune(cs[i + 1..]));
    }
  }

  /** The in-place loop of cleanUpEntities computes the filter Prune. */
  lemma CleanUpIsPrune(cs: seq<Cell>)
    ensures CleanUpFrom(cs, 0) == Prune(cs)
  {
    CleanUpFromFilters(cs, 0);
    assert cs[..0] == [] && cs[0..] == cs;
  }
}
