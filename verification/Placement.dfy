/** Which cells of the ring are taken, and how the encoder finds free ones. */
module Placement {
  import opened Bytes
  import opened Ring

  /** p lies in one of the four-cell windows that start at ws. */
  predicate InWindows(ws: seq<Index>, p: Index) {
    exists j :: 0 <= j < |ws| && Dist(ws[j], p) < 4
  }

  /** The cells in use once k slots from beg and the windows ws have been handed out. */
  predicate Occupied(beg: Index, k: nat, ws: seq<Index>, p: Index) {
    p == MARKER || Rank(beg, p) < k || InWindows(ws, p)
  }

  /** The occupancy map at that moment. */
  function Taken(beg: Index, k: nat, ws: seq<Index>): (bucket: seq<bool>)
    ensures |bucket| == 256
    ensures forall p: Index :: bucket[p] <==> Occupied(beg, k, ws, p)
  {
    seq(256, p requires 0 <= p < 256 => Occupied(beg, k, ws, p))
  }

  /** Which cells that are, in plain numbers: cell 97, the first k cells of the walk, and four cells from each window on. */
  lemma OccupiedInNumbers(beg: Index, k: nat, ws: seq<Index>, p: Index)
    requires beg != 97 && k < 255
    ensures Occupied(beg, k, ws, p) <==>
            || p == 97
            || (exists r: nat :: r < k && p == Slot(beg, r))
            || (exists j: nat, d: nat :: j < |ws| && d < 4 && p == Around(ws[j], d))
  {
    if p != 97 {
      RankSlot(beg, p);
      forall r: nat | r < k
        ensures Rank(beg, Slot(beg, r)) == r
      {
        SlotRank(beg, r);
      }
    }
    forall j: nat | j < |ws|
      ensures Dist(ws[j], p) < 4 <==> exists d: nat :: d < 4 && p == Around(ws[j], d)
    {
      assert p == Around(ws[j], Dist(ws[j], p));
      assert forall d: nat :: d < 4 ==> Dist(ws[j], Around(ws[j], d)) == d;
    }
  }

  /** A data window may start at w: none of its four cells, wrapping at the end, is in use. */
  predicate Accepts(bucket: seq<bool>, w: Index)
    requires |bucket| == 256
  {
    !bucket[w] && !bucket[After(w, 1)] && !bucket[After(w, 2)] && !bucket[After(w, 3)]
  }

  /** Cells a forward search from `from` passes before it stops at pos. */
  function Steps(from: Index, pos: Index): nat {
    if from == pos then 256 else Dist(from, pos)
  }

  /** pos is the first free cell strictly after `from`, once around the ring; -1 when there is none. */
  ghost predicate NextFree(bucket: seq<bool>, from: Index, pos: int)
    requires |bucket| == 256
  {
    if pos == -1 then forall p: Index :: bucket[p]
    else 0 <= pos < 256 && !bucket[pos] && forall p: Index :: Steps(from, p) < Steps(from, pos) ==> bucket[p]
  }

  lemma NextFreeIsUnique(bucket: seq<bool>, from: Index, a: int, b: int)
    requires |bucket| == 256 && NextFree(bucket, from, a) && NextFree(bucket, from, b)
    ensures a == b
  {}

  /** NextFree in plain numbers: the first of the cells from + 1 to from + 256, modulo 256, that is free. */
  lemma NextFreeInNumbers(bucket: seq<bool>, from: Index, pos: Index)
    requires |bucket| == 256
    ensures NextFree(bucket, from, pos) <==>
            exists d: nat :: 1 <= d <= 256 && pos == Around(from, d) && !bucket[pos]
                             && forall e: nat :: 1 <= e < d ==> bucket[Around(from, e)]
  {
    var d := Steps(from, pos);
    assert pos == Around(from, d);
    forall e: nat | 1 <= e <= 256
      ensures Steps(from, Around(from, e)) == e
    {}
    if d': nat :| 1 <= d' <= 256 && pos == Around(from, d') && !bucket[pos] && forall e: nat :: 1 <= e < d' ==> bucket[Around(from, e)] {
      assert d' == d;
      forall p: Index | Steps(from, p) < d
        ensures bucket[p]
      {
        assert p == Around(from, Steps(from, p));
      }
    }
  }

  method GetFreePos(bucket: array<bool>, from: Index) returns (pos: int)
    requires bucket.Length == 256
    ensures NextFree(bucket[..], from, pos)
  {
    var cur := from;
    for i := 0 to 256
      invariant i < 256 ==> cur == After(from, i)
      invariant i == 256 ==> cur == from
      invariant forall p: Index :: Steps(from, p) <= i ==> bucket[p]
    {
      var next := cur + 1;
      if next == 256 {
        next := 0;
      }
      assert Steps(from, next) == i + 1;
      cur := next;
      if bucket[cur] {
        continue;
      }
      return cur;
    }
    return -1;
  }

  /** Layout agreement: the encoder's search over the occupancy map takes the decoder's stateless step. */
  lemma FreeWalkIsNextWalk(beg: Index, k: nat, pos: int)
    requires beg != MARKER && 1 <= k < 255
    requires NextFree(Taken(beg, k, []), Slot(beg, k - 1), pos)
    ensures pos == NextIdx(Slot(beg, k - 1)) == Slot(beg, k)
  {
    var from, next := Slot(beg, k - 1), Slot(beg, k);
    SlotRank(beg, k);
    SlotRank(beg, k - 1);
    assert !Taken(beg, k, [])[next];
    assert NextFree(Taken(beg, k, []), from, next);
    NextFreeIsUnique(Taken(beg, k, []), from, pos, next);
  }

  // What stands in the ring while it is being laid out. The lemmas hold for cells of any type.

  /** Where the m-th data cell is when the windows are ws. */
  function DataCell(ws: seq<Index>, m: nat): Index
    requires m < 4 * |ws|
  {
    After(ws[m / 4], m % 4)
  }

  /** `now` is `was` with the block written into the window at w, wrapping at the end. */
  ghost predicate Placed<T>(now: seq<T>, was: seq<T>, block: seq<T>, w: Index)
    requires |now| == |was| == 256
  {
    forall p: Index :: now[p] == if Dist(w, p) < |block| then block[Dist(w, p)] else was[p]
  }

  /** The marker cell holds `mark`, the slots walked from beg hold `slots`, the windows ws hold `data`,
      and every other cell still holds what `fill` has there. */
  ghost predicate Laid<T>(ring: seq<T>, fill: seq<T>, beg: Index, mark: T, slots: seq<T>, ws: seq<Index>, data: seq<T>)
    requires |fill| == 256 && |data| <= 4 * |ws|
  {
    && |ring| == 256
    && ring[MARKER] == mark
    && (forall p: Index :: p != MARKER && Rank(beg, p) < |slots| ==> ring[p] == slots[Rank(beg, p)])
    && (forall m :: 0 <= m < |data| ==> ring[DataCell(ws, m)] == data[m])
    && (forall p: Index ::
          (p != MARKER && Rank(beg, p) >= |slots| && forall m :: 0 <= m < |data| ==> DataCell(ws, m) != p)
          ==> ring[p] == fill[p])
  }

  /** The description leaves nothing open. */
  lemma LayoutIsUnique<T>(a: seq<T>, b: seq<T>, fill: seq<T>, beg: Index, mark: T, slots: seq<T>, ws: seq<Index>, data: seq<T>)
    requires |fill| == 256 && |data| <= 4 * |ws|
    requires Laid(a, fill, beg, mark, slots, ws, data) && Laid(b, fill, beg, mark, slots, ws, data)
    ensures a == b
  {
    forall p: Index
      ensures a[p] == b[p]
    {
      if m :| 0 <= m < |data| && DataCell(ws, m) == p {
        assert a[DataCell(ws, m)] == b[DataCell(ws, m)];
      }
    }
  }

  /** Every window was free when it was chosen, next to k slots from beg and the windows before it. */
  ghost predicate Clear(beg: Index, k: nat, ws: seq<Index>) {
    ws == [] || (Clear(beg, k, ws[..|ws| - 1]) && Accepts(Taken(beg, k, ws[..|ws| - 1]), ws[|ws| - 1]))
  }

  lemma CellInWindow(ws: seq<Index>, m: nat)
    requires m < 4 * |ws|
    ensures Dist(ws[m / 4], DataCell(ws, m)) == m % 4
  {}

  /** The cells of a window that was accepted last. */
  lemma LastWindowIsAway(beg: Index, k: nat, ws: seq<Index>, m: nat)
    requires |ws| > 0 && 4 * (|ws| - 1) <= m < 4 * |ws|
    requires Accepts(Taken(beg, k, ws[..|ws| - 1]), ws[|ws| - 1])
    ensures DataCell(ws, m) != MARKER && Rank(beg, DataCell(ws, m)) >= k
    ensures forall e :: 0 <= e < m ==> DataCell(ws, e) != DataCell(ws, m)
  {
    var before, c := ws[..|ws| - 1], DataCell(ws, m);
    CellInWindow(ws, m);
    assert !Occupied(beg, k, before, c);
    forall e | 0 <= e < m
      ensures DataCell(ws, e) != c
    {
      CellInWindow(ws, e);
      if e < 4 * |before| {
        assert before[e / 4] == ws[e / 4];
      }
    }
  }

  /** Marker, slots and all data cells are pairwise different cells. */
  lemma {:induction false} ClearCellsAreDisjoint(beg: Index, k: nat, ws: seq<Index>, m: nat)
    requires Clear(beg, k, ws) && m < 4 * |ws|
    ensures DataCell(ws, m) != MARKER && Rank(beg, DataCell(ws, m)) >= k
    ensures forall e :: 0 <= e < m ==> DataCell(ws, e) != DataCell(ws, m)
  {
    var before := ws[..|ws| - 1];
    if m < 4 * |before| {
      ClearCellsAreDisjoint(beg, k, before, m);
      assert forall e :: 0 <= e <= m ==> DataCell(ws, e) == DataCell(before, e);
    } else {
      LastWindowIsAway(beg, k, ws, m);
    }
  }

  lemma LaySlot<T>(ring: seq<T>, fill: seq<T>, beg: Index, mark: T, slots: seq<T>, v: T)
    requires |fill| == 256 && beg != MARKER && |slots| < 255
    requires Laid(ring, fill, beg, mark, slots, [], [])
    ensures ring[Slot(beg, |slots|)] == fill[Slot(beg, |slots|)]
    ensures Laid(ring[Slot(beg, |slots|) := v], fill, beg, mark, slots + [v], [], [])
  {
    SlotRank(beg, |slots|);
    forall p: Index | p != MARKER && Rank(beg, p) == |slots|
      ensures p == Slot(beg, |slots|)
    {
      RankSlot(beg, p);
    }
  }

  lemma RelaySlot<T>(ring: seq<T>, fill: seq<T>, beg: Index, mark: T, slots: seq<T>, ws: seq<Index>, data: seq<T>, r: nat, v: T)
    requires |fill| == 256 && |data| <= 4 * |ws| && beg != MARKER && r < |slots| < 255
    requires Laid(ring, fill, beg, mark, slots, ws, data) && Clear(beg, |slots|, ws)
    ensures Laid(ring[Slot(beg, r) := v], fill, beg, mark, slots[r := v], ws, data)
  {
    SlotRank(beg, r);
    forall m | 0 <= m < |data|
      ensures DataCell(ws, m) != Slot(beg, r)
    {
      ClearCellsAreDisjoint(beg, |slots|, ws, m);
    }
    forall p: Index | p != MARKER && Rank(beg, p) == r
      ensures p == Slot(beg, r)
    {
      RankSlot(beg, p);
    }
  }

  /** An accepted window meets no cell in use. */
  lemma WindowIsAway(beg: Index, k: nat, ws: seq<Index>, w: Index, p: Index)
    requires Accepts(Taken(beg, k, ws), w) && Occupied(beg, k, ws, p)
    ensures Dist(w, p) >= 4
  {
    assert After(w, Dist(w, p)) == p;
  }

  lemma KeptByBlock<T>(now: seq<T>, ring: seq<T>, beg: Index, k: nat, ws: seq<Index>, w: Index, block: seq<T>, m: nat)
    requires |ring| == |now| == 256 && |block| <= 4 && m < 4 * |ws|
    requires Accepts(Taken(beg, k, ws), w) && Placed(now, ring, block, w)
    ensures now[DataCell(ws, m)] == ring[DataCell(ws, m)]
    ensures DataCell(ws + [w], m) == DataCell(ws, m)
  {
    CellInWindow(ws, m);
    assert Occupied(beg, k, ws, DataCell(ws, m));
    WindowIsAway(beg, k, ws, w, DataCell(ws, m));
  }

  lemma PutByBlock<T>(now: seq<T>, ring: seq<T>, ws: seq<Index>, w: Index, block: seq<T>, d: nat)
    requires |ring| == |now| == 256 && d < |block| <= 4 && Placed(now, ring, block, w)
    ensures DataCell(ws + [w], 4 * |ws| + d) == After(w, d) && now[After(w, d)] == block[d]
  {
    assert Dist(w, After(w, d)) == d;
  }

  lemma LayBlock<T>(now: seq<T>, ring: seq<T>, fill: seq<T>, beg: Index, mark: T, slots: seq<T>, ws: seq<Index>, data: seq<T>,
                    w: Index, block: seq<T>)
    requires |fill| == 256 == |now| && |data| == 4 * |ws| && |block| <= 4
    requires Laid(ring, fill, beg, mark, slots, ws, data)
    requires Accepts(Taken(beg, |slots|, ws), w) && Placed(now, ring, block, w)
    ensures Laid(now, fill, beg, mark, slots, ws + [w], data + block)
  {
    forall p: Index | p == MARKER || Rank(beg, p) < |slots|
      ensures now[p] == ring[p]
    {
      WindowIsAway(beg, |slots|, ws, w, p);
    }
    forall m | 0 <= m < |data + block|
      ensures now[DataCell(ws + [w], m)] == (data + block)[m]
    {
      if m < |data| {
        KeptByBlock(now, ring, beg, |slots|, ws, w, block, m);
      } else {
        PutByBlock(now, ring, ws, w, block, m - |data|);
      }
    }
    forall p: Index |
      p != MARKER && Rank(beg, p) >= |slots| && forall m :: 0 <= m < |data + block| ==> DataCell(ws + [w], m) != p
      ensures now[p] == fill[p]
    {
      forall m | 0 <= m < |data|
        ensures DataCell(ws, m) != p
      {
        KeptByBlock(now, ring, beg, |slots|, ws, w, block, m);
      }
      if Dist(w, p) < |block| {
        PutByBlock(now, ring, ws, w, block, Dist(w, p));
      }
    }
  }

  lemma ClearMore(beg: Index, k: nat, ws: seq<Index>, w: Index)
    requires Clear(beg, k, ws) && Accepts(Taken(beg, k, ws), w)
    ensures Clear(beg, k, ws + [w])
  {
    assert (ws + [w])[..|ws|] == ws;
  }

  // Counting: why a window of four free cells is always left.

  lemma {:induction false} Pigeonhole(xs: seq<int>, n: nat)
    requires forall p :: 0 <= p < n ==> p in xs
    ensures |xs| >= n
  {
    if n > 0 {
      assert n - 1 in xs;
      var j :| 0 <= j < |xs| && xs[j] == n - 1;
      var rest := xs[..j] + xs[j + 1..];
      forall p | 0 <= p < n - 1
        ensures p in rest
      {
        assert p in xs;
        var i :| 0 <= i < |xs| && xs[i] == p;
        assert rest[if i < j then i else i - 1] == p;
      }
      Pigeonhole(rest, n - 1);
    }
  }

  /** The cells that may end a run of occupied cells: the marker, the last slot, the end of each window. */
  function RunEnds(beg: Index, k: nat, ws: seq<Index>): seq<Index>
    requires k > 0
  {
    [MARKER, Slot(beg, k - 1)] + seq(|ws|, j requires 0 <= j < |ws| => After(ws[j], 3))
  }

  lemma RunEndIsListed(beg: Index, k: nat, ws: seq<Index>, q: Index)
    requires beg != MARKER && 0 < k < 255
    requires Occupied(beg, k, ws, q) && !Occupied(beg, k, ws, After(q, 1))
    ensures q in RunEnds(beg, k, ws)
  {
    var ends := RunEnds(beg, k, ws);
    if q == MARKER {
      assert ends[0] == q;
    } else if Rank(beg, q) < k {
      RankSlot(beg, q);
      assert ends[1] == q;
    } else {
      var j :| 0 <= j < |ws| && Dist(ws[j], q) < 4;
      assert Dist(ws[j], After(q, 1)) >= 4;
      assert ends[2 + j] == q;
    }
  }

  function SlotCells(beg: Index, k: nat): seq<Index> {
    seq(k, r requires 0 <= r < k => Slot(beg, r))
  }

  function WindowCells(ws: seq<Index>): seq<Index> {
    seq(4 * |ws|, m requires 0 <= m < 4 * |ws| => After(ws[m / 4], m % 4))
  }

  function CellsBehind(ends: seq<Index>): seq<Index> {
    seq(3 * |ends|, m requires 0 <= m < 3 * |ends| => After(ends[m / 3], 1 + m % 3))
  }

  lemma OccupiedIsListed(beg: Index, k: nat, ws: seq<Index>, p: Index)
    requires beg != MARKER && Occupied(beg, k, ws, p)
    ensures p in [MARKER] + SlotCells(beg, k) + WindowCells(ws)
  {
    if p == MARKER {
    } else if Rank(beg, p) < k {
      RankSlot(beg, p);
      assert SlotCells(beg, k)[Rank(beg, p)] == p;
    } else {
      var j :| 0 <= j < |ws| && Dist(ws[j], p) < 4;
      assert WindowCells(ws)[4 * j + Dist(ws[j], p)] == p;
    }
  }

  /** Of the three cells before a free cell that cannot end a window, the nearest occupied one ends a run. */
  lemma RunBehind(beg: Index, k: nat, ws: seq<Index>, p: Index) returns (d: Index)
    requires !Occupied(beg, k, ws, p) && !Accepts(Taken(beg, k, ws), After(p, 253))
    ensures 1 <= d <= 3
    ensures var q := After(p, 256 - d); Occupied(beg, k, ws, q) && !Occupied(beg, k, ws, After(q, 1))
  {
    d := if Occupied(beg, k, ws, After(p, 255)) then 1 else if Occupied(beg, k, ws, After(p, 254)) then 2 else 3;
    var w := After(p, 253);
    assert After(w, 1) == After(p, 254) && After(w, 2) == After(p, 255) && After(w, 3) == p;
  }

  lemma FreeIsListed(beg: Index, k: nat, ws: seq<Index>, p: Index)
    requires beg != MARKER && 0 < k < 255
    requires !Occupied(beg, k, ws, p)
    requires !Accepts(Taken(beg, k, ws), After(p, 253))
    ensures p in CellsBehind(RunEnds(beg, k, ws))
  {
    var d := RunBehind(beg, k, ws, p);
    var q := After(p, 256 - d);
    RunEndIsListed(beg, k, ws, q);
    var ends := RunEnds(beg, k, ws);
    var j :| 0 <= j < |ends| && ends[j] == q;
    var m := 3 * j + (d - 1);
    assert m / 3 == j && m % 3 == d - 1;
    assert CellsBehind(ends)[m] == After(q, d) == p;
  }

  /** Placement never gets stuck: with k slots and any windows placed so far, few enough cells are
      taken that four free ones in a row remain. */
  lemma WindowAlwaysLeft(beg: Index, k: nat, ws: seq<Index>)
    requires beg != MARKER && 0 < k
    requires k + 7 * |ws| + 7 < 256
    ensures exists w: Index :: Accepts(Taken(beg, k, ws), w)
  {
    if forall w: Index :: !Accepts(Taken(beg, k, ws), w) {
      var used := [MARKER] + SlotCells(beg, k) + WindowCells(ws);
      var free := CellsBehind(RunEnds(beg, k, ws));
      forall p: int | 0 <= p < 256
        ensures p in used + free
      {
        if Occupied(beg, k, ws, p) {
          OccupiedIsListed(beg, k, ws, p);
        } else {
          FreeIsListed(beg, k, ws, p);
        }
      }
      Pigeonhole(used + free, 256);
    }
  }

  /** Thirty windows three cells apart, filling the ring behind 42 slots that start right after the marker. */
  const WORST: seq<Index> := seq(30, j requires 0 <= j < 30 => if 143 + 7 * j < 256 then 143 + 7 * j else 143 + 7 * j - 256)

  /** The limit is exact: a message of 31 blocks can run out of room for its last window,
      each of the 30 before it having been accepted. */
  lemma ThirtyOneBlocksCanStick()
    ensures forall j :: 0 <= j < 30 ==> Accepts(Taken(98, 42, WORST[..j]), WORST[j])
    ensures forall w: Index :: !Accepts(Taken(98, 42, WORST), w)
  {
    forall j | 0 <= j < 30
      ensures Accepts(Taken(98, 42, WORST[..j]), WORST[j])
    {}
    forall w: Index
      ensures !Accepts(Taken(98, 42, WORST), w)
    {
      var u := Dist(140, w);
      if u < 213 {
        var j := u / 7;
        if j < 30 {
          var p := if u % 7 < 3 then After(w, 3) else w;
          assert Dist(WORST[j], p) < 4;
        }
      }
    }
  }
}
