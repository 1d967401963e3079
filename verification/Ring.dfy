/** The 256-cell ring of the klon-cipher: one fixed marker cell, and the walk around all the others. */
module Ring {
  import opened Bytes

  /** The cell that holds the begin index; every walk skips it. */
  const MARKER: Index := 97

  /** The stateless successor the decoder uses. */
  function NextIdx(cur: Index): Index {
    if cur == 255 then 0
    else if cur == MARKER - 1 then MARKER + 1
    else cur + 1
  }

  /** The cell d places after p on the plain ring, marker included. */
  function After(p: Index, d: Index): Index {
    if p + d < 256 then p + d else p + d - 256
  }

  /** The same for any number of places, modulo the size of the ring. */
  function Around(p: Index, d: nat): Index {
    (p + d) % 256
  }

  lemma AfterIsModulo(p: Index, d: Index)
    ensures After(p, d) == Around(p, d)
  {}

  /** How far p lies after w on the plain ring: the d with After(w, d) == p. */
  function Dist(w: Index, p: Index): Index {
    if w <= p then p - w else p - w + 256
  }

  /** The k-th cell of the decoder's walk from beg. */
  function Slot(beg: Index, k: nat): (p: Index)
    ensures beg != MARKER ==> p != MARKER
  {
    if k == 0 then beg else NextIdx(Slot(beg, k - 1))
  }

  /** The number of the cell p when the ring is cut open at the marker. */
  function Lin(p: Index): nat {
    if p > MARKER then p - MARKER - 1 else p + 255 - MARKER
  }

  /** How many steps of the walk lead from beg to p. */
  function Rank(beg: Index, p: Index): nat {
    if Lin(beg) <= Lin(p) then Lin(p) - Lin(beg) else Lin(p) - Lin(beg) + 255
  }

  lemma {:induction false} LinSlot(beg: Index, k: nat)
    requires beg != MARKER && k < 255
    ensures Lin(Slot(beg, k)) == if Lin(beg) + k < 255 then Lin(beg) + k else Lin(beg) + k - 255
  {
    if k > 0 {
      LinSlot(beg, k - 1);
    }
  }

  /** A walk of fewer than 255 steps never returns to a cell it has left. */
  lemma SlotRank(beg: Index, k: nat)
    requires beg != MARKER && k < 255
    ensures Rank(beg, Slot(beg, k)) == k
  {
    LinSlot(beg, k);
  }

  /** The walk reaches every cell but the marker, after as many steps as the cell's rank. */
  lemma RankSlot(beg: Index, p: Index)
    requires beg != MARKER && p != MARKER
    ensures Rank(beg, p) < 255 && Slot(beg, Rank(beg, p)) == p
  {
    LinSlot(beg, Rank(beg, p));
  }
}
