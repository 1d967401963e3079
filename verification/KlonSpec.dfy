/** What a klon-cipher ring is, and what reading one yields. */
module KlonSpec {
  import opened Results
  import opened Bytes
  import opened Ring
  import opened Placement

  /** The characteristic table. */
  const CH14S: seq<nat> := [
    0x0827, 0x8e87, 0xc35d, 0xedd3, 0xcc88, 0xb10a, 0xcc02, 0xd631,
    0xbbc9, 0x0194, 0x1761, 0x89d9, 0xb11f, 0x36ee, 0x1ad6, 0x2148
  ]

  const CH14S_SZ := 16

  const MAX_PLAIN_BYTES := 120

  /** The fields of the local time that both sides look at. */
  datatype Clock = Clock(mday: nat, hour: nat, min: nat, sec: nat) {
    /** The ranges the C library promises for a broken-down time, leap second included. */
    predicate Valid() {
      1 <= mday <= 31 && hour < 24 && min < 60 && sec <= 60
    }
  }

  /** A message with this stamp may be read at `now`. */
  predicate InTime(stamp: Clock, now: Clock) {
    stamp.mday == now.mday && stamp.hour == now.hour &&
    0 <= (now.min * 60 + now.sec) - (stamp.min * 60 + stamp.sec) <= 6
  }

  /** Number of four-byte blocks for plen bytes. */
  function Blocks(plen: nat): (n: nat)
    ensures 4 * n - 4 < plen <= 4 * n
  {
    (plen + 3) / 4
  }

  // The key that covers the index slot p, and the one that covers the data this slot points to.

  function IdxKey(p: Index, key1: byte, key2: byte): byte {
    if p % 2 == 1 then key1 else key2
  }

  function DataKey(p: Index, key1: byte, key2: byte): byte {
    if p % 2 == 1 then key2 else key1
  }

  // Reading the random stream.

  /** Position after the first byte other than the marker, among at most `tries` bytes from pos. */
  function BeginIdx(data: seq<byte>, pos: nat, tries: nat): (r: Option<nat>)
    ensures r.Some? ==> pos < r.value <= |data| && data[r.value - 1] != MARKER
    decreases |data| - pos
  {
    if tries == 0 || pos >= |data| then None
    else if data[pos] != MARKER then Some(pos + 1)
    else BeginIdx(data, pos + 1, tries - 1)
  }

  /** Position after the first byte that names an acceptable window, among at most `tries` bytes from pos. */
  function DataIdx(bucket: seq<bool>, data: seq<byte>, pos: nat, tries: nat): (r: Option<nat>)
    requires |bucket| == 256
    ensures r.Some? ==> pos < r.value <= |data|
    decreases |data| - pos
  {
    if tries == 0 || pos >= |data| then None
    else if Accepts(bucket, data[pos]) then Some(pos + 1)
    else DataIdx(bucket, data, pos + 1, tries - 1)
  }

  /** The byte found is the first that is not 97, and it is found exactly when it is among the next `tries` bytes. */
  lemma {:induction false} BeginIdxIsFirst(data: seq<byte>, pos: nat, tries: nat, p: nat)
    requires pos <= |data|
    ensures BeginIdx(data, pos, tries) == Some(p) <==>
            && pos < p <= |data| && p <= pos + tries && data[p - 1] != 97
            && forall k :: pos <= k < p - 1 ==> data[k] == 97
    decreases |data| - pos
  {
    if tries > 0 && pos < |data| && data[pos] == MARKER {
      BeginIdxIsFirst(data, pos + 1, tries - 1, p);
    }
  }

  /** The four cells from w on, modulo 256, are free. */
  predicate FourFree(bucket: seq<bool>, w: Index)
    requires |bucket| == 256
  {
    !bucket[w] && !bucket[(w + 1) % 256] && !bucket[(w + 2) % 256] && !bucket[(w + 3) % 256]
  }

  lemma AcceptsIsFourFree(bucket: seq<bool>, w: Index)
    requires |bucket| == 256
    ensures Accepts(bucket, w) <==> FourFree(bucket, w)
  {}

  /** The same for windows: the byte found is the first that names four free cells. */
  lemma {:induction false} DataIdxIsFirst(bucket: seq<bool>, data: seq<byte>, pos: nat, tries: nat, p: nat)
    requires |bucket| == 256 && pos <= |data|
    ensures DataIdx(bucket, data, pos, tries) == Some(p) <==>
            && pos < p <= |data| && p <= pos + tries && FourFree(bucket, data[p - 1])
            && forall k :: pos <= k < p - 1 ==> !FourFree(bucket, data[k])
    decreases |data| - pos
  {
    if tries > 0 && pos < |data| {
      AcceptsIsFourFree(bucket, data[pos]);
      if !Accepts(bucket, data[pos]) {
        DataIdxIsFirst(bucket, data, pos + 1, tries - 1, p);
      }
    }
  }

  lemma {:induction false} DataIdxAccepts(bucket: seq<bool>, data: seq<byte>, pos: nat, tries: nat)
    requires |bucket| == 256 && DataIdx(bucket, data, pos, tries).Some?
    ensures Accepts(bucket, data[DataIdx(bucket, data, pos, tries).value - 1])
    decreases |data| - pos
  {
    if !Accepts(bucket, data[pos]) {
      DataIdxAccepts(bucket, data, pos + 1, tries - 1);
    }
  }

  /** The windows of all n blocks, those in ws having been chosen already. */
  function Windows(data: seq<byte>, pos: nat, beg: Index, n: nat, ws: seq<Index>): (r: Option<seq<Index>>)
    requires |ws| <= n
    ensures r.Some? ==> |r.value| == n && ws <= r.value
    decreases n - |ws|
  {
    if |ws| == n then Some(ws)
    else match DataIdx(Taken(beg, n + 11, ws), data, pos, 221)
      case None => None
      case Some(next) => Windows(data, next, beg, n, ws + [data[next - 1]])
  }

  /** Everything the encoder draws at random. */
  datatype Plan = Plan(chidx: nat, beg: Index, fill: seq<byte>, ws: seq<Index>) {
    predicate Valid(n: nat) {
      chidx < CH14S_SZ && beg != MARKER && |fill| == 256 && |ws| == n
    }

    function Ch(): (ch: nat)
      requires chidx < CH14S_SZ
      ensures ch < 0x1_0000
    {
      CH14S[chidx]
    }

    function Key1(): byte
      requires |fill| == 256
    {
      fill[Slot(beg, 2)]
    }

    function Key2(): byte
      requires |fill| == 256
    {
      fill[Slot(beg, 6)]
    }
  }

  /** What the encoder draws from the random bytes at pos for n blocks; None when it gives up. */
  function PlanOf(data: seq<byte>, pos: nat, n: nat): (r: Option<Plan>)
    ensures r.Some? ==> r.value.Valid(n)
  {
    if pos >= |data| then None
    else match BeginIdx(data, pos + 1, 201)
      case None => None
      case Some(p) =>
        if p + 256 > |data| then None
        else
          var beg := data[p - 1];
          match Windows(data, p + 256, beg, n, [])
          case None => None
          case Some(ws) => Some(Plan(data[pos] % CH14S_SZ, beg, data[p..p + 256], ws))
  }

  lemma PlanIs(data: seq<byte>, pos: nat, n: nat, p: nat)
    requires pos < |data| && BeginIdx(data, pos + 1, 201) == Some(p) && p + 256 <= |data|
    ensures PlanOf(data, pos, n) ==
            match Windows(data, p + 256, data[p - 1], n, [])
            case None => None
            case Some(ws) => Some(Plan(data[pos] % CH14S_SZ, data[p - 1], data[p..p + 256], ws))
  {}

  lemma {:induction false} WindowsAreClear(data: seq<byte>, pos: nat, beg: Index, n: nat, ws: seq<Index>)
    requires |ws| <= n && Clear(beg, n + 11, ws) && Windows(data, pos, beg, n, ws).Some?
    ensures Clear(beg, n + 11, Windows(data, pos, beg, n, ws).value)
    decreases n - |ws|
  {
    if |ws| < n {
      var next := DataIdx(Taken(beg, n + 11, ws), data, pos, 221).value;
      DataIdxAccepts(Taken(beg, n + 11, ws), data, pos, 221);
      ClearMore(beg, n + 11, ws, data[next - 1]);
      WindowsAreClear(data, next, beg, n, ws + [data[next - 1]]);
    }
  }

  /** In every layout the encoder can draw, marker, slots and data cells are pairwise different. */
  lemma PlanCellsAreDisjoint(data: seq<byte>, pos: nat, n: nat, m: nat)
    requires PlanOf(data, pos, n).Some? && m < 4 * n
    ensures var pl := PlanOf(data, pos, n).value;
            && DataCell(pl.ws, m) != MARKER && Rank(pl.beg, DataCell(pl.ws, m)) >= n + 11
            && forall e :: 0 <= e < m ==> DataCell(pl.ws, e) != DataCell(pl.ws, m)
  {
    var pl := PlanOf(data, pos, n).value;
    var p := BeginIdx(data, pos + 1, 201).value;
    WindowsAreClear(data, p + 256, pl.beg, n, []);
    ClearCellsAreDisjoint(pl.beg, n + 11, pl.ws, m);
  }

  /** A byte that names a window is drawn at once. */
  lemma WindowDrawn(data: seq<byte>, rest: seq<byte>, beg: Index, n: nat, ws: seq<Index>, w: Index)
    requires |ws| < n && Accepts(Taken(beg, n + 11, ws), w)
    ensures Windows(data + ([w] + rest), |data|, beg, n, ws) == Windows(data + [w] + rest, |data| + 1, beg, n, ws + [w])
  {
    var all := data + ([w] + rest);
    assert all == data + [w] + rest && all[|data|] == w;
    assert DataIdx(Taken(beg, n + 11, ws), all, |data|, 221) == Some(|data| + 1);
  }

  lemma WindowsNext(data: seq<byte>, pos: nat, beg: Index, n: nat, ws: seq<Index>, bucket: seq<bool>)
    requires |ws| < n && bucket == Taken(beg, n + 11, ws)
    ensures Windows(data, pos, beg, n, ws) ==
            match DataIdx(bucket, data, pos, 221)
            case None => None
            case Some(next) => Windows(data, next, beg, n, ws + [data[next - 1]])
  {
    var next := DataIdx(bucket, data, pos, 221);
    assert next == DataIdx(Taken(beg, n + 11, ws), data, pos, 221);
    assert next.Some? ==> Windows(data, pos, beg, n, ws) == Windows(data, next.value, beg, n, ws + [data[next.value - 1]]);
  }

  /** Whatever the encoder has drawn for a message of at most 30 blocks, some next bytes let it finish. */
  lemma {:induction false} CanAlwaysFinish(data: seq<byte>, beg: Index, n: nat, ws: seq<Index>)
    requires beg != MARKER && |ws| <= n <= 30
    ensures exists more: seq<byte> :: Windows(data + more, |data|, beg, n, ws).Some?
    decreases n - |ws|
  {
    if |ws| == n {
      assert Windows(data + [], |data|, beg, n, ws).Some?;
    } else {
      WindowAlwaysLeft(beg, n + 11, ws);
      var w: Index :| Accepts(Taken(beg, n + 11, ws), w);
      var data' := data + [w];
      CanAlwaysFinish(data', beg, n, ws + [w]);
      var more' :| Windows(data' + more', |data'|, beg, n, ws + [w]).Some?;
      WindowDrawn(data, more', beg, n, ws, w);
      assert Windows(data + ([w] + more'), |data|, beg, n, ws).Some?;
    }
  }

  // The finished ring, cell by cell.

  /** The content of the slot of rank r. The 16-bit characteristic lies low byte first. */
  function SlotValue(pl: Plan, plen: nat, stamp: Clock, r: nat): byte
    requires 1 <= plen <= MAX_PLAIN_BYTES && pl.Valid(Blocks(plen)) && stamp.Valid()
    requires r < Blocks(plen) + 11
  {
    var n := Blocks(plen);
    if r == 0 then pl.Ch() % 256
    else if r == 1 then Xor(pl.Ch() / 256, pl.Key2())
    else if r == 4 then Xor(plen, pl.Key1())
    else if r < 7 then pl.fill[Slot(pl.beg, r)]
    else if r < 7 + n then Xor(pl.ws[r - 7], IdxKey(Slot(pl.beg, r), pl.Key1(), pl.Key2()))
    else if r == 7 + n then Xor(stamp.min, pl.Key1())
    else if r == 8 + n then Xor(stamp.mday, pl.Key1())
    else if r == 9 + n then Xor(stamp.hour, pl.Key2())
    else Xor(stamp.sec, pl.Key2())
  }

  function SlotValues(pl: Plan, plen: nat, stamp: Clock): seq<byte>
    requires 1 <= plen <= MAX_PLAIN_BYTES && pl.Valid(Blocks(plen)) && stamp.Valid()
  {
    seq(Blocks(plen) + 11, r requires 0 <= r < Blocks(plen) + 11 => SlotValue(pl, plen, stamp, r))
  }

  /** The data as it stands in the windows: the bytes of block b under the key its index slot selects. */
  function Masked(beg: Index, key1: byte, key2: byte, plain: seq<byte>): seq<byte> {
    seq(|plain|, m requires 0 <= m < |plain| => Xor(plain[m], DataKey(Slot(beg, 7 + m / 4), key1, key2)))
  }

  /** ring carries plain, stamped `stamp` and laid out as pl says; every other cell keeps its random fill. */
  ghost predicate Encodes(ring: seq<byte>, pl: Plan, plain: seq<byte>, stamp: Clock)
    requires 1 <= |plain| <= MAX_PLAIN_BYTES && pl.Valid(Blocks(|plain|)) && stamp.Valid()
  {
    Laid(ring, pl.fill, pl.beg, pl.beg, SlotValues(pl, |plain|, stamp), pl.ws, Masked(pl.beg, pl.Key1(), pl.Key2(), plain))
  }

  // Reading a ring, any ring.

  function Length(ring: seq<byte>): byte
    requires |ring| == 256
  {
    var beg := ring[MARKER];
    Xor(ring[Slot(beg, 4)], ring[Slot(beg, 2)])
  }

  function Characteristic(ring: seq<byte>): nat
    requires |ring| == 256
  {
    var beg := ring[MARKER];
    ring[beg] + 256 * Xor(ring[Slot(beg, 1)], ring[Slot(beg, 6)])
  }

  function Stamp(ring: seq<byte>): Clock
    requires |ring| == 256
  {
    var beg := ring[MARKER];
    var key1, key2 := ring[Slot(beg, 2)], ring[Slot(beg, 6)];
    var r := 7 + Blocks(Length(ring));
    Clock(Xor(ring[Slot(beg, r + 1)], key1), Xor(ring[Slot(beg, r + 2)], key2),
          Xor(ring[Slot(beg, r)], key1), Xor(ring[Slot(beg, r + 3)], key2))
  }

  /** The m-th plaintext byte: follow the index slot of its block, then step into the window. */
  function PlainByte(ring: seq<byte>, m: nat): byte
    requires |ring| == 256
  {
    var beg := ring[MARKER];
    var key1, key2 := ring[Slot(beg, 2)], ring[Slot(beg, 6)];
    var s := Slot(beg, 7 + m / 4);
    var w := Xor(ring[s], IdxKey(s, key1, key2));
    Xor(ring[After(w, m % 4)], DataKey(s, key1, key2))
  }

  function PlainBytes(ring: seq<byte>, len: nat): seq<byte>
    requires |ring| == 256
  {
    seq(len, m requires 0 <= m < len => PlainByte(ring, m))
  }

  /** What the decoder makes of a ring at time `now`; None is a refusal. */
  function Decode(ring: seq<byte>, now: Clock, maxPlen: int): Option<seq<byte>>
    requires |ring| == 256
  {
    var len := Length(ring);
    if Characteristic(ring) !in CH14S || len > MAX_PLAIN_BYTES || !InTime(Stamp(ring), now) || maxPlen < len then
      None
    else
      Some(PlainBytes(ring, len))
  }

  // The round trip.

  lemma SlotOf(ring: seq<byte>, pl: Plan, plain: seq<byte>, stamp: Clock, r: nat)
    requires 1 <= |plain| <= MAX_PLAIN_BYTES && pl.Valid(Blocks(|plain|)) && stamp.Valid()
    requires Encodes(ring, pl, plain, stamp) && r < Blocks(|plain|) + 11
    ensures ring[MARKER] == pl.beg
    ensures ring[Slot(pl.beg, r)] == SlotValue(pl, |plain|, stamp, r)
  {
    SlotRank(pl.beg, r);
  }

  lemma HeadReadsBack(ring: seq<byte>, pl: Plan, plain: seq<byte>, stamp: Clock)
    requires 1 <= |plain| <= MAX_PLAIN_BYTES && pl.Valid(Blocks(|plain|)) && stamp.Valid()
    requires Encodes(ring, pl, plain, stamp)
    ensures ring[MARKER] == pl.beg
    ensures ring[Slot(pl.beg, 2)] == pl.Key1() && ring[Slot(pl.beg, 6)] == pl.Key2()
    ensures Length(ring) == |plain| && Characteristic(ring) == pl.Ch()
  {
    SlotOf(ring, pl, plain, stamp, 0);
    SlotOf(ring, pl, plain, stamp, 1);
    SlotOf(ring, pl, plain, stamp, 2);
    SlotOf(ring, pl, plain, stamp, 4);
    SlotOf(ring, pl, plain, stamp, 6);
    XorTwice(|plain|, pl.Key1());
    XorTwice(pl.Ch() / 256, pl.Key2());
  }

  lemma StampReadsBack(ring: seq<byte>, pl: Plan, plain: seq<byte>, stamp: Clock)
    requires 1 <= |plain| <= MAX_PLAIN_BYTES && pl.Valid(Blocks(|plain|)) && stamp.Valid()
    requires Encodes(ring, pl, plain, stamp)
    ensures Stamp(ring) == stamp
  {
    var n := Blocks(|plain|);
    HeadReadsBack(ring, pl, plain, stamp);
    SlotOf(ring, pl, plain, stamp, 7 + n);
    SlotOf(ring, pl, plain, stamp, 8 + n);
    SlotOf(ring, pl, plain, stamp, 9 + n);
    SlotOf(ring, pl, plain, stamp, 10 + n);
    XorTwice(stamp.min, pl.Key1());
    XorTwice(stamp.mday, pl.Key1());
    XorTwice(stamp.hour, pl.Key2());
    XorTwice(stamp.sec, pl.Key2());
  }

  lemma ByteReadsBack(ring: seq<byte>, pl: Plan, plain: seq<byte>, stamp: Clock, m: nat)
    requires 1 <= |plain| <= MAX_PLAIN_BYTES && pl.Valid(Blocks(|plain|)) && stamp.Valid()
    requires Encodes(ring, pl, plain, stamp) && m < |plain|
    ensures PlainByte(ring, m) == plain[m]
  {
    var r := 7 + m / 4;
    var s := Slot(pl.beg, r);
    HeadReadsBack(ring, pl, plain, stamp);
    SlotOf(ring, pl, plain, stamp, r);
    XorTwice(pl.ws[m / 4], IdxKey(s, pl.Key1(), pl.Key2()));
    assert ring[DataCell(pl.ws, m)] == Masked(pl.beg, pl.Key1(), pl.Key2(), plain)[m];
    XorTwice(plain[m], DataKey(s, pl.Key1(), pl.Key2()));
  }

  lemma PlainReadsBack(ring: seq<byte>, pl: Plan, plain: seq<byte>, stamp: Clock)
    requires 1 <= |plain| <= MAX_PLAIN_BYTES && pl.Valid(Blocks(|plain|)) && stamp.Valid()
    requires Encodes(ring, pl, plain, stamp)
    ensures PlainBytes(ring, |plain|) == plain
  {
    forall m | 0 <= m < |plain|
      ensures PlainByte(ring, m) == plain[m]
    {
      ByteReadsBack(ring, pl, plain, stamp, m);
    }
  }

  // What stands in the ring, digit by digit.

  /** The head of a finished ring: the begin index in cell 97, the characteristic low byte first, its high byte covered by
      key 2, and the length covered by key 1; the keys are random cells of the walk. */
  lemma EncodedHead(ring: seq<byte>, pl: Plan, plain: seq<byte>, stamp: Clock)
    requires 1 <= |plain| <= 120 && pl.Valid(Blocks(|plain|)) && stamp.Valid()
    requires Encodes(ring, pl, plain, stamp)
    ensures var beg := ring[97]; var key1, key2 := ring[Slot(beg, 2)], ring[Slot(beg, 6)];
            && beg == pl.beg && key1 == pl.fill[Slot(beg, 2)] && key2 == pl.fill[Slot(beg, 6)]
            && ring[beg] == CH14S[pl.chidx] % 256 && DigitsDiffer(ring[Slot(beg, 1)], CH14S[pl.chidx] / 256, key2)
            && DigitsDiffer(ring[Slot(beg, 4)], |plain|, key1)
  {
    HeadReadsBack(ring, pl, plain, stamp);
    SlotOf(ring, pl, plain, stamp, 0);
    SlotOf(ring, pl, plain, stamp, 1);
    SlotOf(ring, pl, plain, stamp, 4);
    CoveredByXor(ring[Slot(pl.beg, 1)], CH14S[pl.chidx] / 256, pl.Key2());
    CoveredByXor(ring[Slot(pl.beg, 4)], |plain|, pl.Key1());
  }

  /** Behind the index slots: minute and day under key 1, hour and second under key 2. */
  lemma EncodedStamp(ring: seq<byte>, pl: Plan, plain: seq<byte>, stamp: Clock)
    requires 1 <= |plain| <= 120 && pl.Valid(Blocks(|plain|)) && stamp.Valid()
    requires Encodes(ring, pl, plain, stamp)
    ensures var beg, r := ring[97], 7 + (|plain| + 3) / 4; var key1, key2 := ring[Slot(beg, 2)], ring[Slot(beg, 6)];
            && DigitsDiffer(ring[Slot(beg, r)], stamp.min, key1) && DigitsDiffer(ring[Slot(beg, r + 1)], stamp.mday, key1)
            && DigitsDiffer(ring[Slot(beg, r + 2)], stamp.hour, key2) && DigitsDiffer(ring[Slot(beg, r + 3)], stamp.sec, key2)
  {
    var beg, r := pl.beg, 7 + Blocks(|plain|);
    HeadReadsBack(ring, pl, plain, stamp);
    SlotOf(ring, pl, plain, stamp, r);
    SlotOf(ring, pl, plain, stamp, r + 1);
    SlotOf(ring, pl, plain, stamp, r + 2);
    SlotOf(ring, pl, plain, stamp, r + 3);
    CoveredByXor(ring[Slot(beg, r)], stamp.min, pl.Key1());
    CoveredByXor(ring[Slot(beg, r + 1)], stamp.mday, pl.Key1());
    CoveredByXor(ring[Slot(beg, r + 2)], stamp.hour, pl.Key2());
    CoveredByXor(ring[Slot(beg, r + 3)], stamp.sec, pl.Key2());
  }

  /** The index of block m / 4 stands in its slot, under key 1 if the slot is odd and under key 2 if it is even. */
  lemma EncodedIndex(ring: seq<byte>, pl: Plan, plain: seq<byte>, stamp: Clock, m: nat)
    requires 1 <= |plain| <= 120 && pl.Valid(Blocks(|plain|)) && stamp.Valid()
    requires Encodes(ring, pl, plain, stamp) && m < |plain|
    ensures var beg := ring[97]; var key1, key2, s := ring[Slot(beg, 2)], ring[Slot(beg, 6)], Slot(beg, 7 + m / 4);
            DigitsDiffer(ring[s], pl.ws[m / 4], if s % 2 == 1 then key1 else key2)
  {
    var s := Slot(pl.beg, 7 + m / 4);
    HeadReadsBack(ring, pl, plain, stamp);
    SlotOf(ring, pl, plain, stamp, 7 + m / 4);
    CoveredByXor(ring[s], pl.ws[m / 4], if s % 2 == 1 then pl.Key1() else pl.Key2());
  }

  /** Byte m stands m % 4 cells into the window of its block, wrapping at the end of the ring, under the other key. */
  lemma EncodedByte(ring: seq<byte>, pl: Plan, plain: seq<byte>, stamp: Clock, m: nat)
    requires 1 <= |plain| <= 120 && pl.Valid(Blocks(|plain|)) && stamp.Valid()
    requires Encodes(ring, pl, plain, stamp) && m < |plain|
    ensures var beg := ring[97]; var key1, key2, s := ring[Slot(beg, 2)], ring[Slot(beg, 6)], Slot(beg, 7 + m / 4);
            DigitsDiffer(ring[Around(pl.ws[m / 4], m % 4)], plain[m], if s % 2 == 1 then key2 else key1)
  {
    var s := Slot(pl.beg, 7 + m / 4);
    HeadReadsBack(ring, pl, plain, stamp);
    CellHoldsByte(ring, pl, plain, stamp, m);
    CoveredByXor(ring[Around(pl.ws[m / 4], m % 4)], plain[m], if s % 2 == 1 then pl.Key2() else pl.Key1());
  }

  lemma CellHoldsByte(ring: seq<byte>, pl: Plan, plain: seq<byte>, stamp: Clock, m: nat)
    requires 1 <= |plain| <= MAX_PLAIN_BYTES && pl.Valid(Blocks(|plain|)) && stamp.Valid()
    requires Encodes(ring, pl, plain, stamp) && m < |plain|
    ensures ring[Around(pl.ws[m / 4], m % 4)] == Xor(plain[m], DataKey(Slot(pl.beg, 7 + m / 4), pl.Key1(), pl.Key2()))
  {
    AfterIsModulo(pl.ws[m / 4], m % 4);
    assert ring[DataCell(pl.ws, m)] == Masked(pl.beg, pl.Key1(), pl.Key2(), plain)[m];
  }

  // What any ring is read as, digit by digit.

  /** A ring is accepted exactly when its uncovered characteristic is in the table, its length is at most 120 and fits
      the caller, and its stamp is of the same day and hour and 0 to 6 seconds old. */
  lemma AcceptedRings(ring: seq<byte>, now: Clock, maxPlen: int,
                      ch1: byte, len: byte, min: byte, mday: byte, hour: byte, sec: byte)
    requires |ring| == 256
    requires var beg := ring[97]; var key1, key2, r := ring[Slot(beg, 2)], ring[Slot(beg, 6)], 7 + (len + 3) / 4;
             && DigitsDiffer(ch1, ring[Slot(beg, 1)], key2) && DigitsDiffer(len, ring[Slot(beg, 4)], key1)
             && DigitsDiffer(min, ring[Slot(beg, r)], key1) && DigitsDiffer(mday, ring[Slot(beg, r + 1)], key1)
             && DigitsDiffer(hour, ring[Slot(beg, r + 2)], key2) && DigitsDiffer(sec, ring[Slot(beg, r + 3)], key2)
    ensures Decode(ring, now, maxPlen).Some? <==>
            && ring[ring[97]] + 256 * ch1 in CH14S && len <= 120 && len <= maxPlen && mday == now.mday && hour == now.hour
            && 0 <= (60 * now.min + now.sec) - (60 * min + sec) <= 6
    ensures Decode(ring, now, maxPlen).Some? ==> |Decode(ring, now, maxPlen).value| == len
  {
    var beg := ring[97];
    var key1, key2, r := ring[Slot(beg, 2)], ring[Slot(beg, 6)], 7 + (len + 3) / 4;
    ExclusiveIsXor(ch1, ring[Slot(beg, 1)], key2);
    ExclusiveIsXor(len, ring[Slot(beg, 4)], key1);
    StampFields(min, mday, hour, sec, ring[Slot(beg, r)], ring[Slot(beg, r + 1)], ring[Slot(beg, r + 2)], ring[Slot(beg, r + 3)], key1, key2);
    StampIs(ring, len, min, mday, hour, sec);
  }

  lemma StampIs(ring: seq<byte>, len: byte, min: byte, mday: byte, hour: byte, sec: byte)
    requires |ring| == 256 && len == Length(ring)
    requires var beg := ring[97]; var key1, key2, r := ring[Slot(beg, 2)], ring[Slot(beg, 6)], 7 + (len + 3) / 4;
             && min == Xor(ring[Slot(beg, r)], key1) && mday == Xor(ring[Slot(beg, r + 1)], key1)
             && hour == Xor(ring[Slot(beg, r + 2)], key2) && sec == Xor(ring[Slot(beg, r + 3)], key2)
    ensures Stamp(ring) == Clock(mday, hour, min, sec)
  {}

  lemma StampFields(min: byte, mday: byte, hour: byte, sec: byte, a: byte, b: byte, c: byte, d: byte, key1: byte, key2: byte)
    requires DigitsDiffer(min, a, key1) && DigitsDiffer(mday, b, key1) && DigitsDiffer(hour, c, key2) && DigitsDiffer(sec, d, key2)
    ensures min == Xor(a, key1) && mday == Xor(b, key1) && hour == Xor(c, key2) && sec == Xor(d, key2)
  {
    ExclusiveIsXor(min, a, key1);
    ExclusiveIsXor(mday, b, key1);
    ExclusiveIsXor(hour, c, key2);
    ExclusiveIsXor(sec, d, key2);
  }

  /** Byte m of an accepted ring: w is what its index slot uncovers to, b what the cell m % 4 behind w does. */
  lemma AcceptedBytes(ring: seq<byte>, now: Clock, maxPlen: int, m: nat, w: byte, b: byte)
    requires |ring| == 256 && Decode(ring, now, maxPlen).Some? && m < |Decode(ring, now, maxPlen).value|
    requires var beg := ring[97]; var key1, key2, s := ring[Slot(beg, 2)], ring[Slot(beg, 6)], Slot(beg, 7 + m / 4);
             && DigitsDiffer(w, ring[s], if s % 2 == 1 then key1 else key2)
             && DigitsDiffer(b, ring[Around(w, m % 4)], if s % 2 == 1 then key2 else key1)
    ensures Decode(ring, now, maxPlen).value[m] == b
  {
    var beg := ring[97];
    var key1, key2, s := ring[Slot(beg, 2)], ring[Slot(beg, 6)], Slot(beg, 7 + m / 4);
    ExclusiveIsXor(w, ring[s], if s % 2 == 1 then key1 else key2);
    ExclusiveIsXor(b, ring[Around(w, m % 4)], if s % 2 == 1 then key2 else key1);
    ByteIs(ring, m, w, b);
  }

  lemma ByteIs(ring: seq<byte>, m: nat, w: byte, b: byte)
    requires |ring| == 256
    requires var beg := ring[97]; var key1, key2, s := ring[Slot(beg, 2)], ring[Slot(beg, 6)], Slot(beg, 7 + m / 4);
             w == Xor(ring[s], IdxKey(s, key1, key2)) && b == Xor(ring[Around(w, m % 4)], DataKey(s, key1, key2))
    ensures PlainByte(ring, m) == b
  {
    AfterIsModulo(w, m % 4);
  }

  /** The round trip: the decoder returns the original bytes exactly when the stamp is still in time
      and the caller's buffer is large enough, and refuses otherwise. */
  lemma RoundTrip(ring: seq<byte>, pl: Plan, plain: seq<byte>, stamp: Clock, now: Clock, maxPlen: int)
    requires 1 <= |plain| <= 120 && pl.Valid(Blocks(|plain|)) && stamp.Valid()
    requires Encodes(ring, pl, plain, stamp)
    ensures Decode(ring, now, maxPlen) ==
            if && now.mday == stamp.mday && now.hour == stamp.hour
               && 0 <= (60 * now.min + now.sec) - (60 * stamp.min + stamp.sec) <= 6
               && |plain| <= maxPlen
            then Some(plain) else None
  {
    HeadReadsBack(ring, pl, plain, stamp);
    StampReadsBack(ring, pl, plain, stamp);
    PlainReadsBack(ring, pl, plain, stamp);
  }
}
