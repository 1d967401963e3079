/** The encoder and the decoder of the klon-cipher, working in place on their byte buffers. */
module KlonCipher {
  import opened Results
  import opened Bytes
  import opened Ring
  import opened Placement
  import opened KlonSpec

  /** An open random device: some bytes, read in order until they run out. */
  class RandomFile {
    const data: seq<byte>
    var pos: nat

    constructor (data: seq<byte>)
      ensures this.data == data && pos == 0
    {
      this.data := data;
      pos := 0;
    }

    method Read(n: nat) returns (r: Option<seq<byte>>)
      modifies this
      ensures if old(pos) + n <= |data|
              then r == Some(data[old(pos)..old(pos) + n]) && pos == old(pos) + n
              else r.None? && pos == old(pos)
    {
      if pos + n <= |data| {
        r := Some(data[pos..pos + n]);
        pos := pos + n;
      } else {
        r := None;
      }
    }
  }

  method GetCharIdx(frd: RandomFile) returns (idx: int)
    modifies frd
    ensures if old(frd.pos) < |frd.data|
            then idx == frd.data[old(frd.pos)] % CH14S_SZ && frd.pos == old(frd.pos) + 1
            else idx == -1
  {
    var r := frd.Read(1);
    if r.None? {
      return -1;
    }
    return r.value[0] % CH14S_SZ;
  }

  method GetBeginIdx(frd: RandomFile) returns (idx: int)
    modifies frd
    ensures match BeginIdx(frd.data, old(frd.pos), 201)
            case None => idx == -1
            case Some(p) => frd.pos == p && idx == frd.data[p - 1]
  {
    var cnt := 0;
    while true
      invariant 0 <= cnt <= 201
      invariant BeginIdx(frd.data, frd.pos, 201 - cnt) == BeginIdx(frd.data, old(frd.pos), 201)
      decreases 202 - cnt
    {
      if cnt > 200 {
        return -1;
      }
      cnt := cnt + 1;
      var r := frd.Read(1);
      if r.None? {
        return -1;
      }
      if r.value[0] != MARKER {
        return r.value[0];
      }
    }
  }

  method InitBuffer(bf: array<byte>, frd: RandomFile) returns (ret: Ret)
    requires bf.Length == 256
    modifies bf, frd
    ensures if old(frd.pos) + 256 <= |frd.data|
            then ret == SUCC && frd.pos == old(frd.pos) + 256 && bf[..] == frd.data[old(frd.pos)..frd.pos]
            else ret == FAIL
  {
    var r := frd.Read(256);
    if r.None? {
      return FAIL;
    }
    forall i | 0 <= i < 256 {
      bf[i] := r.value[i];
    }
    assert bf[..] == r.value;
    return SUCC;
  }

  method WindowIsFree(bucket: array<bool>, idx: Index) returns (free: bool)
    requires bucket.Length == 256
    ensures free == Accepts(bucket[..], idx)
    ensures free == FourFree(bucket[..], idx)
  {
    var idx2: int := idx;
    if bucket[idx2] { return false; }
    idx2 := idx2 + 1;
    if idx2 == 256 { idx2 := 0; }
    if bucket[idx2] { return false; }
    idx2 := idx2 + 1;
    if idx2 == 256 { idx2 := 0; }
    if bucket[idx2] { return false; }
    idx2 := idx2 + 1;
    if idx2 == 256 { idx2 := 0; }
    return !bucket[idx2];
  }

  method GetDataIdx(bucket: array<bool>, frd: RandomFile) returns (idx: int)
    requires bucket.Length == 256
    modifies frd
    ensures match DataIdx(bucket[..], frd.data, old(frd.pos), 221)
            case None => idx == -1
            case Some(p) => frd.pos == p && idx == frd.data[p - 1]
    ensures idx != -1 ==> 0 <= idx < 256 && Accepts(bucket[..], idx)
  {
    var cnt := 0;
    while true
      invariant 0 <= cnt <= 221
      invariant DataIdx(bucket[..], frd.data, frd.pos, 221 - cnt) == DataIdx(bucket[..], frd.data, old(frd.pos), 221)
      decreases 222 - cnt
    {
      if cnt > 220 {
        return -1;
      }
      cnt := cnt + 1;
      var r := frd.Read(1);
      if r.None? {
        return -1;
      }
      var free := WindowIsFree(bucket, r.value[0]);
      if free {
        return r.value[0];
      }
    }
  }

  function MaskedBlock(plain: seq<byte>, k: byte): (r: seq<byte>)
    ensures |r| == |plain|
  {
    seq(|plain|, d requires 0 <= d < |plain| => Xor(plain[d], k))
  }

  const MARKS: seq<bool> := [true, true, true, true]

  lemma PlaceMore<T>(now: seq<T>, was: seq<T>, block: seq<T>, w: Index, v: T)
    requires |now| == |was| == 256 && |block| < 4 && Placed(now, was, block, w)
    ensures Placed(now[After(w, |block|) := v], was, block + [v], w)
  {}

  /** One step of PutData: the next byte of the block goes to the next cell of the window. */
  method PutByte(b: byte, from: Index, pos: Index, key1: byte, key2: byte, bucket: array<bool>, buffer: array<byte>,
                 ghost w: Index, ghost marks: seq<bool>, ghost was: seq<byte>, ghost block: seq<byte>)
    requires bucket.Length == buffer.Length == |marks| == |was| == 256 && bucket as object != buffer
    requires |block| < 4 && pos == After(w, |block|)
    requires Placed(buffer[..], was, block, w) && Placed(bucket[..], marks, MARKS[..|block|], w)
    modifies bucket, buffer
    ensures Placed(buffer[..], was, block + [Xor(b, DataKey(from, key1, key2))], w)
    ensures Placed(bucket[..], marks, MARKS[..|block| + 1], w)
  {
    var parity := from % 2 == 1;
    var v := if parity then Xor(b, key2) else Xor(b, key1);
    PlaceMore(buffer[..], was, block, w, v);
    PlaceMore(bucket[..], marks, MARKS[..|block|], w, true);
    buffer[pos] := v;
    bucket[pos] := true;
    assert buffer[..] == old(buffer[..])[pos := v];
    assert bucket[..] == old(bucket[..])[pos := true];
    assert MARKS[..|block|] + [true] == MARKS[..|block| + 1];
  }

  /** Write the next (at most four) data bytes into the window at idx. */
  method PutData(plain: array<byte>, off: nat, len: nat, from: Index, idx: Index, key1: byte, key2: byte,
                 bucket: array<bool>, buffer: array<byte>)
    requires 1 <= len && off + len <= plain.Length
    requires bucket.Length == buffer.Length == 256 && plain != buffer && bucket as object !in {plain, buffer}
    modifies bucket, buffer
    ensures var put := if len < 4 then len else 4;
            && Placed(buffer[..], old(buffer[..]), MaskedBlock(plain[off..off + put], DataKey(from, key1, key2)), idx)
            && Placed(bucket[..], old(bucket[..]), MARKS[..put], idx)
  {
    ghost var marks, was, k := bucket[..], buffer[..], DataKey(from, key1, key2);
    var idx2 := idx;
    PutByte(plain[off], from, idx2, key1, key2, bucket, buffer, idx, marks, was, []);
    assert MaskedBlock(plain[off..off + 1], k) == [] + [Xor(plain[off], k)];
    if len == 1 { return; }
    idx2 := After(idx2, 1);
    PutByte(plain[off + 1], from, idx2, key1, key2, bucket, buffer, idx, marks, was, MaskedBlock(plain[off..off + 1], k));
    assert MaskedBlock(plain[off..off + 2], k) == MaskedBlock(plain[off..off + 1], k) + [Xor(plain[off + 1], k)];
    if len == 2 { return; }
    idx2 := After(idx2, 1);
    PutByte(plain[off + 2], from, idx2, key1, key2, bucket, buffer, idx, marks, was, MaskedBlock(plain[off..off + 2], k));
    assert MaskedBlock(plain[off..off + 3], k) == MaskedBlock(plain[off..off + 2], k) + [Xor(plain[off + 2], k)];
    if len == 3 { return; }
    idx2 := After(idx2, 1);
    PutByte(plain[off + 3], from, idx2, key1, key2, bucket, buffer, idx, marks, was, MaskedBlock(plain[off..off + 3], k));
    assert MaskedBlock(plain[off..off + 4], k) == MaskedBlock(plain[off..off + 3], k) + [Xor(plain[off + 3], k)];
  }

  /** Move to the next free cell and mark it: after k slots this is the slot of rank k. */
  method TakeNext(bucket: array<bool>, from: Index, ghost beg: Index, ghost k: nat) returns (pos: Index)
    requires bucket.Length == 256 && beg != MARKER && 1 <= k < 255
    requires bucket[..] == Taken(beg, k, []) && from == Slot(beg, k - 1)
    modifies bucket
    ensures pos == Slot(beg, k) && bucket[..] == Taken(beg, k + 1, [])
  {
    var next := GetFreePos(bucket, from);
    FreeWalkIsNextWalk(beg, k, next);
    pos := next;
    bucket[pos] := true;
    MarkSlot(beg, k);
  }

  lemma MarkSlot(beg: Index, k: nat)
    requires beg != MARKER && k < 255
    ensures Taken(beg, k, [])[Slot(beg, k) := true] == Taken(beg, k + 1, [])
  {
    var a, b := Taken(beg, k, [])[Slot(beg, k) := true], Taken(beg, k + 1, []);
    SlotRank(beg, k);
    forall p: Index
      ensures a[p] == b[p]
    {
      if p != MARKER {
        RankSlot(beg, p);
      }
    }
  }

  /** Keep what stands in the next slot. */
  lemma KeepSlot<T>(ring: seq<T>, fill: seq<T>, beg: Index, mark: T, slots: seq<T>)
    requires |fill| == 256 && beg != MARKER && |slots| < 255
    requires Laid(ring, fill, beg, mark, slots, [], [])
    ensures Laid(ring, fill, beg, mark, slots + [fill[Slot(beg, |slots|)]], [], [])
  {
    var v := fill[Slot(beg, |slots|)];
    LaySlot(ring, fill, beg, mark, slots, v);
    assert ring[Slot(beg, |slots|) := v] == ring;
  }

  /** Steps 2 and 3: the marker cell and the two bytes of the characteristic. */
  method PutCharacteristic(ch: nat, beg: Index, buffer: array<byte>, bucket: array<bool>) returns (from: Index)
    requires buffer.Length == bucket.Length == 256 && bucket as object != buffer
    requires beg != MARKER && ch < 0x1_0000 && forall p: Index :: !bucket[p]
    modifies buffer, bucket
    ensures from == Slot(beg, 1) && bucket[..] == Taken(beg, 2, [])
    ensures Laid(buffer[..], old(buffer[..]), beg, beg, [ch % 256, ch / 256], [], [])
  {
    ghost var fill := buffer[..];
    var low: byte, high: byte := ch % 256, ch / 256;
    buffer[MARKER] := beg;
    bucket[MARKER] := true;
    ghost var marked := buffer[..];
    assert Laid(marked, fill, beg, beg, [], [], []);
    assert bucket[..] == Taken(beg, 0, []);
    assert Slot(beg, 0) == beg;
    MarkSlot(beg, 0);
    MarkSlot(beg, 1);
    LaySlot(marked, fill, beg, beg, [], low);
    ghost var lowered: seq<byte> := marked[beg := low];
    LaySlot(lowered, fill, beg, beg, [low], high);
    if beg == MARKER - 1 {
      buffer[beg] := low;
      bucket[beg] := true;
      buffer[beg + 2] := high;
      bucket[beg + 2] := true;
      from := beg + 2;
    } else if beg == 255 {
      buffer[beg] := low;
      bucket[beg] := true;
      buffer[0] := high;
      bucket[0] := true;
      from := 0;
    } else {
      buffer[beg], buffer[beg + 1] := low, high;
      bucket[beg] := true;
      bucket[beg + 1] := true;
      from := beg + 1;
    }
    assert from == Slot(beg, 1);
    assert buffer[..] == lowered[from := high];
    assert bucket[..] == Taken(beg, 0, [])[beg := true][from := true];
    assert [low] + [high] == [low, high];
  }

  /** The first seven slots. */
  function Head(fill: seq<byte>, beg: Index, ch: nat, plen: byte): (r: seq<byte>)
    requires |fill| == 256 && ch < 0x1_0000
    ensures |r| == 7
  {
    var key1, key2 := fill[Slot(beg, 2)], fill[Slot(beg, 6)];
    [ch % 256, Xor(ch / 256, key2), key1, fill[Slot(beg, 3)], Xor(plen, key1), fill[Slot(beg, 5)], key2]
  }

  /** The same slots before the second characteristic byte and the length are covered. */
  function RawHead(fill: seq<byte>, beg: Index, ch: nat, plen: byte): (r: seq<byte>)
    requires |fill| == 256 && ch < 0x1_0000
    ensures |r| == 7
  {
    [ch % 256, ch / 256, fill[Slot(beg, 2)], fill[Slot(beg, 3)], plen, fill[Slot(beg, 5)], fill[Slot(beg, 6)]]
  }

  lemma RawHeadStart(fill: seq<byte>, beg: Index, ch: nat, plen: byte)
    requires |fill| == 256 && ch < 0x1_0000
    ensures RawHead(fill, beg, ch, plen)[..5] == [ch % 256, ch / 256, fill[Slot(beg, 2)], fill[Slot(beg, 3)], plen]
  {}

  lemma CoveredHead(fill: seq<byte>, beg: Index, ch: nat, plen: byte)
    requires |fill| == 256 && ch < 0x1_0000
    ensures var raw := RawHead(fill, beg, ch, plen);
            raw[1 := Xor(raw[1], fill[Slot(beg, 6)])][4 := Xor(raw[4], fill[Slot(beg, 2)])] == Head(fill, beg, ch, plen)
  {}

  /** Take the next slot and leave its random content in place. */
  method TakeKept(buffer: array<byte>, bucket: array<bool>, from: Index,
                  ghost beg: Index, ghost fill: seq<byte>, ghost slots: seq<byte>)
    returns (pos: Index, v: byte)
    requires buffer.Length == bucket.Length == |fill| == 256 && bucket as object != buffer
    requires beg != MARKER && 1 <= |slots| < 255
    requires from == Slot(beg, |slots| - 1) && bucket[..] == Taken(beg, |slots|, [])
    requires Laid(buffer[..], fill, beg, beg, slots, [], [])
    modifies bucket
    ensures pos == Slot(beg, |slots|) && bucket[..] == Taken(beg, |slots| + 1, [])
    ensures v == fill[pos]
    ensures Laid(buffer[..], fill, beg, beg, slots + [v], [], [])
  {
    pos := TakeNext(bucket, from, beg, |slots|);
    LaySlot(buffer[..], fill, beg, beg, slots, 0);
    KeepSlot(buffer[..], fill, beg, beg, slots);
    v := buffer[pos];
  }

  /** Take the next slot and write v into it. */
  method TakePut(v: byte, buffer: array<byte>, bucket: array<bool>, from: Index,
                 ghost beg: Index, ghost fill: seq<byte>, ghost slots: seq<byte>)
    returns (pos: Index)
    requires buffer.Length == bucket.Length == |fill| == 256 && bucket as object != buffer
    requires beg != MARKER && 1 <= |slots| < 255
    requires from == Slot(beg, |slots| - 1) && bucket[..] == Taken(beg, |slots|, [])
    requires Laid(buffer[..], fill, beg, beg, slots, [], [])
    modifies bucket, buffer
    ensures pos == Slot(beg, |slots|) && bucket[..] == Taken(beg, |slots| + 1, [])
    ensures Laid(buffer[..], fill, beg, beg, slots + [v], [], [])
  {
    pos := TakeNext(bucket, from, beg, |slots|);
    LaySlot(buffer[..], fill, beg, beg, slots, v);
    buffer[pos] := v;
    assert buffer[..] == old(buffer[..])[pos := v];
  }

  /** Steps 4 and 5: key 1 is whatever the random fill has in its slot; after one slot unused comes the length. */
  method PutLength(ch1Idx: Index, plen: byte, buffer: array<byte>, bucket: array<bool>,
                   ghost ch: nat, ghost beg: Index, ghost fill: seq<byte>)
    returns (from: Index, key1: byte)
    requires buffer.Length == bucket.Length == |fill| == 256 && bucket as object != buffer
    requires beg != MARKER && ch < 0x1_0000
    requires ch1Idx == Slot(beg, 1) && bucket[..] == Taken(beg, 2, [])
    requires Laid(buffer[..], fill, beg, beg, [ch % 256, ch / 256], [], [])
    modifies buffer, bucket
    ensures from == Slot(beg, 4) && bucket[..] == Taken(beg, 5, []) && key1 == fill[Slot(beg, 2)]
    ensures Laid(buffer[..], fill, beg, beg, RawHead(fill, beg, ch, plen)[..5], [], [])
  {
    ghost var slots: seq<byte> := [ch % 256, ch / 256];
    from, key1 := TakeKept(buffer, bucket, ch1Idx, beg, fill, slots);
    slots := slots + [key1];
    var skipped;
    from, skipped := TakeKept(buffer, bucket, from, beg, fill, slots);
    slots := slots + [skipped];
    assert slots == [ch % 256, ch / 256, fill[Slot(beg, 2)], fill[Slot(beg, 3)]];
    from := TakePut(plen, buffer, bucket, from, beg, fill, slots);
    assert slots + [plen] == [ch % 256, ch / 256, fill[Slot(beg, 2)], fill[Slot(beg, 3)], plen];
    RawHeadStart(fill, beg, ch, plen);
  }

  /** Step 6: after another unused slot, key 2 likewise. */
  method TakeKey2(lenIdx: Index, buffer: array<byte>, bucket: array<bool>,
                  ghost plen: byte, ghost ch: nat, ghost beg: Index, ghost fill: seq<byte>)
    returns (from: Index, key2: byte)
    requires buffer.Length == bucket.Length == |fill| == 256 && bucket as object != buffer
    requires beg != MARKER && ch < 0x1_0000
    requires lenIdx == Slot(beg, 4) && bucket[..] == Taken(beg, 5, [])
    requires Laid(buffer[..], fill, beg, beg, RawHead(fill, beg, ch, plen)[..5], [], [])
    modifies bucket
    ensures from == Slot(beg, 6) && bucket[..] == Taken(beg, 7, []) && key2 == fill[Slot(beg, 6)]
    ensures Laid(buffer[..], fill, beg, beg, RawHead(fill, beg, ch, plen), [], [])
  {
    ghost var slots := RawHead(fill, beg, ch, plen)[..5];
    var skipped;
    from, skipped := TakeKept(buffer, bucket, lenIdx, beg, fill, slots);
    slots := slots + [skipped];
    from, key2 := TakeKept(buffer, bucket, from, beg, fill, slots);
    assert slots + [key2] == RawHead(fill, beg, ch, plen);
  }

  /** Step 7: cover the second characteristic byte and the length. */
  method CoverHead(ch1Idx: Index, lenIdx: Index, key1: byte, key2: byte, buffer: array<byte>,
                   ghost slots: seq<byte>, ghost beg: Index, ghost fill: seq<byte>)
    requires buffer.Length == |fill| == 256 && |slots| == 7 && beg != MARKER
    requires ch1Idx == Slot(beg, 1) && lenIdx == Slot(beg, 4)
    requires Laid(buffer[..], fill, beg, beg, slots, [], [])
    modifies buffer
    ensures Laid(buffer[..], fill, beg, beg, slots[1 := Xor(slots[1], key2)][4 := Xor(slots[4], key1)], [], [])
  {
    SlotRank(beg, 1);
    SlotRank(beg, 4);
    ghost var a := buffer[..];
    RelaySlot(a, fill, beg, beg, slots, [], [], 1, Xor(slots[1], key2));
    buffer[ch1Idx] := Xor(buffer[ch1Idx], key2);
    ghost var b := buffer[..];
    assert b == a[ch1Idx := Xor(slots[1], key2)];
    ghost var mid := slots[1 := Xor(slots[1], key2)];
    RelaySlot(b, fill, beg, beg, mid, [], [], 4, Xor(slots[4], key1));
    buffer[lenIdx] := Xor(buffer[lenIdx], key1);
    assert buffer[..] == b[lenIdx := Xor(slots[4], key1)];
  }

  /** Placeholders for the n index slots. */
  method TakePlaceholders(n: nat, buffer: array<byte>, bucket: array<bool>, from: Index,
                          ghost beg: Index, ghost fill: seq<byte>, ghost head: seq<byte>)
    returns (from2: Index, arr1: array<Index>, ghost slots: seq<byte>)
    requires buffer.Length == bucket.Length == |fill| == 256 && bucket as object != buffer
    requires beg != MARKER && |head| == 7 && n <= 30
    requires from == Slot(beg, 6) && bucket[..] == Taken(beg, 7, [])
    requires Laid(buffer[..], fill, beg, beg, head, [], [])
    modifies bucket
    ensures from2 == Slot(beg, 6 + n) && bucket[..] == Taken(beg, 7 + n, [])
    ensures fresh(arr1) && arr1.Length == 64 && forall i :: 0 <= i < n ==> arr1[i] == Slot(beg, 7 + i)
    ensures |slots| == 7 + n && head <= slots && Laid(buffer[..], fill, beg, beg, slots, [], [])
  {
    arr1 := new Index[64](_ => 0);
    from2 := from;
    slots := head;
    for i := 0 to n
      invariant from2 == Slot(beg, 6 + i) && bucket[..] == Taken(beg, 7 + i, [])
      invariant forall j :: 0 <= j < i ==> arr1[j] == Slot(beg, 7 + j)
      invariant |slots| == 7 + i && head <= slots && Laid(buffer[..], fill, beg, beg, slots, [], [])
    {
      var skipped;
      from2, skipped := TakeKept(buffer, bucket, from2, beg, fill, slots);
      slots := slots + [skipped];
      arr1[i] := from2;
    }
  }

  /** Four stamp slots: minute and day under key 1, hour and second under key 2. */
  method PutStamp(now: Clock, key1: byte, key2: byte, buffer: array<byte>, bucket: array<bool>, from: Index,
                  ghost beg: Index, ghost fill: seq<byte>, ghost slots0: seq<byte>)
    returns (ghost slots: seq<byte>)
    requires buffer.Length == bucket.Length == |fill| == 256 && bucket as object != buffer
    requires beg != MARKER && 7 <= |slots0| <= 37 && now.Valid()
    requires from == Slot(beg, |slots0| - 1) && bucket[..] == Taken(beg, |slots0|, [])
    requires Laid(buffer[..], fill, beg, beg, slots0, [], [])
    modifies buffer, bucket
    ensures bucket[..] == Taken(beg, |slots0| + 4, [])
    ensures slots == slots0 + [Xor(now.min, key1), Xor(now.mday, key1), Xor(now.hour, key2), Xor(now.sec, key2)]
    ensures Laid(buffer[..], fill, beg, beg, slots, [], [])
  {
    var tarr: seq<byte> := [now.min, now.mday, now.hour, now.sec];
    var from2 := from;
    slots := slots0;
    for i := 0 to 4
      invariant from2 == Slot(beg, |slots0| + i - 1) && bucket[..] == Taken(beg, |slots0| + i, [])
      invariant slots == slots0 + [Xor(now.min, key1), Xor(now.mday, key1), Xor(now.hour, key2), Xor(now.sec, key2)][..i]
      invariant Laid(buffer[..], fill, beg, beg, slots, [], [])
    {
      var v := if i < 2 then Xor(tarr[i], key1) else Xor(tarr[i], key2);
      from2 := TakePut(v, buffer, bucket, from2, beg, fill, slots);
      slots := slots + [v];
    }
  }

  /** Data for blocks 0 to i - 1 in place: slots i and later still hold their placeholder. */
  ghost predicate Started(slots: seq<byte>, base: seq<byte>, ws: seq<Index>, beg: Index, key1: byte, key2: byte)
    requires |base| >= 7 + |ws|
  {
    && |slots| == |base|
    && (forall r :: 0 <= r < |base| && !(7 <= r < 7 + |ws|) ==> slots[r] == base[r])
    && (forall j :: 0 <= j < |ws| ==> slots[7 + j] == Xor(ws[j], IdxKey(Slot(beg, 7 + j), key1, key2)))
  }

  lemma StartNext(slots: seq<byte>, base: seq<byte>, ws: seq<Index>, w: Index, beg: Index, key1: byte, key2: byte)
    requires |base| >= 8 + |ws| && Started(slots, base, ws, beg, key1, key2)
    ensures Started(slots[7 + |ws| := Xor(w, IdxKey(Slot(beg, 7 + |ws|), key1, key2))], base, ws + [w], beg, key1, key2)
  {}

  lemma MarkWindow(now: seq<bool>, beg: Index, k: nat, ws: seq<Index>, w: Index)
    requires |now| == 256 && Placed(now, Taken(beg, k, ws), MARKS, w)
    ensures now == Taken(beg, k, ws + [w])
  {
    forall p: Index
      ensures now[p] == Taken(beg, k, ws + [w])[p]
    {
      assert forall j :: 0 <= j < |ws| ==> (ws + [w])[j] == ws[j];
      assert (ws + [w])[|ws|] == w;
    }
  }

  lemma MaskMore(beg: Index, key1: byte, key2: byte, plain: seq<byte>, i: nat, put: nat)
    requires put <= 4 && 4 * i + put <= |plain|
    ensures Masked(beg, key1, key2, plain[..4 * i + put]) ==
            Masked(beg, key1, key2, plain[..4 * i])
            + MaskedBlock(plain[4 * i..4 * i + put], DataKey(Slot(beg, 7 + i), key1, key2))
  {}

  /** The index of a block goes into its placeholder. */
  method PutIndex(i: nat, from: Index, idx: Index, key1: byte, key2: byte, buffer: array<byte>,
                  ghost beg: Index, ghost fill: seq<byte>, ghost slots0: seq<byte>, ghost ws: seq<Index>, ghost data: seq<byte>)
    returns (ghost slots: seq<byte>)
    requires buffer.Length == |fill| == 256 && beg != MARKER && from == Slot(beg, 7 + i) && 7 + i < |slots0| < 255
    requires |data| <= 4 * |ws| && Clear(beg, |slots0|, ws)
    requires Laid(buffer[..], fill, beg, beg, slots0, ws, data)
    modifies buffer
    ensures slots == slots0[7 + i := Xor(idx, IdxKey(from, key1, key2))]
    ensures Laid(buffer[..], fill, beg, beg, slots, ws, data)
  {
    var v: byte := if from % 2 == 1 then Xor(idx, key1) else Xor(idx, key2);
    RelaySlot(buffer[..], fill, beg, beg, slots0, ws, data, 7 + i, v);
    slots := slots0[7 + i := v];
    buffer[from] := v;
    assert buffer[..] == old(buffer[..])[from := v];
  }

  /** The data of a block goes into its window. */
  method PutBlock(plain: array<byte>, plen: nat, i: nat, from: Index, idx: Index, key1: byte, key2: byte,
                  bucket: array<bool>, buffer: array<byte>,
                  ghost beg: Index, ghost fill: seq<byte>, ghost slots: seq<byte>, ghost ws: seq<Index>)
    requires plen <= plain.Length && i < Blocks(plen)
    requires buffer.Length == bucket.Length == |fill| == 256 && plain != buffer && bucket as object !in {plain, buffer}
    requires from == Slot(beg, 7 + i) && |ws| == i
    requires bucket[..] == Taken(beg, |slots|, ws) && Accepts(bucket[..], idx)
    requires Laid(buffer[..], fill, beg, beg, slots, ws, Masked(beg, key1, key2, plain[..4 * i]))
    modifies bucket, buffer
    ensures 4 * i + 4 <= plen ==> bucket[..] == Taken(beg, |slots|, ws + [idx])
    ensures Laid(buffer[..], fill, beg, beg, slots, ws + [idx],
                 Masked(beg, key1, key2, plain[..if 4 * i + 4 <= plen then 4 * i + 4 else plen]))
  {
    ghost var put := if 4 * i + 4 <= plen then 4 else plen - 4 * i;
    ghost var all, ring := plain[..], buffer[..];
    PutData(plain, 4 * i, plen - 4 * i, from, idx, key1, key2, bucket, buffer);
    assert plain[..] == all && plain[4 * i..4 * i + put] == all[4 * i..4 * i + put];
    ghost var block := MaskedBlock(all[4 * i..4 * i + put], DataKey(from, key1, key2));
    LayBlock(buffer[..], ring, fill, beg, beg, slots, ws, Masked(beg, key1, key2, all[..4 * i]), idx, block);
    MaskMore(beg, key1, key2, all, i, put);
    if put == 4 {
      MarkWindow(bucket[..], beg, |slots|, ws, idx);
    }
  }

  /** The blocks with windows ws are in place, and as long as blocks may follow the map is exact. */
  ghost predicate Progress(ring: seq<byte>, bucket: seq<bool>, plain: seq<byte>, fill: seq<byte>, beg: Index,
                           key1: byte, key2: byte, base: seq<byte>, slots: seq<byte>, ws: seq<Index>) {
    && |fill| == 256 && |ws| <= Blocks(|plain|) && |base| == Blocks(|plain|) + 11
    && Clear(beg, |base|, ws)
    && Started(slots, base, ws, beg, key1, key2)
    && (|ws| < Blocks(|plain|) ==> bucket == Taken(beg, |base|, ws))
    && Laid(ring, fill, beg, beg, slots, ws,
            Masked(beg, key1, key2, plain[..if 4 * |ws| <= |plain| then 4 * |ws| else |plain|]))
  }

  lemma ProgressNext(ring: seq<byte>, bucket: seq<bool>, plain: seq<byte>, fill: seq<byte>, beg: Index,
                     key1: byte, key2: byte, base: seq<byte>, slots0: seq<byte>, slots: seq<byte>, ws: seq<Index>, w: Index)
    requires |fill| == 256 && |ws| < Blocks(|plain|) && |base| == Blocks(|plain|) + 11
    requires Clear(beg, |base|, ws) && Accepts(Taken(beg, |base|, ws), w)
    requires Started(slots0, base, ws, beg, key1, key2)
    requires slots == slots0[7 + |ws| := Xor(w, IdxKey(Slot(beg, 7 + |ws|), key1, key2))]
    requires 4 * |ws| + 4 <= |plain| ==> bucket == Taken(beg, |base|, ws + [w])
    requires Laid(ring, fill, beg, beg, slots, ws + [w],
                  Masked(beg, key1, key2, plain[..if 4 * |ws| + 4 <= |plain| then 4 * |ws| + 4 else |plain|]))
    ensures Progress(ring, bucket, plain, fill, beg, key1, key2, base, slots, ws + [w])
  {
    StartNext(slots0, base, ws, w, beg, key1, key2);
    ClearMore(beg, |base|, ws, w);
  }

  /** One block: index slot, then window. */
  method PutOne(plain: array<byte>, plen: nat, i: nat, from: Index, idx: Index, key1: byte, key2: byte,
                bucket: array<bool>, buffer: array<byte>,
                ghost beg: Index, ghost fill: seq<byte>, ghost base: seq<byte>, ghost slots0: seq<byte>, ghost ws: seq<Index>)
    returns (ghost slots: seq<byte>)
    requires plen <= plain.Length && plen <= MAX_PLAIN_BYTES && i < Blocks(plen)
    requires buffer.Length == bucket.Length == 256 && plain != buffer && bucket as object !in {plain, buffer}
    requires beg != MARKER && from == Slot(beg, 7 + i) && |ws| == i && Accepts(bucket[..], idx)
    requires Progress(buffer[..], bucket[..], plain[..plen], fill, beg, key1, key2, base, slots0, ws)
    modifies bucket, buffer
    ensures Progress(buffer[..], bucket[..], plain[..plen], fill, beg, key1, key2, base, slots, ws + [idx])
  {
    ghost var all := plain[..plen];
    assert all[..4 * i] == plain[..4 * i];
    slots := PutIndex(i, from, idx, key1, key2, buffer, beg, fill, slots0, ws, Masked(beg, key1, key2, all[..4 * i]));
    assert plain[..plen] == all && all[..4 * i] == plain[..4 * i];
    PutBlock(plain, plen, i, from, idx, key1, key2, bucket, buffer, beg, fill, slots, ws);
    ghost var done := if 4 * i + 4 <= plen then 4 * i + 4 else plen;
    assert plain[..plen] == all && all[..done] == plain[..done];
    ProgressNext(buffer[..], bucket[..], all, fill, beg, key1, key2, base, slots0, slots, ws, idx);
  }

  /** Search a window for the next of n blocks. */
  method Search(n: nat, bucket: array<bool>, frd: RandomFile, ghost beg: Index, ghost ws: seq<Index>) returns (idx: int)
    requires bucket.Length == 256 && |ws| < n && bucket[..] == Taken(beg, n + 11, ws)
    modifies frd
    ensures idx == -1 ==> Windows(frd.data, old(frd.pos), beg, n, ws).None?
    ensures idx != -1 ==>
              && 0 <= idx < 256 && Accepts(bucket[..], idx)
              && Windows(frd.data, old(frd.pos), beg, n, ws) == Windows(frd.data, frd.pos, beg, n, ws + [idx])
  {
    WindowsNext(frd.data, frd.pos, beg, n, ws, bucket[..]);
    idx := GetDataIdx(bucket, frd);
  }

  /** Step 8: index and data of every block. Fails exactly when some window search gives up. */
  method PutBlocks(plain: array<byte>, plen: nat, arr1: array<Index>, key1: byte, key2: byte,
                   bucket: array<bool>, buffer: array<byte>, frd: RandomFile,
                   ghost beg: Index, ghost fill: seq<byte>, ghost base: seq<byte>)
    returns (ret: Ret, ghost slots: seq<byte>, ghost ws: seq<Index>)
    requires plen <= plain.Length && 1 <= plen <= MAX_PLAIN_BYTES
    requires buffer.Length == bucket.Length == 256 && plain != buffer && bucket as object !in {plain, buffer, arr1}
    requires arr1.Length == 64 && arr1 !in {plain, buffer}
    requires beg != MARKER && forall i :: 0 <= i < Blocks(plen) ==> arr1[i] == Slot(beg, 7 + i)
    requires Progress(buffer[..], bucket[..], plain[..plen], fill, beg, key1, key2, base, base, [])
    modifies bucket, buffer, frd
    ensures ret == SUCC ==>
              && Windows(frd.data, old(frd.pos), beg, Blocks(plen), []) == Some(ws)
              && Progress(buffer[..], bucket[..], plain[..plen], fill, beg, key1, key2, base, slots, ws)
    ensures ret == FAIL ==> Windows(frd.data, old(frd.pos), beg, Blocks(plen), []).None?
  {
    var n := Blocks(plen);
    slots, ws := base, [];
    for i := 0 to n
      invariant |ws| == i
      invariant forall j :: 0 <= j < n ==> arr1[j] == Slot(beg, 7 + j)
      invariant Progress(buffer[..], bucket[..], plain[..plen], fill, beg, key1, key2, base, slots, ws)
      invariant Windows(frd.data, frd.pos, beg, n, ws) == Windows(frd.data, old(frd.pos), beg, n, [])
    {
      ghost var ring, marks, all := buffer[..], bucket[..], plain[..plen];
      var idx := Search(n, bucket, frd, beg, ws);
      assert buffer[..] == ring && bucket[..] == marks && plain[..plen] == all;
      if idx == -1 {
        ret := FAIL;
        return;
      }
      slots := PutOne(plain, plen, i, arr1[i], idx, key1, key2, bucket, buffer, beg, fill, base, slots, ws);
      ws := ws + [idx];
    }
    ret := SUCC;
  }

  lemma FinishedSlots(slots: seq<byte>, base: seq<byte>, pl: Plan, plen: nat, now: Clock)
    requires 1 <= plen <= MAX_PLAIN_BYTES && pl.Valid(Blocks(plen)) && now.Valid()
    requires |base| == Blocks(plen) + 11 && Head(pl.fill, pl.beg, pl.Ch(), plen) <= base
    requires base[7 + Blocks(plen)..] ==
             [Xor(now.min, pl.Key1()), Xor(now.mday, pl.Key1()), Xor(now.hour, pl.Key2()), Xor(now.sec, pl.Key2())]
    requires Started(slots, base, pl.ws, pl.beg, pl.Key1(), pl.Key2())
    ensures slots == SlotValues(pl, plen, now)
  {
    var n := Blocks(plen);
    forall r | 0 <= r < n + 11
      ensures slots[r] == SlotValue(pl, plen, now, r)
    {
      if r < 7 {
        assert base[r] == Head(pl.fill, pl.beg, pl.Ch(), plen)[r];
      } else if r < 7 + n {
        assert slots[7 + (r - 7)] == Xor(pl.ws[r - 7], IdxKey(Slot(pl.beg, 7 + (r - 7)), pl.Key1(), pl.Key2()));
      } else {
        assert base[r] == base[7 + n..][r - 7 - n];
      }
    }
  }

  /** When all blocks are in place, the ring carries the message. */
  lemma FinishedRing(ring: seq<byte>, bucket: seq<bool>, plain: seq<byte>, pl: Plan, key1: byte, key2: byte,
                     base: seq<byte>, slots: seq<byte>, now: Clock)
    requires 1 <= |plain| <= MAX_PLAIN_BYTES && pl.Valid(Blocks(|plain|)) && now.Valid()
    requires key1 == pl.Key1() && key2 == pl.Key2()
    requires |base| == Blocks(|plain|) + 11 && Head(pl.fill, pl.beg, pl.Ch(), |plain|) <= base
    requires base[7 + Blocks(|plain|)..] ==
             [Xor(now.min, key1), Xor(now.mday, key1), Xor(now.hour, key2), Xor(now.sec, key2)]
    requires Progress(ring, bucket, plain, pl.fill, pl.beg, key1, key2, base, slots, pl.ws)
    ensures Encodes(ring, pl, plain, now)
  {
    FinishedSlots(slots, base, pl, |plain|, now);
    assert plain[..|plain|] == plain;
  }

  /** Steps 2 to 7: everything up to key 2. */
  method PutHead(ch: nat, beg: Index, plen: byte, buffer: array<byte>, bucket: array<bool>)
    returns (from: Index, key1: byte, key2: byte)
    requires buffer.Length == bucket.Length == 256 && bucket as object != buffer
    requires beg != MARKER && ch < 0x1_0000 && forall p: Index :: !bucket[p]
    modifies buffer, bucket
    ensures from == Slot(beg, 6) && bucket[..] == Taken(beg, 7, [])
    ensures key1 == old(buffer[..])[Slot(beg, 2)] && key2 == old(buffer[..])[Slot(beg, 6)]
    ensures Laid(buffer[..], old(buffer[..]), beg, beg, Head(old(buffer[..]), beg, ch, plen), [], [])
  {
    ghost var fill := buffer[..];
    var ch1Idx := PutCharacteristic(ch, beg, buffer, bucket);
    var lenIdx;
    lenIdx, key1 := PutLength(ch1Idx, plen, buffer, bucket, ch, beg, fill);
    from, key2 := TakeKey2(lenIdx, buffer, bucket, plen, ch, beg, fill);
    CoverHead(ch1Idx, lenIdx, key1, key2, buffer, RawHead(fill, beg, ch, plen), beg, fill);
    CoveredHead(fill, beg, ch, plen);
  }

  /** The placeholders and the stamp; base lists the content of all slots, the indexes still missing. */
  method PutTail(n: nat, now: Clock, key1: byte, key2: byte, buffer: array<byte>, bucket: array<bool>, from: Index,
                 ghost beg: Index, ghost fill: seq<byte>, ghost head: seq<byte>)
    returns (arr1: array<Index>, ghost base: seq<byte>)
    requires buffer.Length == bucket.Length == |fill| == 256 && bucket as object != buffer
    requires beg != MARKER && |head| == 7 && n <= 30 && now.Valid()
    requires from == Slot(beg, 6) && bucket[..] == Taken(beg, 7, [])
    requires Laid(buffer[..], fill, beg, beg, head, [], [])
    modifies buffer, bucket
    ensures fresh(arr1) && arr1.Length == 64 && forall i :: 0 <= i < n ==> arr1[i] == Slot(beg, 7 + i)
    ensures |base| == n + 11 && head <= base && bucket[..] == Taken(beg, n + 11, [])
    ensures base[7 + n..] == [Xor(now.min, key1), Xor(now.mday, key1), Xor(now.hour, key2), Xor(now.sec, key2)]
    ensures Laid(buffer[..], fill, beg, beg, base, [], [])
  {
    var from2;
    ghost var slots;
    from2, arr1, slots := TakePlaceholders(n, buffer, bucket, from, beg, fill, head);
    ghost var indexes := arr1[..];
    base := PutStamp(now, key1, key2, buffer, bucket, from2, beg, fill, slots);
    assert arr1[..] == indexes;
  }

  /** Steps 2 to 13, on a buffer full of random bytes. */
  method LayOut(plain: array<byte>, plen: nat, chidx: nat, beg: Index, buffer: array<byte>, frd: RandomFile, now: Clock)
    returns (ret: Ret, ghost ws: seq<Index>)
    requires plen <= plain.Length && 1 <= plen <= MAX_PLAIN_BYTES && now.Valid()
    requires buffer.Length == 256 && buffer != plain && beg != MARKER && chidx < CH14S_SZ
    modifies buffer, frd
    ensures ret == SUCC ==>
              && Windows(frd.data, old(frd.pos), beg, Blocks(plen), []) == Some(ws)
              && Encodes(buffer[..], Plan(chidx, beg, old(buffer[..]), ws), plain[..plen], now)
    ensures ret == FAIL ==> Windows(frd.data, old(frd.pos), beg, Blocks(plen), []).None?
  {
    var bucket := new bool[256](_ => false);
    ghost var fill, all := buffer[..], plain[..plen];
    var ch := CH14S[chidx];
    var from, key1, key2 := PutHead(ch, beg, plen, buffer, bucket);
    var arr1;
    ghost var base;
    arr1, base := PutTail(Blocks(plen), now, key1, key2, buffer, bucket, from, beg, fill, Head(fill, beg, ch, plen));
    assert plain[..plen] == all && Masked(beg, key1, key2, all[..0]) == [];
    ghost var slots;
    ret, slots, ws := PutBlocks(plain, plen, arr1, key1, key2, bucket, buffer, frd, beg, fill, base);
    if ret == SUCC {
      assert plain[..plen] == all;
      FinishedRing(buffer[..], bucket[..], all, Plan(chidx, beg, fill, ws), key1, key2, base, slots, now);
    }
  }

  /** Step 1: draw characteristic, begin index and fill. */
  method Draw(buffer: array<byte>, frd: RandomFile) returns (ret: Ret, chidx: nat, begidx: Index)
    requires buffer.Length == 256
    modifies buffer, frd
    ensures var start := old(frd.pos);
            if ret == FAIL then forall n :: PlanOf(frd.data, start, n).None?
            else && start < |frd.data| && chidx == frd.data[start] % CH14S_SZ
                 && 256 < frd.pos <= |frd.data| && BeginIdx(frd.data, start + 1, 201) == Some(frd.pos - 256)
                 && begidx == frd.data[frd.pos - 257] && buffer[..] == frd.data[frd.pos - 256..frd.pos]
  {
    var ch := GetCharIdx(frd);
    if ch == -1 { return FAIL, 0, 0; }
    var beg := GetBeginIdx(frd);
    if beg == -1 { return FAIL, 0, 0; }
    ret := InitBuffer(buffer, frd);
    return ret, ch, beg;
  }

  /** Draw at random, and lay the message out. */
  method EncodeRing(plain: array<byte>, plen: nat, buffer: array<byte>, frd: RandomFile, now: Clock) returns (ret: Ret)
    requires plen <= plain.Length && 1 <= plen <= MAX_PLAIN_BYTES && now.Valid()
    requires buffer.Length == 256 && buffer != plain
    modifies buffer, frd
    ensures match PlanOf(frd.data, old(frd.pos), Blocks(plen))
            case None => ret == FAIL
            case Some(pl) => ret == SUCC && Encodes(buffer[..], pl, old(plain[..plen]), now)
  {
    ghost var all, pos := plain[..plen], frd.pos;
    var chidx, begidx;
    ret, chidx, begidx := Draw(buffer, frd);
    if ret == FAIL { return; }
    PlanIs(frd.data, pos, Blocks(plen), frd.pos - 256);
    assert plain[..plen] == all;
    ghost var ws;
    ret, ws := LayOut(plain, plen, chidx, begidx, buffer, frd, now);
  }

  /** Encode plen bytes into the caller's 256-byte buffer. A missing device, too few random bytes or an
      exhausted search is a failure; so are bad arguments. */
  method Encode(plain: array?<byte>, plen: int, cipher: array?<byte>, clen: array?<int>, frd: RandomFile?, now: Clock)
    returns (ret: Ret)
    requires plain != null && 1 <= plen <= 120 ==> plen <= plain.Length
    requires cipher != null ==> cipher.Length >= 256
    requires clen != null ==> clen.Length >= 1 && (cipher != null ==> cipher as object != clen)
    requires now.Valid()
    modifies cipher, clen, frd
    ensures ret == SUCC <==>
            && plain != null && cipher != null && clen != null && 1 <= plen <= 120
            && frd != null && PlanOf(frd.data, old(frd.pos), Blocks(plen)).Some?
    ensures ret == SUCC ==>
              && Encodes(cipher[..256], PlanOf(frd.data, old(frd.pos), Blocks(plen)).value, old(plain[..plen]), now)
              && clen[0] == 256 && cipher[256..] == old(cipher[256..])
    ensures ret == FAIL && cipher != null ==> cipher[..] == old(cipher[..])
    ensures ret == FAIL && clen != null ==> clen[..] == old(clen[..])
  {
    if plain == null || cipher == null || clen == null { return FAIL; }
    if plen < 1 || plen > MAX_PLAIN_BYTES { return FAIL; }
    if frd == null { return FAIL; }
    var buffer := new byte[256](_ => 0);
    ret := EncodeRing(plain, plen, buffer, frd, now);
    if ret == FAIL { return FAIL; }
    CopyIn(buffer, 256, cipher);
    clen[0] := 256;
  }

  // The decoder.

  method KnownCharacteristic(ch: nat) returns (found: bool)
    ensures found == (ch in CH14S)
  {
    for i := 0 to CH14S_SZ
      invariant ch !in CH14S[..i]
    {
      if ch == CH14S[i] {
        return true;
      }
    }
    return false;
  }

  /** Check the stamp, which stands behind the n index slots that follow the slot idx0. */
  method CheckStamp(buffer: array<byte>, idx0: Index, n: nat, key1: byte, key2: byte, now: Clock) returns (ok: bool)
    requires buffer.Length == 256 && n <= 30
    requires var ring := buffer[..]; var beg := ring[MARKER];
             && idx0 == Slot(beg, 6) && n == Blocks(Length(ring)) && key1 == ring[Slot(beg, 2)] && key2 == ring[Slot(beg, 6)]
    ensures ok == InTime(Stamp(buffer[..]), now)
  {
    ghost var beg := buffer[MARKER];
    var idx := idx0;
    for i := 0 to n
      invariant idx == Slot(beg, 6 + i)
    {
      idx := NextIdx(idx);
    }
    idx := NextIdx(idx);
    var min := Xor(buffer[idx], key1);
    idx := NextIdx(idx);
    var day := Xor(buffer[idx], key1);
    idx := NextIdx(idx);
    var hour := Xor(buffer[idx], key2);
    idx := NextIdx(idx);
    var sec := Xor(buffer[idx], key2);
    if day != now.mday || hour != now.hour {
      return false;
    }
    var secDiff: int := now.min * 60 + now.sec - ((min as int) * 60 + (sec as int));
    return !(secDiff < 0 || secDiff > 6);
  }

  /** The four bytes of the block whose index slot is idx. */
  method GetBlock(buffer: array<byte>, idx: Index, key1: byte, key2: byte, plainBuf: array<byte>, k: nat)
    requires buffer.Length == 256 && buffer != plainBuf && k + 4 <= plainBuf.Length
    modifies plainBuf
    ensures var w := Xor(buffer[idx], IdxKey(idx, key1, key2));
            && (forall d: nat :: d < 4 ==> plainBuf[k + d] == Xor(buffer[After(w, d)], DataKey(idx, key1, key2)))
            && (forall m :: 0 <= m < k ==> plainBuf[m] == old(plainBuf[m]))
  {
    var odd := idx % 2 == 1;
    var where := if odd then Xor(buffer[idx], key1) else Xor(buffer[idx], key2);
    plainBuf[k] := if odd then Xor(buffer[where], key2) else Xor(buffer[where], key1);
    where := if where == 255 then 0 else where + 1;
    plainBuf[k + 1] := if odd then Xor(buffer[where], key2) else Xor(buffer[where], key1);
    where := if where == 255 then 0 else where + 1;
    plainBuf[k + 2] := if odd then Xor(buffer[where], key2) else Xor(buffer[where], key1);
    where := if where == 255 then 0 else where + 1;
    plainBuf[k + 3] := if odd then Xor(buffer[where], key2) else Xor(buffer[where], key1);
  }

  /** All blocks, whole: the last one may bring bytes that are no data. */
  method GetBlocks(buffer: array<byte>, idx0: Index, n: nat, key1: byte, key2: byte, plainBuf: array<byte>)
    requires buffer.Length == 256 && n <= 30 && buffer != plainBuf && plainBuf.Length == MAX_PLAIN_BYTES
    requires var ring := buffer[..]; var beg := ring[MARKER];
             idx0 == Slot(beg, 6) && key1 == ring[Slot(beg, 2)] && key2 == ring[Slot(beg, 6)]
    modifies plainBuf
    ensures forall m :: 0 <= m < 4 * n ==> plainBuf[m] == PlainByte(buffer[..], m)
  {
    ghost var ring, beg := buffer[..], buffer[MARKER];
    var idx := idx0;
    for j := 0 to n
      invariant idx == Slot(beg, 6 + j) && buffer[..] == ring
      invariant forall m :: 0 <= m < 4 * j ==> plainBuf[m] == PlainByte(ring, m)
    {
      idx := NextIdx(idx);
      GetBlock(buffer, idx, key1, key2, plainBuf, 4 * j);
      assert buffer[..] == ring;
      forall m | 4 * j <= m < 4 * j + 4
        ensures plainBuf[m] == PlainByte(ring, m)
      {
        assert m / 4 == j && m == 4 * j + m % 4;
      }
    }
  }

  /** The first seven slots: characteristic, the keys and the length, uncovered. */
  method ReadHead(buffer: array<byte>) returns (idx: Index, ch14: nat, len: byte, key1: byte, key2: byte)
    requires buffer.Length == 256
    ensures var ring := buffer[..]; var beg := ring[MARKER];
            && idx == Slot(beg, 6) && key1 == ring[Slot(beg, 2)] && key2 == ring[Slot(beg, 6)]
            && ch14 == Characteristic(ring) && len == Length(ring)
  {
    var begidx := buffer[MARKER];
    idx := begidx;
    var ch2 := buffer[idx];
    idx := NextIdx(idx);
    var ch1 := buffer[idx];
    assert idx == Slot(begidx, 1);
    idx := NextIdx(idx);
    key1 := buffer[idx];
    assert idx == Slot(begidx, 2);
    idx := NextIdx(idx);
    idx := NextIdx(idx);
    var covered := buffer[idx];
    assert idx == Slot(begidx, 4);
    idx := NextIdx(idx);
    idx := NextIdx(idx);
    key2 := buffer[idx];
    assert idx == Slot(begidx, 6);
    ch1 := Xor(ch1, key2);
    ch14 := (ch2 as int) + 256 * (ch1 as int);
    len := Xor(covered, key1);
  }

  /** Everything up to the final copy: k bytes of plainBuf are the message. */
  method DecodeBuffer(buffer: array<byte>, plainBuf: array<byte>, maxPlen: int, now: Clock) returns (ret: Ret, k: nat)
    requires buffer.Length == 256 && plainBuf.Length == MAX_PLAIN_BYTES && buffer != plainBuf
    modifies plainBuf
    ensures match old(Decode(buffer[..], now, maxPlen))
            case None => ret == FAIL
            case Some(bytes) => ret == SUCC && k == |bytes| <= plainBuf.Length && plainBuf[..k] == bytes
  {
    k := 0;
    var idx, ch14, len, key1, key2 := ReadHead(buffer);
    var found := KnownCharacteristic(ch14);
    if !found { return FAIL, k; }
    if len > MAX_PLAIN_BYTES { return FAIL, k; }
    var ok := CheckStamp(buffer, idx, Blocks(len), key1, key2, now);
    if !ok { return FAIL, k; }
    k := GetPlain(buffer, idx, len, key1, key2, plainBuf);
    if maxPlen < k { return FAIL, k; }
    ret := SUCC;
  }

  lemma WholeBlocks(len: nat)
    ensures 4 * Blocks(len) - (4 - len % 4) % 4 == len
  {}

  /** Step 8 and the count: len bytes of message at the start of plainBuf. */
  method GetPlain(buffer: array<byte>, idx: Index, len: byte, key1: byte, key2: byte, plainBuf: array<byte>) returns (k: nat)
    requires buffer.Length == 256 && len <= MAX_PLAIN_BYTES && buffer != plainBuf && plainBuf.Length == MAX_PLAIN_BYTES
    requires var ring := buffer[..]; var beg := ring[MARKER];
             idx == Slot(beg, 6) && key1 == ring[Slot(beg, 2)] && key2 == ring[Slot(beg, 6)]
    modifies plainBuf
    ensures k == len && plainBuf[..k] == PlainBytes(buffer[..], len)
  {
    var n := Blocks(len);
    var bali := len % 4;
    GetBlocks(buffer, idx, n, key1, key2, plainBuf);
    WholeBlocks(len);
    k := 4 * n - (4 - bali) % 4;
  }

  /** Decode from a private copy of the ring, then copy the message out. */
  method DecodeInto(cipher: array<byte>, plain: array<byte>, maxPlen: int, now: Clock) returns (ret: Ret, k: nat)
    requires cipher.Length >= 256 && maxPlen <= plain.Length
    modifies plain
    ensures match old(Decode(cipher[..256], now, maxPlen))
            case None => ret == FAIL && plain[..] == old(plain[..])
            case Some(bytes) => ret == SUCC && k == |bytes| <= plain.Length && plain[..] == bytes + old(plain[..])[k..]
  {
    var buffer := new byte[256];
    CopyIn(cipher, 256, buffer);
    assert buffer[..] == cipher[..256];
    var plainBuf := new byte[MAX_PLAIN_BYTES](_ => 0);
    ghost var was := plain[..];
    ret, k := DecodeBuffer(buffer, plainBuf, maxPlen, now);
    assert plain[..] == was;
    if ret == FAIL { return; }
    CopyIn(plainBuf, k, plain);
  }

  /** Decode a ring into the caller's buffer of maxPlen bytes. */
  method DecodeRing(cipher: array?<byte>, clen: int, plain: array?<byte>, plen: array?<int>, maxPlen: int, now: Clock)
    returns (ret: Ret)
    requires cipher != null && clen == 256 ==> cipher.Length >= 256
    requires plain != null ==> maxPlen <= plain.Length
    requires plen != null ==> plen.Length >= 1 && (plain != null ==> plain as object != plen)
    modifies plain, plen
    ensures ret == SUCC <==>
            && cipher != null && clen == 256 && plain != null && plen != null
            && old(Decode(cipher[..256], now, maxPlen)).Some?
    ensures ret == SUCC ==>
              var bytes := old(Decode(cipher[..256], now, maxPlen)).value;
              && plen[0] == |bytes| <= plain.Length && plain[..] == bytes + old(plain[..])[|bytes|..]
    ensures ret == FAIL && plain != null ==> plain[..] == old(plain[..])
    ensures ret == FAIL && plen != null ==> plen[..] == old(plen[..])
  {
    if cipher == null || clen != 256 || plain == null || plen == null { return FAIL; }
    var k;
    ret, k := DecodeInto(cipher, plain, maxPlen, now);
    if ret == FAIL { return FAIL; }
    plen[0] := k;
  }

  /** What the library's own exercise does: encode, and decode the result a little later. Whenever encoding succeeds,
      decoding within six seconds of the same hour into a large enough buffer returns the original. */
  method EncodeThenDecode(plain: array<byte>, plen: int, plain2: array<byte>, frd: RandomFile, stamp: Clock, now: Clock)
    returns (enc: Ret, dec: Ret, plen2: int)
    requires 1 <= plen <= 120 && plen <= plain.Length && stamp.Valid()
    modifies plain2, frd
    ensures enc == SUCC <==> PlanOf(frd.data, old(frd.pos), Blocks(plen)).Some?
    ensures dec == SUCC <==>
            && enc == SUCC && plen <= plain2.Length && now.mday == stamp.mday && now.hour == stamp.hour
            && 0 <= (60 * now.min + now.sec) - (60 * stamp.min + stamp.sec) <= 6
    ensures dec == SUCC ==> plen2 == plen && plain2[..plen] == old(plain[..plen]) && plain2[plen..] == old(plain2[..])[plen..]
  {
    var cipher, clen, len2 := new byte[256](_ => 0), new int[1](_ => 0), new int[1](_ => 0);
    ghost var bytes, was := plain[..plen], plain2[..];
    enc := Encode(plain, plen, cipher, clen, frd, stamp);
    if enc == FAIL { return FAIL, FAIL, 0; }
    assert cipher[..256] == cipher[..] && plain2[..] == was;
    RoundTrip(cipher[..], PlanOf(frd.data, old(frd.pos), Blocks(plen)).value, bytes, stamp, now, plain2.Length);
    dec := DecodeRing(cipher, clen[0], plain2, len2, plain2.Length, now);
    plen2 := len2[0];
    if dec == SUCC {
      assert plain2[..] == bytes + was[plen..];
    }
  }

  /** memcpy. */
  method CopyIn(from: array<byte>, n: nat, to: array<byte>)
    requires n <= from.Length && n <= to.Length && from != to
    modifies to
    ensures to[..] == old(from[..n]) + old(to[..])[n..]
  {
    forall i | 0 <= i < n {
      to[i] := from[i];
    }
  }
}
