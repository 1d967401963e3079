/** The 20-byte messages between the timer calls and the timer thread. */
module TimerMessage {
  import opened Results
  import opened Bytes

  const SZ := 20

  function Pow256(k: nat): (r: nat)
    ensures r > 0
  {
    if k == 0 then 1 else 256 * Pow256(k - 1)
  }

  /** The low k bytes of n, least significant first. */
  function LE(n: nat, k: nat): (s: seq<byte>)
    ensures |s| == k
    decreases k
  {
    if k == 0 then [] else [n % 256] + LE(n / 256, k - 1)
  }

  function FromLE(s: seq<byte>): nat {
    if s == [] then 0 else s[0] + 256 * FromLE(s[1..])
  }

  /** k bytes carry every number below 256^k. */
  lemma {:induction false} FromLEOfLE(n: nat, k: nat)
    requires n < Pow256(k)
    ensures FromLE(LE(n, k)) == n
  {
    if k > 0 {
      FromLEOfLE(n / 256, k - 1);
    }
  }

  lemma Widths()
    ensures Pow256(2) == 0x1_0000 && Pow256(4) == 0x1_0000_0000 && Pow256(8) == 0x1_0000_0000_0000_0000
  {
    assert Pow256(3) == 256 * Pow256(2);
    assert Pow256(5) == 256 * Pow256(4);
    assert Pow256(6) == 256 * Pow256(5);
    assert Pow256(7) == 256 * Pow256(6);
  }

  // What is said.

  type u16 = n: nat | n < 0x1_0000
  type u32 = n: nat | n < 0x1_0000_0000
  type u64 = n: nat | n < 0x1_0000_0000_0000_0000

  /** A request, or a message the server does not understand. Callbacks are their addresses; 0 is NULL. */
  datatype Request =
    | Set(sec: u16, ms: u16, repeats: u32, cb: u64)
    | Cancel(cb: u64)
    | Destroy
    | Unknown

  function Message(kind: byte, sec: u16, ms: u16, repeats: u32, cb: u64): (m: seq<byte>)
    ensures |m| == SZ
  {
    [1] + LE(17, 2) + [kind] + LE(sec, 2) + LE(ms, 2) + LE(repeats, 4) + LE(cb, 8)
  }

  function Encode(r: Request): (m: seq<byte>)
    requires !r.Unknown?
    ensures |m| == SZ
  {
    match r
    case Set(sec, ms, repeats, cb) => Message(1, sec, ms, repeats, cb)
    case Cancel(cb) => Message(2, 0, 0, 0, cb)
    case Destroy => Message(3, 0, 0, 0, 0)
  }

  lemma {:induction false} FromLEFits(s: seq<byte>)
    ensures FromLE(s) < Pow256(|s|)
  {
    if s != [] {
      FromLEFits(s[1..]);
    }
  }

  function Field16(m: seq<byte>, at: nat): u16
    requires at + 2 <= |m|
  {
    FromLEFits(m[at..at + 2]); Widths();
    FromLE(m[at..at + 2])
  }

  function Field32(m: seq<byte>, at: nat): u32
    requires at + 4 <= |m|
  {
    FromLEFits(m[at..at + 4]); Widths();
    FromLE(m[at..at + 4])
  }

  function Field64(m: seq<byte>, at: nat): u64
    requires at + 8 <= |m|
  {
    FromLEFits(m[at..at + 8]); Widths();
    FromLE(m[at..at + 8])
  }

  /** How the server reads a message. */
  function Decode(m: seq<byte>): Request
    requires |m| == SZ
  {
    if m[0] != 1 || Field16(m, 1) != 17 then Unknown
    else if m[3] == 1 then Set(Field16(m, 4), Field16(m, 6), Field32(m, 8), Field64(m, 12))
    else if m[3] == 2 then Cancel(Field64(m, 12))
    else if m[3] == 3 then Destroy
    else Unknown
  }

  lemma MessageSlices(kind: byte, sec: u16, ms: u16, repeats: u32, cb: u64)
    ensures var m := Message(kind, sec, ms, repeats, cb);
            && m[0] == 1 && m[1..3] == LE(17, 2) && m[3] == kind && m[4..6] == LE(sec, 2) && m[6..8] == LE(ms, 2)
            && m[8..12] == LE(repeats, 4) && m[12..20] == LE(cb, 8)
  {
    var m := Message(kind, sec, ms, repeats, cb);
    var a := [1 as byte] + LE(17, 2);
    var b := a + [kind];
    var c := b + LE(sec, 2);
    var d := c + LE(ms, 2);
    var e := d + LE(repeats, 4);
    assert m[..12] == e && m[..8] == e[..8] == d && m[..6] == d[..6] == c && m[..4] == c[..4] == b && m[..3] == b[..3] == a;
    assert m[1..3] == a[1..] && m[4..6] == c[4..] && m[6..8] == d[6..] && m[8..12] == e[8..];
  }

  lemma MessageFields(kind: byte, sec: u16, ms: u16, repeats: u32, cb: u64)
    ensures var m := Message(kind, sec, ms, repeats, cb);
            && m[0] == 1 && Field16(m, 1) == 17 && m[3] == kind && Field16(m, 4) == sec && Field16(m, 6) == ms
            && Field32(m, 8) == repeats && Field64(m, 12) == cb
  {
    var m := Message(kind, sec, ms, repeats, cb);
    Widths();
    FromLEOfLE(17, 2); FromLEOfLE(sec, 2); FromLEOfLE(ms, 2); FromLEOfLE(repeats, 4); FromLEOfLE(cb, 8);
    MessageSlices(kind, sec, ms, repeats, cb);
  }

  /** One message comes across with every field intact. */
  lemma MessageRoundTrip(r: Request)
    requires !r.Unknown?
    ensures Decode(Encode(r)) == r
  {
    match r
    case Set(sec, ms, repeats, cb) => MessageFields(1, sec, ms, repeats, cb);
    case Cancel(cb) => MessageFields(2, 0, 0, 0, cb);
    case Destroy => MessageFields(3, 0, 0, 0, 0);
  }

  // The stream.

  function EncodeAll(rs: seq<Request>): (bytes: seq<byte>)
    requires forall r :: r in rs ==> !r.Unknown?
  {
    if rs == [] then [] else Encode(rs[0]) + EncodeAll(rs[1..])
  }

  /** The requests the server takes from a stream: 20 bytes each, up to the first Destroy. An incomplete
      message at the end is not taken. */
  function DecodeAll(bytes: seq<byte>): seq<Request> {
    if |bytes| < SZ then []
    else
      var r := Decode(bytes[..SZ]);
      if r.Destroy? then [r] else [r] + DecodeAll(bytes[SZ..])
  }

  /** The k-th twenty bytes. */
  function MessageAt(bytes: seq<byte>, k: nat): (m: seq<byte>)
    requires SZ * (k + 1) <= |bytes|
    ensures |m| == SZ
  {
    bytes[SZ * k..SZ * k + SZ]
  }

  lemma MessageLater(bytes: seq<byte>, j: nat)
    requires SZ * (j + 2) <= |bytes|
    ensures MessageAt(bytes[SZ..], j) == MessageAt(bytes, j + 1)
  {
    SliceOfRest(bytes, SZ, SZ * j, SZ * j + SZ);
    assert SZ + SZ * j == SZ * (j + 1);
  }

  lemma SliceOfRest(s: seq<byte>, d: nat, from: nat, end: nat)
    requires from <= end && d + end <= |s|
    ensures s[d..][from..end] == s[d + from..d + end]
  {}

  /** Message after message is taken, up to the first Destroy. */
  lemma {:induction false} DecodeAllIs(bytes: seq<byte>, k: nat)
    requires SZ * (k + 1) <= |bytes| && forall j: nat :: j < k ==> Decode(MessageAt(bytes, j)) != Destroy
    ensures k < |DecodeAll(bytes)| && DecodeAll(bytes)[k] == Decode(MessageAt(bytes, k))
    ensures Decode(MessageAt(bytes, k)) == Destroy || |bytes| < SZ * (k + 2) ==> |DecodeAll(bytes)| == k + 1
  {
    assert MessageAt(bytes, 0) == bytes[..SZ];
    if k > 0 {
      var later := bytes[SZ..];
      assert Decode(MessageAt(bytes, 0)) != Destroy;
      forall j: nat | j < k
        ensures MessageAt(later, j) == MessageAt(bytes, j + 1)
      {
        MessageLater(bytes, j);
      }
      DecodeAllIs(later, k - 1);
      assert DecodeAll(bytes) == [Decode(bytes[..SZ])] + DecodeAll(later);
    }
  }

  function UpToDestroy(rs: seq<Request>): seq<Request> {
    if rs == [] then []
    else if rs[0].Destroy? then [rs[0]]
    else [rs[0]] + UpToDestroy(rs[1..])
  }

  /** Nothing is cut off before the first Destroy, and nothing is left behind it. */
  lemma {:induction false} UpToDestroyIs(rs: seq<Request>, k: nat)
    requires k <= |rs| && (forall j :: 0 <= j < k ==> rs[j] != Destroy) && (k < |rs| ==> rs[k] == Destroy)
    ensures UpToDestroy(rs) == if k < |rs| then rs[..k + 1] else rs
  {
    if rs != [] && k > 0 {
      UpToDestroyIs(rs[1..], k - 1);
      assert k < |rs| ==> rs[..k + 1] == [rs[0]] + rs[1..][..k];
    }
  }

  /** Framing: the server sees the same requests in the same order, up to the first Destroy. */
  lemma {:induction false} StreamRoundTrip(rs: seq<Request>)
    requires forall r :: r in rs ==> !r.Unknown?
    ensures DecodeAll(EncodeAll(rs)) == UpToDestroy(rs)
  {
    if rs != [] {
      MessageRoundTrip(rs[0]);
      var bytes := EncodeAll(rs);
      assert bytes[..SZ] == Encode(rs[0]) && bytes[SZ..] == EncodeAll(rs[1..]);
      StreamRoundTrip(rs[1..]);
    }
  }

  // The wire format, byte by byte.

  lemma FromLEStep(m: seq<byte>, k: nat, end: nat)
    requires k < end <= |m|
    ensures FromLE(m[k..end]) == (m[k] as int) + 256 * FromLE(m[k + 1..end])
  {
    assert m[k..end][1..] == m[k + 1..end];
  }

  /** Digits to the base of 256, the lowest first. */
  lemma TwoBytes(m: seq<byte>, k: nat)
    requires k + 2 <= |m|
    ensures FromLE(m[k..k + 2]) == (m[k] as int) + 256 * (m[k + 1] as int)
  {
    FromLEStep(m, k, k + 2);
    FromLEStep(m, k + 1, k + 2);
  }

  lemma FourBytes(m: seq<byte>, k: nat, end: nat)
    requires k + 4 <= end <= |m|
    ensures FromLE(m[k..end]) ==
            (m[k] as int) + 0x100 * (m[k + 1] as int) + 0x1_0000 * (m[k + 2] as int) + 0x100_0000 * (m[k + 3] as int)
            + 0x1_0000_0000 * FromLE(m[k + 4..end])
  {
    FromLEStep(m, k, end);
    FromLEStep(m, k + 1, end);
    FromLEStep(m, k + 2, end);
    FromLEStep(m, k + 3, end);
  }

  /** How the server reads any twenty bytes: 1, the length 17, the kind, then seconds, milliseconds, count and callback. */
  lemma MessagesRead(m: seq<byte>)
    requires |m| == SZ
    ensures Decode(m).Unknown? <==> !(m[0] == 1 && m[1] == 17 && m[2] == 0 && (m[3] == 1 || m[3] == 2 || m[3] == 3))
    ensures !Decode(m).Unknown? ==> if m[3] == 1 then Decode(m).Set? else if m[3] == 2 then Decode(m).Cancel? else Decode(m).Destroy?
    ensures Decode(m).Set? ==>
              && Decode(m).sec == (m[4] as int) + 256 * (m[5] as int)
              && Decode(m).ms == (m[6] as int) + 256 * (m[7] as int)
              && Decode(m).repeats == FourDigits(m, 8)
    ensures Decode(m).Set? || Decode(m).Cancel? ==> Decode(m).cb == FourDigits(m, 12) + 0x1_0000_0000 * FourDigits(m, 16)
  {
    TwoBytes(m, 1);
    TwoBytes(m, 4);
    TwoBytes(m, 6);
    FourBytes(m, 8, 12);
    FourBytes(m, 12, 20);
    FourBytes(m, 16, 20);
  }

  function FourDigits(m: seq<byte>, k: nat): int
    requires k + 4 <= |m|
  {
    (m[k] as int) + 0x100 * (m[k + 1] as int) + 0x1_0000 * (m[k + 2] as int) + 0x100_0000 * (m[k + 3] as int)
  }

  /** What a client writes: the same bytes with the same meaning. */
  lemma WireFormat(r: Request)
    requires !r.Unknown?
    ensures var m := Encode(r);
            && m[0] == 1 && m[1] == 17 && m[2] == 0
            && m[3] == (match r case Set(_, _, _, _) => 1 case Cancel(_) => 2 case Destroy => 3)
            && (r.Set? ==> && r.sec == (m[4] as int) + 256 * (m[5] as int) && r.ms == (m[6] as int) + 256 * (m[7] as int)
                           && r.repeats == FourDigits(m, 8))
            && (!r.Destroy? ==> r.cb == FourDigits(m, 12) + 0x1_0000_0000 * FourDigits(m, 16))
            && (!r.Set? ==> forall k :: 4 <= k < 12 ==> m[k] == 0)
            && (r.Destroy? ==> forall k :: 12 <= k < 20 ==> m[k] == 0)
  {
    MessageRoundTrip(r);
    MessagesRead(Encode(r));
    if !r.Set? {
      EmptyFields(Encode(r)[3], if r.Cancel? then r.cb else 0);
    }
  }

  lemma {:induction false} Zeros(k: nat)
    ensures forall i :: 0 <= i < k ==> LE(0, k)[i] == 0
  {
    if k > 0 {
      Zeros(k - 1);
    }
  }

  lemma EmptyFields(kind: byte, cb: u64)
    ensures var m := Message(kind, 0, 0, 0, cb);
            && (forall k :: 4 <= k < 12 ==> m[k] == 0) && (cb == 0 ==> forall k :: 12 <= k < 20 ==> m[k] == 0)
  {
    var m := Message(kind, 0, 0, 0, cb);
    MessageSlices(kind, 0, 0, 0, cb);
    Zeros(2);
    Zeros(4);
    Zeros(8);
    assert forall k :: 4 <= k < 6 ==> m[k] == m[4..6][k - 4];
    assert forall k :: 6 <= k < 8 ==> m[k] == m[6..8][k - 6];
    assert forall k :: 8 <= k < 12 ==> m[k] == m[8..12][k - 8];
    assert forall k :: 12 <= k < 20 ==> m[k] == m[12..20][k - 12];
  }

  // The code that fills a message.

  lemma CancelMessage(cb: u64)
    ensures Message(2 % 256, 0 % 0x1_0000, 0 % 0x1_0000, 0, cb) == Encode(Cancel(cb))
  {}

  lemma SmallIsUnchanged(n: u16)
    ensures n % 0x1_0000 == n
  {}

  /** A little-endian store of n bytes at idx. */
  method Store(buf: array<byte>, idx: nat, v: nat, n: nat)
    requires idx + n <= buf.Length
    modifies buf
    ensures buf[..] == old(buf[..idx]) + LE(v, n) + old(buf[idx + n..])
  {
    var rest := v;
    for i := 0 to n
      invariant buf[..] == old(buf[..idx]) + LE(v, n)[..i] + old(buf[idx + i..])
      invariant LE(v, n)[i..] == LE(rest, n - i)
    {
      buf[idx + i] := rest % 256;
      rest := rest / 256;
    }
  }

  /** `kind`, seconds and milliseconds arrive as C ints and are cut to their fields. */
  method LoadSrvBuf(kind: int, sec: int, ms: int, rpe: u32, cb: u64, buf: array<byte>)
    requires buf.Length == SZ
    modifies buf
    ensures buf[..] == Message(kind % 256, sec % 0x1_0000, ms % 0x1_0000, rpe, cb)
  {
    var idx := 0;
    buf[idx] := 1;
    idx := idx + 1;
    Store(buf, idx, 1 + 2 + 2 + 4 + 8, 2);
    idx := idx + 2;
    buf[idx] := kind % 256;
    idx := idx + 1;
    assert buf[..4] == [1] + LE(17, 2) + [kind % 256];
    Store(buf, idx, sec % 0x1_0000, 2);
    idx := idx + 2;
    Store(buf, idx, ms % 0x1_0000, 2);
    idx := idx + 2;
    Store(buf, idx, rpe, 4);
    idx := idx + 4;
    Store(buf, idx, cb, 8);
  }

  /** The client end of the connection; `sent` is everything written to it. */
  class Connection {
    const up: bool
    ghost var sent: seq<byte>

    constructor (up: bool)
      ensures this.up == up && sent == []
    {
      this.up := up;
      sent := [];
    }

    method Write(buf: array<byte>) returns (n: int)
      modifies this
      ensures if up then n == buf.Length && sent == old(sent) + buf[..] else n == -1 && sent == old(sent)
    {
      if !up { return -1; }
      sent := sent + buf[..];
      return buf.Length;
    }

    method Send(kind: int, sec: int, ms: int, rpe: u32, cb: u64) returns (ret: Ret)
      modifies this
      ensures if up then ret == SUCC && sent == old(sent) + Message(kind % 256, sec % 0x1_0000, ms % 0x1_0000, rpe, cb)
              else ret == FAIL && sent == old(sent)
    {
      var buf := new byte[SZ](_ => 0);
      LoadSrvBuf(kind, sec, ms, rpe, cb, buf);
      var n := Write(buf);
      if n != SZ { return FAIL; }
      return SUCC;
    }

    /** A repeat count is a C int: a negative one turns into a large unsigned one. */
    method TimerSet(sec: u16, ms: u16, repeats: int, cb: u64) returns (ret: Ret)
      modifies this
      ensures if up then ret == SUCC && sent == old(sent) + Encode(Set(sec, ms, repeats % 0x1_0000_0000, cb))
              else ret == FAIL && sent == old(sent)
    {
      var rpe: u32 := repeats % 0x1_0000_0000;
      SmallIsUnchanged(sec);
      SmallIsUnchanged(ms);
      ret := Send(1, sec, ms, rpe, cb);
      assert 1 % 256 == 1;
    }

    method TimerCancel(cb: u64) returns (ret: Ret)
      modifies this
      ensures if up then ret == SUCC && sent == old(sent) + Encode(Cancel(cb)) else ret == FAIL && sent == old(sent)
    {
      CancelMessage(cb);
      ret := Send(2, 0, 0, 0, cb);
    }

    method TimerDestroy()
      modifies this
      ensures sent == if up then old(sent) + Encode(Destroy) else old(sent)
    {
      var ret := Send(3, 0, 0, 0, 0);
    }
  }
}
