/** The generation-2 protocol engine: a device handle that keeps the
    fingerprint of the last downloaded dive and talks to the dive computer
    through a backend's packet exchange, with bounded retries, chunked
    memory reads and writes, a full memory dump and the backward
    enumeration of the dives in the profile ring. */
module Common2 {
  import opened Bytes
  import opened Frames
  import opened ProfileRing
  import opened Backend
  import opened Profile

  /** The fingerprint after initialisation, and after it is cleared. */
  const NoFingerprint: seq<byte> := [0, 0, 0, 0]

  /** device_progress_t: bytes transferred so far out of an expected maximum. */
  class Progress {
    var current: nat
    var maximum: nat

    constructor(maximum: nat)
      ensures current == 0 && this.maximum == maximum
    {
      current := 0;
      this.maximum := maximum;
    }
  }

  /** The `unsigned int` a caller passes by pointer to receive a result. */
  class Cell {
    var value: nat

    constructor()
      ensures value == 0
    {
      value := 0;
    }
  }

  /** `s` with `bytes` written over it from index `at`. */
  function Splice(s: seq<byte>, at: nat, bytes: seq<byte>): (r: seq<byte>)
    requires at + |bytes| <= |s|
    ensures |r| == |s|
  {
    s[..at] + bytes + s[at + |bytes|..]
  }

  /** The array holds exactly the bytes `contents`. Stated element by
      element, so that reasoning about `contents` stays on sequence values. */
  ghost predicate Holds(data: array<byte>, contents: seq<byte>)
    reads data
  {
    |contents| == data.Length && forall i | 0 <= i < data.Length :: data[i] == contents[i]
  }

  /** `memcpy(data + at, bytes, |bytes|)`. */
  method CopyInto(data: array<byte>, at: nat, bytes: seq<byte>, ghost before: seq<byte>)
    requires at + |bytes| <= data.Length && Holds(data, before)
    modifies data
    ensures Holds(data, Splice(before, at, bytes))
  {
    forall i | 0 <= i < |bytes| {
      data[at + i] := bytes[i];
    }
  }

  /** `buf` is `buf0` with the first `n` bytes of `whole` placed from
      `start` on, and nothing else changed. */
  ghost predicate Filled(buf: seq<byte>, buf0: seq<byte>, start: nat, whole: seq<byte>, n: nat)
  {
    && |buf| == |buf0| && n <= |whole| && start + |whole| <= |buf|
    && buf[start..start + n] == whole[..n]
    && buf[..start] == buf0[..start] && buf[start + n..] == buf0[start + n..]
  }

  /** Copying the next `len` bytes of `whole` extends the filled part. */
  lemma FilledNext(buf: seq<byte>, buf0: seq<byte>, start: nat, whole: seq<byte>, n: nat, len: nat)
    requires Filled(buf, buf0, start, whole, n) && n + len <= |whole|
    ensures Filled(Splice(buf, start + n, whole[n..n + len]), buf0, start, whole, n + len)
  {
    var bytes := whole[n..n + len];
    var after := Splice(buf, start + n, bytes);
    assert after[..start + n] == buf[..start + n];
    assert after[start + n..start + n + len] == bytes;
    assert after[start..start + n + len] == after[..start + n][start..] + after[start + n..start + n + len];
    assert whole[..n + len] == whole[..n] + bytes;
    assert after[..start] == after[..start + n][..start];
    assert after[start + n + len..] == buf[start + n + len..];
    assert buf[start + n + len..] == buf[start + n..][len..];
    assert buf0[start + n + len..] == buf0[start + n..][len..];
  }

  /** Past the window of `whole`, a filled buffer is still the original. */
  lemma FilledBeyond(buf: seq<byte>, buf0: seq<byte>, start: nat, whole: seq<byte>, n: nat)
    requires Filled(buf, buf0, start, whole, n)
    ensures buf[start + |whole|..] == buf0[start + |whole|..]
  {
    assert buf[start + |whole|..] == buf[start + n..][|whole| - n..];
    assert buf0[start + |whole|..] == buf0[start + n..][|whole| - n..];
  }

  /** Packet k of a read, once answered from `mem`, extends both the frames
      sent and the bytes filled in by one chunk. */
  lemma ReadNext(mem: seq<byte>, address: nat, size: nat, k: nat, buf: seq<byte>, buf0: seq<byte>, start: nat)
    requires Covered(size, k) < size
    requires Filled(buf, buf0, start, ReadImage(mem, address, size), Covered(size, k))
    ensures var lo := Covered(size, k); var len := ChunkLength(size - lo); var plan := ReadFrames(address, size);
      && k < |plan| && Covered(size, k + 1) == lo + len
      && plan[..k + 1] == plan[..k] + [ReadCommand(address + lo, len)]
      && Filled(Splice(buf, start + lo, Fetch(mem, (address + lo) % 0x1_0000, len)),
                buf0, start, ReadImage(mem, address, size), lo + len)
  {
    var lo := Covered(size, k);
    var len := ChunkLength(size - lo);
    var whole := ReadImage(mem, address, size);
    CoveredNext(size, k);
    ReadImageAt(mem, address, size, k);
    ReadFramesNext(address, size, k);
    var plan := ReadFrames(address, size);
    assert plan[..k + 1] == plan[..k] + [plan[k]];
    FilledNext(buf, buf0, start, whole, lo, len);
  }

  /** A packet of the backward ring read lands where the enumeration buffer
      expects it: if the buffer holds the unrolled profile data from `fill`
      on, and the `len + extra` memory bytes below `address` (the ring
      position `fill`) are copied to just below index SZ_MINIMUM + fill, the
      buffer holds the unrolled data from `fill - len` on. The `extra`
      padding bytes below are not claimed. */
  lemma ChunkLands(mem: seq<byte>, u: seq<byte>, begin: nat, total: nat, fill: nat, address: nat,
                   len: nat, extra: nat, buf: seq<byte>)
    requires |mem| == SZ_MEMORY && InRing(begin) && |u| == SIZE && Unrolls(u, mem, begin, total)
    requires fill <= total && AddressOf(begin, fill, address) && len <= address - BEGIN && len <= fill
    requires len + extra <= address && len + extra <= SZ_MINIMUM + fill
    requires |buf| == SZ_MINIMUM + SIZE
    requires buf[SZ_MINIMUM + fill - (len + extra)..SZ_MINIMUM + fill] == mem[address - (len + extra)..address]
    requires buf[SZ_MINIMUM + fill..] == u[fill..]
    ensures buf[SZ_MINIMUM + fill - len..] == u[fill - len..]
  {
    var lo := SZ_MINIMUM + fill - (len + extra);
    forall t | fill - len <= t < SIZE
      ensures buf[SZ_MINIMUM + t] == u[t]
    {
      if t < fill {
        assert buf[SZ_MINIMUM + t] == buf[lo..SZ_MINIMUM + fill][SZ_MINIMUM + t - lo];
        PosBelow(begin, fill, address, fill - t);
      } else {
        assert buf[SZ_MINIMUM + t] == buf[SZ_MINIMUM + fill..][t - fill];
      }
    }
  }

  /** The length of the packet the ring walk reads below `address` when
      `nbytes` of the `remaining` profile bytes are held. */
  function PacketLength(address: nat, nbytes: nat, remaining: nat): nat
    requires BEGIN <= address && nbytes <= remaining
  {
    var len := if BEGIN + SZ_PACKET > address then address - BEGIN else SZ_PACKET;
    if nbytes + len > remaining then remaining - nbytes else len
  }

  /** A packet is as long as a packet may be, the profile area still is
      below `address` and the profile data still needs, whichever is
      least. */
  lemma PacketLengthIsLeast(address: nat, nbytes: nat, remaining: nat)
    requires BEGIN <= address && nbytes <= remaining
    ensures var len := PacketLength(address, nbytes, remaining);
      && len <= SZ_PACKET && BEGIN + len <= address && nbytes + len <= remaining
      && (len == SZ_PACKET || BEGIN + len == address || nbytes + len == remaining)
  {
  }

  /** The padding that widens a packet of `len` bytes to SZ_MINIMUM. */
  function Padding(len: nat): nat
  {
    if len < SZ_MINIMUM then SZ_MINIMUM - len else 0
  }

  /** A padded packet is exactly SZ_MINIMUM bytes when the packet is
      shorter, and unpadded otherwise. */
  lemma PaddingWidens(len: nat)
    ensures Padding(len) <= SZ_MINIMUM
    ensures len + Padding(len) == (if len < SZ_MINIMUM then SZ_MINIMUM else len)
  {
  }

  /** Where the ring walk reads next after a packet of `len` bytes below
      `address`: `len` bytes further down, or the end of the ring once its
      beginning is reached. */
  function StepAddress(address: nat, len: nat): (next: nat)
    requires len <= address <= END
    ensures BEGIN < next <= END
  {
    if address - len <= BEGIN then END else address - len
  }

  /** A packet of the ring walk: the `len` bytes of profile data below
      `address`, read together with `extra` bytes of padding below them,
      when `held` bytes of the dive are already in the buffer. */
  datatype Packet = Packet(address: nat, held: nat, len: nat, extra: nat)

  /** A packet as the ring walk reads it: at most SZ_PACKET bytes of profile
      data, none of them below BEGIN, padded to SZ_MINIMUM bytes. */
  predicate InProfile(p: Packet)
  {
    p.len <= SZ_PACKET && BEGIN + p.len <= p.address <= END && p.extra == Padding(p.len)
  }

  /** The read command of a packet: its `len + extra` bytes below its
      address. */
  function PacketCommand(p: Packet): seq<byte>
    requires InProfile(p)
  {
    ReadCommand(p.address - (p.len + p.extra), p.len + p.extra)
  }

  /** The read commands of a sequence of packets, in order. */
  function Commands(ps: seq<Packet>): (cmds: seq<seq<byte>>)
    requires forall i | 0 <= i < |ps| :: InProfile(ps[i])
    ensures |cmds| == |ps|
  {
    if ps == [] then [] else [PacketCommand(ps[0])] + Commands(ps[1..])
  }

  /** Command k is the read command of packet k. */
  lemma {:induction false} CommandsAt(ps: seq<Packet>, k: nat)
    requires forall i | 0 <= i < |ps| :: InProfile(ps[i])
    requires k < |ps|
    ensures Commands(ps)[k] == PacketCommand(ps[k])
    decreases k
  {
    if k > 0 {
      CommandsAt(ps[1..], k - 1);
    }
  }

  /** The bytes of profile data a sequence of packets brings in. */
  function Lengths(ps: seq<Packet>): nat
  {
    if ps == [] then 0 else ps[0].len + Lengths(ps[1..])
  }

  /** The packets the inner loop of suunto_common2_device_foreach reads to
      bring in the `size` bytes of a dive, when `nbytes` of the `remaining`
      profile bytes are already held and the next packet ends at
      `address`. Every packet lies in the profile area but for its padding;
      there are none when the dive is already held, and otherwise they bring
      in at least what the dive lacks and less than a packet more, never
      past the end of the profile data. */
  function FillPackets(address: nat, nbytes: nat, remaining: nat, size: nat): (ps: seq<Packet>)
    requires BEGIN <= address <= END && nbytes <= remaining && size <= remaining
    ensures forall i | 0 <= i < |ps| :: InProfile(ps[i])
    ensures ps == [] <==> size <= nbytes
    ensures nbytes < size ==> size <= nbytes + Lengths(ps) < size + SZ_PACKET
    ensures nbytes + Lengths(ps) <= remaining
    decreases size - nbytes, if address == BEGIN then 1 else 0
  {
    if size <= nbytes then []
    else
      var len := PacketLength(address, nbytes, remaining);
      var p := Packet(address, nbytes, len, Padding(len));
      var rest := FillPackets(StepAddress(address, len), nbytes + len, remaining, size);
      assert ([p] + rest)[1..] == rest;
      [p] + rest
  }

  /** The read commands the inner loop of suunto_common2_device_foreach
      sends to bring in a dive. */
  function FillCommands(address: nat, nbytes: nat, remaining: nat, size: nat): seq<seq<byte>>
    requires BEGIN <= address <= END && nbytes <= remaining && size <= remaining
  {
    Commands(FillPackets(address, nbytes, remaining, size))
  }

  /** The bytes the buffer holds when the inner loop has brought in a dive. */
  function FillHeld(address: nat, nbytes: nat, remaining: nat, size: nat): nat
    requires BEGIN <= address <= END && nbytes <= remaining && size <= remaining
  {
    nbytes + Lengths(FillPackets(address, nbytes, remaining, size))
  }

  /** Packet k of the walk over a dive is the one the loop computes from
      where packet k - 1 left it: the first ends at `address` with `nbytes`
      held, each next one ends where the one before stepped back to and
      holds what it brought in, and the last is the first to complete the
      dive, leaving all the packets' bytes held. */
  lemma {:induction false} FillPacketsAt(address: nat, nbytes: nat, remaining: nat, size: nat, k: nat)
    requires BEGIN <= address <= END && nbytes <= remaining && size <= remaining
    requires k < |FillPackets(address, nbytes, remaining, size)|
    ensures var ps := FillPackets(address, nbytes, remaining, size);
      var p := ps[k];
      && BEGIN <= p.address <= END && p.held < size
      && p.len == PacketLength(p.address, p.held, remaining) && p.extra == Padding(p.len)
      && (k == 0 ==> p.address == address && p.held == nbytes)
      && (k + 1 < |ps| <==> p.held + p.len < size)
      && (k + 1 < |ps| ==> ps[k + 1].address == StepAddress(p.address, p.len) && ps[k + 1].held == p.held + p.len)
      && (k + 1 == |ps| ==> p.held + p.len == nbytes + Lengths(ps))
    decreases size - nbytes, if address == BEGIN then 1 else 0
  {
    var ps := FillPackets(address, nbytes, remaining, size);
    var len := PacketLength(address, nbytes, remaining);
    var next := StepAddress(address, len);
    var rest := FillPackets(next, nbytes + len, remaining, size);
    assert ps == [Packet(address, nbytes, len, Padding(len))] + rest;
    assert ps[1..] == rest;
    if k == 0 {
      if rest != [] {
        FillPacketsAt(next, nbytes + len, remaining, size, 0);
      }
    } else {
      FillPacketsAt(next, nbytes + len, remaining, size, k - 1);
    }
  }

  /** Packet k of `ps` lies in the profile area, is taken when fewer than
      `size` bytes are held, is as long as the loop makes it, and is
      followed, exactly while the dive is still incomplete, by the packet
      the loop computes from it. */
  predicate Linked(ps: seq<Packet>, remaining: nat, size: nat, k: nat)
    requires k < |ps|
  {
    var p := ps[k];
    && InProfile(p) && p.held < size && p.held <= remaining
    && p.len == PacketLength(p.address, p.held, remaining)
    && (k + 1 < |ps| <==> p.held + p.len < size)
    && (k + 1 < |ps| ==> ps[k + 1].address == StepAddress(p.address, p.len) && ps[k + 1].held == p.held + p.len)
  }

  /** `ps` is the walk over a dive that starts at `address` with `nbytes`
      held: each packet linked to the next, none when the dive is held. */
  predicate IsPlan(ps: seq<Packet>, address: nat, nbytes: nat, remaining: nat, size: nat)
  {
    && (forall i | 0 <= i < |ps| :: InProfile(ps[i]))
    && (ps == [] <==> size <= nbytes)
    && (ps != [] ==> ps[0].address == address && ps[0].held == nbytes)
    && (forall k | 0 <= k < |ps| :: Linked(ps, remaining, size, k))
  }

  /** FillPackets is such a walk. */
  lemma FillPacketsIsPlan(address: nat, nbytes: nat, remaining: nat, size: nat)
    requires BEGIN <= address <= END && nbytes <= remaining && size <= remaining
    ensures IsPlan(FillPackets(address, nbytes, remaining, size), address, nbytes, remaining, size)
  {
    var ps := FillPackets(address, nbytes, remaining, size);
    forall k | 0 <= k < |ps|
      ensures Linked(ps, remaining, size, k)
    {
      FillPacketsAt(address, nbytes, remaining, size, k);
    }
    if ps != [] {
      FillPacketsAt(address, nbytes, remaining, size, 0);
    }
  }

  /** ... and the only one: the walk is determined by where it starts. */
  lemma {:induction false} PlanIsFillPackets(ps: seq<Packet>, address: nat, nbytes: nat, remaining: nat, size: nat)
    requires BEGIN <= address <= END && nbytes <= remaining && size <= remaining
    requires IsPlan(ps, address, nbytes, remaining, size)
    ensures ps == FillPackets(address, nbytes, remaining, size)
    decreases |ps|
  {
    if ps != [] {
      assert Linked(ps, remaining, size, 0);
      var len := PacketLength(address, nbytes, remaining);
      var rest := ps[1..];
      forall k | 0 <= k < |rest|
        ensures Linked(rest, remaining, size, k)
      {
        assert Linked(ps, remaining, size, k + 1);
      }
      assert IsPlan(rest, StepAddress(address, len), nbytes + len, remaining, size);
      PlanIsFillPackets(rest, StepAddress(address, len), nbytes + len, remaining, size);
      assert ps == [ps[0]] + rest;
    }
  }

  /** A walk, found by its defining properties rather than computed. */
  lemma PlanOf(address: nat, nbytes: nat, remaining: nat, size: nat) returns (ps: seq<Packet>)
    requires BEGIN <= address <= END && nbytes <= remaining && size <= remaining
    ensures IsPlan(ps, address, nbytes, remaining, size)
  {
    ps := FillPackets(address, nbytes, remaining, size);
    FillPacketsIsPlan(address, nbytes, remaining, size);
  }

  /** A log that went through a whole walk went through the packets of
      FillPackets, and brought in what they bring in. */
  lemma PlanDone(ps: seq<Packet>, address: nat, nbytes: nat, remaining: nat, size: nat,
                 log0: seq<seq<byte>>, log: seq<seq<byte>>, held: nat)
    requires BEGIN <= address <= END && nbytes <= remaining && size <= remaining
    requires IsPlan(ps, address, nbytes, remaining, size)
    requires log == log0 + Commands(ps)[..|ps|] && held == nbytes + Lengths(ps)
    ensures log == log0 + FillCommands(address, nbytes, remaining, size)
    ensures held == FillHeld(address, nbytes, remaining, size)
  {
    PlanIsFillPackets(ps, address, nbytes, remaining, size);
    assert Commands(ps)[..|ps|] == Commands(ps);
  }

  /** A log that stopped before packet k of a walk went through fewer than
      all the packets of FillPackets. */
  lemma PlanCut(ps: seq<Packet>, address: nat, nbytes: nat, remaining: nat, size: nat,
                log0: seq<seq<byte>>, log: seq<seq<byte>>, k: nat)
    requires BEGIN <= address <= END && nbytes <= remaining && size <= remaining
    requires IsPlan(ps, address, nbytes, remaining, size) && k < |ps|
    requires log == log0 + Commands(ps)[..k]
    ensures log0 <= log && log[|log0|..] < FillCommands(address, nbytes, remaining, size)
  {
    PlanIsFillPackets(ps, address, nbytes, remaining, size);
    assert log[|log0|..] == Commands(ps)[..k];
  }

  /** The last packet of a walk leaves held what the walk started with and
      all that its packets brought in. */
  lemma PlanLast(ps: seq<Packet>, address: nat, nbytes: nat, remaining: nat, size: nat)
    requires BEGIN <= address <= END && nbytes <= remaining && size <= remaining
    requires IsPlan(ps, address, nbytes, remaining, size) && ps != []
    ensures ps[|ps| - 1].held + ps[|ps| - 1].len == nbytes + Lengths(ps)
  {
    PlanIsFillPackets(ps, address, nbytes, remaining, size);
    FillPacketsAt(address, nbytes, remaining, size, |ps| - 1);
  }

  /** The packet the inner loop reads where the walk `ps` is at packet
      `k` is packet k; it moves the walk to its next packet, or to its end
      once the dive is held. */
  lemma PlanMove(ps: seq<Packet>, first: nat, held: nat, remaining: nat, size: nat,
                 k: nat, nbytes: nat, address: nat, len: nat, extra: nat)
    requires BEGIN <= first <= END && held <= remaining && size <= remaining
    requires IsPlan(ps, first, held, remaining, size) && k < |ps| && ps[k].address == address && ps[k].held == nbytes
    requires BEGIN <= address && nbytes <= remaining
    requires len == PacketLength(address, nbytes, remaining) && extra == Padding(len)
    ensures ps[k] == Packet(address, nbytes, len, extra)
    ensures k + 1 < |ps| <==> nbytes + len < size
    ensures k + 1 < |ps| ==> ps[k + 1].address == StepAddress(address, len) && ps[k + 1].held == nbytes + len
    ensures k + 1 == |ps| ==> nbytes + len == held + Lengths(ps)
  {
    assert Linked(ps, remaining, size, k);
    if k + 1 == |ps| {
      PlanLast(ps, first, held, remaining, size);
    }
  }

  /** Reading packet k after the read commands of the packets before it
      gives the read commands of the first k + 1. */
  lemma PlanLog(ps: seq<Packet>, log0: seq<seq<byte>>, log: seq<seq<byte>>, k: nat,
                address: nat, nbytes: nat, len: nat, extra: nat)
    requires forall i | 0 <= i < |ps| :: InProfile(ps[i])
    requires k < |ps| && ps[k] == Packet(address, nbytes, len, extra)
    requires log == log0 + Commands(ps)[..k]
    ensures log + [PacketCommand(Packet(address, nbytes, len, extra))] == log0 + Commands(ps)[..k + 1]
  {
    CommandsAt(ps, k);
    AppendTake(log0, log, Commands(ps), k, PacketCommand(Packet(address, nbytes, len, extra)));
  }

  /** A packet read in the ring walk leaves `len` more bytes of the unrolled
      ring in place below those already held. */
  lemma PacketLands(mem: seq<byte>, u: seq<byte>, begin: nat, total: nat, remaining: nat, nbytes: nat,
                    address: nat, len: nat, extra: nat, buf: seq<byte>)
    requires |mem| == SZ_MEMORY && InRing(begin) && total < SIZE && |u| == SIZE && Unrolls(u, mem, begin, total)
    requires nbytes < remaining <= total && AddressOf(begin, remaining - nbytes, address)
    requires len <= address - BEGIN && nbytes + len <= remaining && extra <= SZ_MINIMUM
    requires len < SZ_MINIMUM ==> len + extra == SZ_MINIMUM
    requires |buf| == SZ_MINIMUM + SIZE
    requires var at := SZ_MINIMUM + remaining - nbytes - (len + extra);
      buf[at..at + (len + extra)] == ReadImage(mem, address - (len + extra), len + extra)
    requires buf[SZ_MINIMUM + remaining - nbytes..] == u[remaining - nbytes..]
    ensures buf[SZ_MINIMUM + remaining - (nbytes + len)..] == u[remaining - (nbytes + len)..]
  {
    ReadImageInRange(mem, address - (len + extra), len + extra);
    ChunkLands(mem, u, begin, total, remaining - nbytes, address, len, extra, buf);
  }

  /** Stepping the address back by a packet's `len` bytes, and to the end
      of the ring at its beginning, gives the ring position of the profile
      data `len` bytes further down. */
  lemma StepBack(begin: nat, total: nat, remaining: nat, nbytes: nat, address: nat, len: nat)
    requires InRing(begin) && total < SIZE
    requires nbytes < remaining <= total && AddressOf(begin, remaining - nbytes, address)
    requires len <= address - BEGIN && nbytes + len <= remaining
    ensures AddressOf(begin, remaining - (nbytes + len), if address - len <= BEGIN then END else address - len)
  {
    if len > 0 {
      PosBelow(begin, remaining - nbytes, address, len);
    }
    if address - len == BEGIN {
      WrapAddress(begin, remaining - (nbytes + len));
    }
  }

  lemma PrefixOfAppend<T>(a: seq<T>, b: seq<T>)
    ensures a <= a + b
  {
  }

  /** A log that holds the first k elements of `s` after `log0`, extended
      by element k, holds the first k + 1. */
  lemma AppendTake<T>(log0: seq<T>, log: seq<T>, s: seq<T>, k: nat, x: T)
    requires k < |s| && log == log0 + s[..k] && s[k] == x
    ensures log + [x] == log0 + s[..k + 1]
  {
    assert s[..k + 1] == s[..k] + [x];
  }

  lemma AppendAssoc<T>(a: seq<T>, b: seq<T>, c: seq<T>)
    ensures a + b + c == a + (b + c)
  {
  }

  /** A stretch of a buffer that holds the unrolled data from `fill` on. */
  lemma HeldAt(buf: seq<byte>, u: seq<byte>, fill: nat, r: nat, n: nat)
    requires |buf| == SZ_MINIMUM + |u| && fill <= r && r + n <= |u|
    requires buf[SZ_MINIMUM + fill..] == u[fill..]
    ensures buf[SZ_MINIMUM + r..SZ_MINIMUM + r + n] == u[r..r + n]
    ensures forall i | r <= i < r + n :: buf[SZ_MINIMUM + i] == u[i]
  {
    forall i | r <= i < r + n
      ensures buf[SZ_MINIMUM + i] == u[i]
    {
      assert buf[SZ_MINIMUM + i] == buf[SZ_MINIMUM + fill..][i - fill];
    }
  }

  /** When the buffer holds the unrolled data from `remaining - nbytes` on,
      with `nbytes` at least the `size` of the dive that ends at `current`,
      it holds that dive whole at `offset`: its next pointer is `current`,
      and its previous pointer, payload and fingerprint window, read from
      the buffer, are those of the newest dive of the chain, whose rest
      starts at that previous pointer. */
  lemma DiveInBuffer(u: seq<byte>, buf: seq<byte>, begin: nat, count: nat, current: nat, previous: nat,
                     remaining: nat, ndives: nat, nbytes: nat, size: nat, r: nat, offset: nat,
                     oprevious: nat, dive: seq<byte>, window: seq<byte>)
    requires |u| == SIZE && InRing(begin) && remaining < SIZE && current == Pos(begin, remaining) && current != begin
    requires ChainOk(u, begin, count, current, previous, remaining, ndives)
    requires |buf| == SZ_MINIMUM + SIZE && nbytes <= remaining
    requires size == Distance(previous, current) && size <= nbytes
    requires buf[SZ_MINIMUM + remaining - nbytes..] == u[remaining - nbytes..]
    requires r + size == remaining && offset == SZ_MINIMUM + r && offset + FP_OFFSET + FP_SIZE <= |buf|
    requires 4 <= size && oprevious == Uint16Le(buf[offset..offset + 2])
    requires dive == buf[offset + 4..offset + size]
    requires window == buf[offset + FP_OFFSET..offset + FP_OFFSET + FP_SIZE]
    ensures previous == Pos(begin, r)
    ensures Uint16Le(buf[offset + 2..offset + 4]) == current
    ensures ChainOk(u, begin, count, previous, oprevious, r, ndives + 1)
    ensures Walk(u, begin, count, current, previous, remaining, ndives)
      == [Dive(previous, size, dive, window)] + Walk(u, begin, count, previous, oprevious, r, ndives + 1)
  {
    PosPrevious(begin, remaining, current, previous);
    HeldAt(buf, u, remaining - nbytes, r, 4);
    HeldAt(buf, u, remaining - nbytes, r + 4, size - 4);
    HeldAt(buf, u, remaining - nbytes, r + FP_OFFSET, FP_SIZE);
    assert oprevious == Uint16Le(u[r..]) by {
      assert buf[offset..offset + 2] == u[r..r + 2];
    }
    assert Uint16Le(buf[offset + 2..offset + 4]) == Uint16Le(u[r + 2..]) by {
      assert buf[offset + 2..offset + 4] == u[r + 2..r + 4];
    }
    assert dive == u[r + 4..remaining];
    assert window == u[r + FP_OFFSET..r + FP_OFFSET + FP_SIZE];
  }

  /** A dive callback together with its user data: `accept` says, from all
      the dives handed over so far, whether the enumeration may go on. */
  class DiveSink {
    const accept: seq<seq<byte>> -> bool
    var received: seq<seq<byte>>

    constructor(accept: seq<seq<byte>> -> bool)
      ensures this.accept == accept && received == []
    {
      this.accept := accept;
      received := [];
    }

    method Deliver(dive: seq<byte>) returns (more: bool)
      modifies this
      ensures received == old(received) + [dive]
      ensures more == accept(received)
    {
      received := received + [dive];
      more := accept(received);
    }
  }

  /** Packet k of a write, once answered, leaves the image written up to
      one more chunk, and it is the next frame of the write's plan. */
  lemma WriteLands(mem: seq<byte>, address: nat, data: seq<byte>, k: nat, nbytes: nat, addr: nat, len: nat,
                   written: seq<byte>, memory: seq<byte>, command: seq<byte>)
    requires nbytes == Covered(|data|, k) < |data| && k < |WriteFrames(address, data)|
    requires addr == address + nbytes && len == ChunkLength(|data| - nbytes)
    requires written == WriteImage(mem, address, data[..nbytes])
    requires command == WriteCommand(addr, data[nbytes..nbytes + len])
    requires memory == Effect(written, command)
    ensures Covered(|data|, k + 1) == nbytes + len
    ensures WriteFrames(address, data)[..k + 1] == WriteFrames(address, data)[..k] + [command]
    ensures memory == WriteImage(mem, address, data[..nbytes + len])
  {
    var payload := data[nbytes..nbytes + len];
    WriteEffect(written, addr, payload);
    assert memory == Store(written, addr % 0x1_0000, payload);
    CoveredCount(|data|, k);
    WriteImageExtend(mem, address, data, k, nbytes, len);
    assert (address + nbytes) % 0x1_0000 == addr % 0x1_0000;
    WriteNext(address, data, k, nbytes, len, addr);
    CoveredNext(|data|, k);
  }

  /** suunto_common2_device_t */
  class Device {
    var fingerprint: seq<byte>
    const transport: Transport

    ghost predicate Valid()
      reads this, transport
    {
      transport.Valid() && |fingerprint| == FP_SIZE
    }

    /** What one transfer did to the transport: with no packet function it
        returns UNSUPPORTED untried; otherwise it tries the packets the retry
        policy prescribes for the script from the next exchange on and
        returns the policy's status. */
    twostate predicate Transferred(rc: Status)
      reads transport
    {
      if transport.hasPacket then
        var o := Retry(transport.script, old(transport.attempts), 0);
        && rc == o.status
        && transport.attempts == old(transport.attempts) + o.attempts
      else
        && rc == Unsupported
        && transport.attempts == old(transport.attempts)
    }

    /** What an operation did to the transport: the commands answered were
        only added to, one per transfer that went through, and the packets
        tried are exactly those of that run of transfers under the retry
        policy, followed, when the operation fails, by the transfer that
        failed, whose status it returns (Backend.Ran). */
    twostate predicate Exchanged(rc: Status)
      reads transport
    {
      Ran(transport.hasPacket, transport.script, old(transport.attempts), transport.attempts,
          old(transport.answered), transport.answered, rc)
    }

    /** suunto_common2_device_init: the fingerprint starts out all zero. */
    constructor(transport: Transport)
      requires transport.Valid()
      ensures Valid() && this.transport == transport
      ensures fingerprint == NoFingerprint
    {
      this.transport := transport;
      fingerprint := NoFingerprint;
    }

    /** suunto_common2_transfer: one command/answer exchange, retried while
        the answer times out or arrives corrupted, at most MAXRETRIES times. */
    method Transfer(command: seq<byte>, asize: nat, size: nat) returns (rc: Status, answer: seq<byte>)
      requires Valid() && asize >= size + 4
      modifies transport
      ensures Valid() && Transferred(rc) && Exchanged(rc)
      ensures |answer| == asize
      ensures rc == Success ==>
        && answer == Answer(old(transport.memory), transport.version, command, asize)
        && transport.memory == Effect(old(transport.memory), command)
        && transport.answered == old(transport.answered) + [command]
      ensures rc != Success ==>
        transport.memory == old(transport.memory) && transport.answered == old(transport.answered)
      ensures old(transport.Clean()) && transport.hasPacket ==> rc == Success && transport.Clean()
    {
      if !transport.hasPacket {
        return Unsupported, seq(asize, _ => 0);
      }
      ghost var a0 := transport.attempts;
      var nretries := 0;
      rc, answer := transport.Packet(command, asize, size);
      while rc != Success
        invariant Valid() && transport.hasPacket && |answer| == asize
        invariant nretries <= MAXRETRIES
        invariant transport.attempts == a0 + nretries + 1
        invariant rc == Nth(transport.script, a0 + nretries)
        invariant forall j | a0 <= j < a0 + nretries :: Transient(Nth(transport.script, j))
        invariant rc == Success ==>
          && answer == Answer(old(transport.memory), transport.version, command, asize)
          && transport.memory == Effect(old(transport.memory), command)
          && transport.answered == old(transport.answered) + [command]
        invariant rc != Success ==>
          transport.memory == old(transport.memory) && transport.answered == old(transport.answered)
        decreases MAXRETRIES - nretries
      {
        if rc != Timeout && rc != Protocol {
          RetryAfter(transport.script, a0, nretries, 0);
          TransfersOne(transport.script, a0);
          return;
        }
        if nretries >= MAXRETRIES {
          RetryAfter(transport.script, a0, nretries, 0);
          TransfersOne(transport.script, a0);
          return;
        }
        nretries := nretries + 1;
        rc, answer := transport.Packet(command, asize, size);
      }
      RetryAfter(transport.script, a0, nretries, 0);
      TransfersOne(transport.script, a0);
    }

    /** suunto_common2_device_set_fingerprint: an empty fingerprint clears
        it, one of FP_SIZE bytes replaces it, any other length is refused. */
    method SetFingerprint(data: seq<byte>) returns (rc: Status)
      requires Valid()
      modifies this
      ensures Valid()
      ensures |data| != 0 && |data| != FP_SIZE ==> rc == Error && fingerprint == old(fingerprint)
      ensures |data| == FP_SIZE ==> rc == Success && fingerprint == data
      ensures |data| == 0 ==> rc == Success && fingerprint == NoFingerprint
    {
      if |data| != 0 && |data| != FP_SIZE {
        return Error;
      }
      if |data| != 0 {
        fingerprint := data;
      } else {
        fingerprint := NoFingerprint;
      }
      return Success;
    }

    /** suunto_common2_device_version: the four version bytes, which the
        answer carries from offset 3. */
    method Version(data: array<byte>) returns (rc: Status)
      requires Valid()
      modifies transport, data
      ensures Valid() && transport.memory == old(transport.memory)
      ensures rc == Success ==> transport.answered == old(transport.answered) + [VersionCommand]
      ensures rc != Success ==> transport.answered == old(transport.answered)
      ensures data.Length < SZ_VERSION ==>
        rc == Memory && transport.attempts == old(transport.attempts)
      ensures data.Length >= SZ_VERSION ==> Transferred(rc) && Exchanged(rc)
      ensures rc == Success ==> data[..SZ_VERSION] == transport.version && data[SZ_VERSION..] == old(data[SZ_VERSION..])
      ensures rc != Success ==> data[..] == old(data[..])
      ensures old(transport.Clean()) && transport.hasPacket && data.Length >= SZ_VERSION ==>
        rc == Success && transport.Clean()
    {
      if data.Length < SZ_VERSION {
        return Memory;
      }
      var answer;
      rc, answer := Transfer(VersionCommand, SZ_VERSION + 4, 4);
      if rc != Success {
        return;
      }
      VersionAnswer(old(transport.memory), transport.version);
      forall i | 0 <= i < SZ_VERSION {
        data[i] := answer[3 + i];
      }
    }

    /** suunto_common2_device_reset_maxdepth: one fixed exchange without
        payload. */
    method ResetMaxDepth() returns (rc: Status)
      requires Valid()
      modifies transport
      ensures Valid() && Transferred(rc) && Exchanged(rc)
      ensures transport.memory == old(transport.memory)
      ensures rc == Success ==> transport.answered == old(transport.answered) + [ResetMaxDepthCommand]
      ensures rc != Success ==> transport.answered == old(transport.answered)
    {
      var answer;
      rc, answer := Transfer(ResetMaxDepthCommand, 4, 0);
    }

    /** One pass of the read loop: fetch `len` bytes at `address` with one
        read command, copy them to data[at..at + len] and advance the
        progress; on failure nothing but the transport changes. */
    method ReadPacket(address: nat, len: nat, data: array<byte>, at: nat, progress: Progress?, ghost before: seq<byte>)
      returns (rc: Status)
      requires Valid() && len <= SZ_PACKET && at + len <= data.Length
      requires Holds(data, before)
      modifies transport, data, progress
      ensures Valid() && transport.memory == old(transport.memory)
      ensures rc == Success ==>
        && transport.answered == old(transport.answered) + [ReadCommand(address, len)]
        && Holds(data, Splice(before, at, Fetch(old(transport.memory), address % 0x1_0000, len)))
      ensures rc != Success ==> transport.answered == old(transport.answered) && Holds(data, before)
      ensures progress != null ==>
        progress.current == old(progress.current) + (if rc == Success then len else 0)
        && progress.maximum == old(progress.maximum)
      ensures old(transport.Clean()) && transport.hasPacket ==> rc == Success && transport.Clean()
      ensures Transferred(rc)
      ensures Exchanged(rc)
    {
      var command := ReadCommand(address, len);
      var answer;
      rc, answer := Transfer(command, len + 7, len);
      if rc != Success {
        return;
      }
      ReadAnswer(old(transport.memory), transport.version, address, len);
      CopyInto(data, at, answer[6..6 + len], before);
      if progress != null {
        progress.current := progress.current + len;
      }
    }

    /** The read loop's invariant advanced by one packet: packet k of the
        plan for `size` bytes from `address` either fails, changing neither
        the frames answered, the buffer nor the progress, or it extends all
        three by chunk k. */
    method ReadStep(address: nat, size: nat, data: array<byte>, start: nat, progress: Progress?, ghost k: nat,
                    nbytes: nat, addr: nat, len: nat, ghost buf: seq<byte>, ghost buf0: seq<byte>,
                    ghost answered0: seq<seq<byte>>, ghost current0: nat)
      returns (rc: Status, ghost buf': seq<byte>)
      requires Valid() && start + size <= data.Length
      requires nbytes == Covered(size, k) < size && k < |ReadFrames(address, size)|
      requires addr == address + nbytes && len == ChunkLength(size - nbytes)
      requires Holds(data, buf) && Filled(buf, buf0, start, ReadImage(transport.memory, address, size), Covered(size, k))
      requires transport.answered == answered0 + ReadFrames(address, size)[..k]
      requires progress != null ==> progress.current == current0 + Covered(size, k)
      modifies transport, data, progress
      ensures Valid() && transport.memory == old(transport.memory)
      ensures progress != null ==> progress.maximum == old(progress.maximum)
      ensures rc == Success ==>
        && Covered(size, k + 1) == Covered(size, k) + len
        && transport.answered == answered0 + ReadFrames(address, size)[..k + 1]
        && Holds(data, buf')
        && Filled(buf', buf0, start, ReadImage(transport.memory, address, size), Covered(size, k + 1))
        && (progress != null ==> progress.current == current0 + Covered(size, k + 1))
      ensures rc != Success ==>
        && transport.answered == old(transport.answered) && Holds(data, buf)
        && (progress != null ==> progress.current == old(progress.current))
      ensures old(transport.Clean()) && transport.hasPacket ==> rc == Success && transport.Clean()
      ensures Exchanged(rc)
    {
      ghost var mem := transport.memory;
      ReadNext(mem, address, size, k, buf, buf0, start);
      rc := ReadPacket(addr, len, data, start + nbytes, progress, buf);
      buf' := Splice(buf, start + nbytes, Fetch(mem, addr % 0x1_0000, len));
    }

    /** The packet loop of suunto_common2_read: packets of the plan for
        `size` bytes from `address` are read in turn until one fails or all
        are in; `k` packets went through, filling the first Covered(size, k)
        bytes of data[start..start + size] and nothing else. */
    method ReadLoop(address: nat, data: array<byte>, start: nat, size: nat, progress: Progress?)
      returns (rc: Status, ghost k: nat)
      requires Valid() && start + size <= data.Length
      modifies transport, data, progress
      ensures Valid() && transport.memory == old(transport.memory)
      ensures k <= |ReadFrames(address, size)| && transport.answered == old(transport.answered) + ReadFrames(address, size)[..k]
      ensures rc == Success <==> Covered(size, k) == size
      ensures Filled(data[..], old(data[..]), start, ReadImage(old(transport.memory), address, size), Covered(size, k))
      ensures progress != null ==>
        progress.current == old(progress.current) + Covered(size, k) && progress.maximum == old(progress.maximum)
      ensures size == 0 ==> transport.attempts == old(transport.attempts)
      ensures old(transport.Clean()) && transport.hasPacket ==> rc == Success && transport.Clean()
      ensures Exchanged(rc)
    {
      ghost var mem := transport.memory;
      ghost var whole := ReadImage(mem, address, size);
      ghost var plan := ReadFrames(address, size);
      ghost var buf0 := data[..];
      ghost var buf := buf0;
      k := 0;
      rc := Success;
      var nbytes := 0;
      var addr := address;
      while nbytes < size
        invariant nbytes <= size && addr == address + nbytes
        invariant Valid() && transport.memory == mem
        invariant k <= |plan| && transport.answered == old(transport.answered) + plan[..k]
        invariant nbytes == Covered(size, k)
        invariant Holds(data, buf)
        invariant Filled(buf, buf0, start, whole, nbytes)
        invariant progress != null ==>
          progress.current == old(progress.current) + nbytes && progress.maximum == old(progress.maximum)
        invariant nbytes == 0 ==> transport.attempts == old(transport.attempts)
        invariant Ran(transport.hasPacket, transport.script, old(transport.attempts), transport.attempts,
                      old(transport.answered), transport.answered, Success)
        invariant old(transport.Clean()) && transport.hasPacket ==> transport.Clean()
        invariant rc == Success
        decreases size - nbytes
      {
        var len := size - nbytes;
        if len > SZ_PACKET {
          len := SZ_PACKET;
        }
        assert len == ChunkLength(size - nbytes);
        CoveredCount(size, k);
        ghost var next;
        ghost var a1, log1 := transport.attempts, transport.answered;
        rc, next := ReadStep(address, size, data, start, progress, k, nbytes, addr, len, buf, buf0,
                             old(transport.answered), if progress == null then 0 else old(progress.current));
        RanThen(transport.hasPacket, transport.script, old(transport.attempts), a1, transport.attempts,
                old(transport.answered), log1, transport.answered, rc);
        if rc != Success {
          break;
        }
        buf := next;
        k := k + 1;
        nbytes := nbytes + len;
        addr := addr + len;
      }
      assert data[..] == buf;
    }

    /** suunto_common2_read: `size` bytes from `address` into
        data[start..start + size], in packets of at most SZ_PACKET bytes;
        the first failing packet ends the read with its status. */
    method Read(address: nat, data: array<byte>, start: nat, size: nat, progress: Progress?) returns (rc: Status)
      requires Valid() && start + size <= data.Length
      modifies transport, data, progress
      ensures Valid() && transport.memory == old(transport.memory)
      ensures old(transport.answered) <= transport.answered
      ensures progress != null ==> progress.maximum == old(progress.maximum)
      ensures rc == Success ==>
        && transport.answered == old(transport.answered) + ReadFrames(address, size)
        && data[start..start + size] == ReadImage(old(transport.memory), address, size)
        && (progress != null ==> progress.current == old(progress.current) + size)
      ensures rc != Success ==>
        var sent := transport.answered[|old(transport.answered)|..];
        var n := Covered(size, |sent|);
        && sent < ReadFrames(address, size)
        && data[start..start + n] == ReadImage(old(transport.memory), address, size)[..n]
        && data[start + n..] == old(data[start + n..])
        && (progress != null ==> progress.current == old(progress.current) + n)
      ensures data[..start] == old(data[..start]) && data[start + size..] == old(data[start + size..])
      ensures size == 0 ==> rc == Success && transport.attempts == old(transport.attempts)
      ensures old(transport.Clean()) && transport.hasPacket ==> rc == Success && transport.Clean()
      ensures Exchanged(rc)
    {
      ghost var whole := ReadImage(transport.memory, address, size);
      ghost var plan := ReadFrames(address, size);
      ghost var buf0 := data[..];
      ghost var k;
      rc, k := ReadLoop(address, data, start, size, progress);
      ghost var n := Covered(size, k);
      CoveredCount(size, k);
      assert transport.answered[|old(transport.answered)|..] == plan[..k];
      FilledBeyond(data[..], buf0, start, whole, n);
      if rc == Success {
        assert whole[..n] == whole;
      }
    }

    /** suunto_common2_device_read: a read with no progress reporting. */
    method DeviceRead(address: nat, data: array<byte>, size: nat) returns (rc: Status)
      requires Valid() && size <= data.Length
      modifies transport, data
      ensures Valid() && transport.memory == old(transport.memory)
      ensures old(transport.answered) <= transport.answered
      ensures var sent := transport.answered[|old(transport.answered)|..];
        && sent <= ReadFrames(address, size)
        && (rc == Success <==> |sent| == PacketCount(size))
      ensures rc == Success ==> data[..size] == ReadImage(old(transport.memory), address, size)
      ensures data[size..] == old(data[size..])
      ensures Exchanged(rc)
      ensures transport.hasPacket ==>
        Transfers(transport.script, old(transport.attempts), PacketCount(size))
          == Run(transport.attempts - old(transport.attempts), |transport.answered| - |old(transport.answered)|, rc)
    {
      rc := Read(address, data, 0, size, null);
      if transport.hasPacket {
        RanPlan(transport.script, old(transport.attempts), transport.attempts,
                old(transport.answered), transport.answered, rc, PacketCount(size));
      }
    }

    /** The write loop's invariant advanced by one packet: packet k of the
        plan for `data` at `address` either fails, leaving the frames
        answered and the memory as they were, or it is answered and the
        memory holds one more chunk of `data`. */
    method WriteStep(address: nat, data: seq<byte>, ghost k: nat, nbytes: nat, addr: nat, len: nat,
                     ghost mem: seq<byte>, ghost answered0: seq<seq<byte>>, ghost a0: nat)
      returns (rc: Status)
      requires Valid()
      requires Ran(transport.hasPacket, transport.script, a0, transport.attempts, answered0, transport.answered, Success)
      requires nbytes == Covered(|data|, k) < |data| && k < |WriteFrames(address, data)|
      requires addr == address + nbytes && len == ChunkLength(|data| - nbytes)
      requires transport.answered == answered0 + WriteFrames(address, data)[..k]
      requires transport.memory == WriteImage(mem, address, data[..nbytes])
      modifies transport
      ensures Valid()
      ensures rc == Success ==>
        && Covered(|data|, k + 1) == nbytes + len
        && transport.answered == answered0 + WriteFrames(address, data)[..k + 1]
        && transport.memory == WriteImage(mem, address, data[..nbytes + len])
      ensures rc != Success ==>
        transport.answered == old(transport.answered) && transport.memory == old(transport.memory)
      ensures old(transport.Clean()) && transport.hasPacket ==> rc == Success && transport.Clean()
      ensures Transferred(rc)
      ensures Ran(transport.hasPacket, transport.script, a0, transport.attempts, answered0, transport.answered, rc)
    {
      var command := WriteCommand(addr, data[nbytes..nbytes + len]);
      ghost var written := transport.memory;
      var answer;
      ghost var a1, log1 := transport.attempts, transport.answered;
      rc, answer := Transfer(command, 7, 0);
      RanThen(transport.hasPacket, transport.script, a0, a1, transport.attempts, answered0, log1, transport.answered, rc);
      if rc == Success {
        WriteLands(mem, address, data, k, nbytes, addr, len, written, transport.memory, command);
      }
    }

    /** The packet loop of suunto_common2_device_write: packets of the plan
        for `data` at `address` are written in turn until one fails or all
        went through; `k` packets went through and the memory holds the
        first Covered(|data|, k) bytes of `data`. */
    method WriteLoop(address: nat, data: seq<byte>) returns (rc: Status, ghost k: nat)
      requires Valid()
      modifies transport
      ensures Valid()
      ensures k <= |WriteFrames(address, data)| && transport.answered == old(transport.answered) + WriteFrames(address, data)[..k]
      ensures transport.memory == WriteImage(old(transport.memory), address, data[..Covered(|data|, k)])
      ensures rc == Success <==> Covered(|data|, k) == |data|
      ensures old(transport.Clean()) && transport.hasPacket ==> rc == Success && transport.Clean()
      ensures Exchanged(rc)
    {
      ghost var mem := transport.memory;
      ghost var plan := WriteFrames(address, data);
      k := 0;
      WriteFramesCount(address, data);
      rc := Success;
      var nbytes := 0;
      var addr := address;
      while nbytes < |data|
        invariant nbytes <= |data| && addr == address + nbytes
        invariant Valid()
        invariant k <= |plan| && transport.answered == old(transport.answered) + plan[..k]
        invariant nbytes == Covered(|data|, k)
        invariant transport.memory == WriteImage(mem, address, data[..nbytes])
        invariant Ran(transport.hasPacket, transport.script, old(transport.attempts), transport.attempts,
                      old(transport.answered), transport.answered, Success)
        invariant old(transport.Clean()) && transport.hasPacket ==> transport.Clean()
        invariant rc == Success
        decreases |data| - nbytes
      {
        var len := |data| - nbytes;
        if len > SZ_PACKET {
          len := SZ_PACKET;
        }
        assert len == ChunkLength(|data| - nbytes);
        CoveredCount(|data|, k);
        rc := WriteStep(address, data, k, nbytes, addr, len, mem, old(transport.answered), old(transport.attempts));
        if rc != Success {
          break;
        }
        k := k + 1;
        nbytes := nbytes + len;
        addr := addr + len;
      }
    }

    /** suunto_common2_device_write: `data` stored at `address` in packets
        of at most SZ_PACKET bytes. The write is not transactional: a failing
        packet ends it with its status, and the packets before it stay
        written. */
    method DeviceWrite(address: nat, data: seq<byte>) returns (rc: Status)
      requires Valid()
      modifies transport
      ensures Valid() && old(transport.answered) <= transport.answered
      ensures var sent := transport.answered[|old(transport.answered)|..];
        && sent <= WriteFrames(address, data)
        && transport.memory == WriteImage(old(transport.memory), address, data[..Covered(|data|, |sent|)])
        && (rc == Success <==> |sent| == PacketCount(|data|))
      ensures rc == Success ==> transport.memory == WriteImage(old(transport.memory), address, data)
      ensures old(transport.Clean()) && transport.hasPacket ==> rc == Success && transport.Clean()
      ensures Exchanged(rc)
      ensures transport.hasPacket ==>
        Transfers(transport.script, old(transport.attempts), PacketCount(|data|))
          == Run(transport.attempts - old(transport.attempts), |transport.answered| - |old(transport.answered)|, rc)
    {
      ghost var plan := WriteFrames(address, data);
      WriteFramesCount(address, data);
      ghost var k;
      rc, k := WriteLoop(address, data);
      CoveredCount(|data|, k);
      assert transport.answered[|old(transport.answered)|..] == plan[..k];
      if rc == Success {
        assert data[..Covered(|data|, k)] == data;
      }
      if transport.hasPacket {
        RanPlan(transport.script, old(transport.attempts), transport.attempts,
                old(transport.answered), transport.answered, rc, PacketCount(|data|));
      }
    }

    /** suunto_common2_device_dump: the whole memory, read from address 0
        into a buffer of at least SZ_MEMORY bytes, reporting progress against
        a maximum of SZ_MEMORY. */
    method Dump(data: array<byte>, result: Cell?) returns (rc: Status, progress: Progress?)
      requires Valid()
      modifies transport, data, result
      ensures Valid() && transport.memory == old(transport.memory)
      ensures data.Length < SZ_MEMORY ==>
        && rc == Memory && progress == null
        && transport.attempts == old(transport.attempts) && transport.answered == old(transport.answered)
        && unchanged(data)
      ensures data.Length >= SZ_MEMORY ==>
        && progress != null && fresh(progress) && progress.maximum == SZ_MEMORY
        && old(transport.answered) <= transport.answered
        && var sent := transport.answered[|old(transport.answered)|..];
        && progress.current == Covered(SZ_MEMORY, |sent|)
        && data[..progress.current] == old(transport.memory)[..progress.current]
        && (rc == Success ==> sent == ReadFrames(0, SZ_MEMORY))
        && (rc != Success ==> sent < ReadFrames(0, SZ_MEMORY))
        && var n := progress.current; data[n..] == old(data[n..])
      ensures rc == Success ==> data[..SZ_MEMORY] == old(transport.memory) && progress.current == SZ_MEMORY
      ensures result != null ==> result.value == if rc == Success then SZ_MEMORY else old(result.value)
      ensures old(transport.Clean()) && transport.hasPacket && data.Length >= SZ_MEMORY ==> rc == Success
      ensures data.Length >= SZ_MEMORY ==> Exchanged(rc)
    {
      if data.Length < SZ_MEMORY {
        return Memory, null;
      }
      ghost var mem := transport.memory;
      var size := SZ_MEMORY;
      progress := new Progress(size);
      ghost var log0, buf0 := transport.answered, data[..];
      rc := Read(0x00, data, 0, size, progress);
      ReadImageInRange(mem, 0, size);
      assert mem[0..size] == mem;
      ghost var sent := transport.answered[|log0|..];
      if rc != Success {
        assert sent < ReadFrames(0, SZ_MEMORY);
        return;
      }
      assert sent == ReadFrames(0, SZ_MEMORY);
      assert data[size..] == buf0[size..];
      if result != null {
        result.value := SZ_MEMORY;
      }
    }

    /** The read of one packet of the inner foreach loop: the `len` bytes
        below `address`, with `extra` bytes of padding below them, as one
        read command, copied to just below the bytes already held, so that
        `len` more bytes of the unrolled ring are in place. */
    method FetchPacket(data: array<byte>, begin: nat, remaining: nat, nbytes: nat, address: nat, len: nat, extra: nat,
                       ghost u: seq<byte>, ghost total: nat)
      returns (rc: Status)
      requires Valid() && data.Length == SZ_MINIMUM + SIZE
      requires InRing(begin) && total < SIZE && |u| == SIZE && Unrolls(u, transport.memory, begin, total)
      requires nbytes < remaining <= total && AddressOf(begin, remaining - nbytes, address)
      requires len <= address - BEGIN && nbytes + len <= remaining
      requires extra == Padding(len) && len <= SZ_PACKET
      requires data[SZ_MINIMUM + remaining - nbytes..] == u[remaining - nbytes..]
      modifies transport, data
      ensures Valid() && transport.memory == old(transport.memory)
      ensures rc == Success ==>
        && transport.answered == old(transport.answered) + [ReadCommand(address - (len + extra), len + extra)]
        && data[SZ_MINIMUM + remaining - (nbytes + len)..] == u[remaining - (nbytes + len)..]
      ensures rc != Success ==> transport.answered == old(transport.answered)
      ensures old(transport.Clean()) && transport.hasPacket ==> rc == Success && transport.Clean()
      ensures Exchanged(rc)
    {
      ghost var mem := transport.memory;
      var want := len + extra;
      var at := SZ_MINIMUM + remaining - nbytes - want;
      rc := Read(address - want, data, at, want, null);
      if rc == Success {
        ReadFramesSingle(address - want, want);
        ghost var buf := data[..];
        assert buf[at..at + want] == ReadImage(mem, address - want, want);
        assert at + want == SZ_MINIMUM + remaining - nbytes;
        assert buf[SZ_MINIMUM + remaining - nbytes..] == u[remaining - nbytes..];
        PacketLands(mem, u, begin, total, remaining, nbytes, address, len, extra, buf);
      }
    }

    /** One pass of the packet loop of suunto_common2_device_foreach: read
        the next packet that ends at `address`, widened downwards to
        SZ_MINIMUM bytes, so that `len` more bytes of the unrolled ring are in
        place below those already held, and step the address back, wrapping
        to the end of the ring at its beginning. The packet is one read
        command for `len` bytes, as many as a packet holds, the profile area
        still has below `address` and the profile data still needs, and
        `extra` bytes of padding below them. */
    method FillStep(data: array<byte>, begin: nat, remaining: nat, nbytes: nat, address: nat,
                    ghost u: seq<byte>, ghost total: nat)
      returns (rc: Status, len: nat, extra: nat, next: nat)
      requires Valid() && data.Length == SZ_MINIMUM + SIZE
      requires InRing(begin) && total < SIZE && |u| == SIZE && Unrolls(u, transport.memory, begin, total)
      requires nbytes < remaining <= total && AddressOf(begin, remaining - nbytes, address)
      requires data[SZ_MINIMUM + remaining - nbytes..] == u[remaining - nbytes..]
      modifies transport, data
      ensures Valid() && transport.memory == old(transport.memory)
      ensures len <= address - BEGIN && nbytes + len <= remaining && next != BEGIN
      ensures len == PacketLength(address, nbytes, remaining) && extra == Padding(len)
      ensures len == 0 ==> address == BEGIN
      ensures next == StepAddress(address, len)
      ensures InProfile(Packet(address, nbytes, len, extra))
      ensures rc == Success ==>
        transport.answered == old(transport.answered) + [PacketCommand(Packet(address, nbytes, len, extra))]
      ensures rc != Success ==> transport.answered == old(transport.answered)
      ensures rc == Success ==>
        && data[SZ_MINIMUM + remaining - (nbytes + len)..] == u[remaining - (nbytes + len)..]
        && AddressOf(begin, remaining - (nbytes + len), next)
      ensures old(transport.Clean()) && transport.hasPacket ==> rc == Success && transport.Clean()
      ensures Exchanged(rc)
    {
      len := SZ_PACKET;
      if BEGIN + len > address {
        len := address - BEGIN;
      }
      if nbytes + len > remaining {
        len := remaining - nbytes;
      }
      extra := 0;
      if len < SZ_MINIMUM {
        extra := SZ_MINIMUM - len;
      }
      rc := FetchPacket(data, begin, remaining, nbytes, address, len, extra, u, total);
      next := address - len;
      if next <= BEGIN {
        next := END;
      }
      StepBack(begin, total, remaining, nbytes, address, len);
    }

    /** The inner loop of suunto_common2_device_foreach: starting
        `available` bytes below `current`, read the ring backwards, one
        packet at a time and each packet written just below the previous one
        in the buffer, until the `size` bytes of the current dive are in.
        A packet stops at the start of the ring (reading then resumes at its
        end) and at the end of the profile data, and is padded below to at
        least SZ_MINIMUM bytes. The `available` bytes left over from the
        newer dive count as held, so the packets sent are those of
        FillPackets from `current - available` with `available` held. */
    method FillDive(data: array<byte>, begin: nat, current: nat, remaining: nat, size: nat, available: nat,
                    ghost u: seq<byte>, ghost total: nat)
      returns (rc: Status, nbytes: nat)
      requires Valid() && data.Length == SZ_MINIMUM + SIZE
      requires InRing(begin) && total < SIZE && |u| == SIZE && Unrolls(u, transport.memory, begin, total)
      requires remaining <= total && current == Pos(begin, remaining)
      requires 1 <= size <= remaining && available <= remaining && available <= current - BEGIN
      requires data[SZ_MINIMUM + remaining - available..] == u[remaining - available..]
      modifies transport, data
      ensures Valid() && transport.memory == old(transport.memory)
      ensures rc == Success ==>
        && size <= nbytes <= remaining
        && nbytes - size <= Pos(begin, remaining - size) - BEGIN
        && data[SZ_MINIMUM + remaining - nbytes..] == u[remaining - nbytes..]
      ensures old(transport.answered) <= transport.answered
      ensures rc == Success ==>
        && transport.answered == old(transport.answered) + FillCommands(current - available, available, remaining, size)
        && nbytes == FillHeld(current - available, available, remaining, size)
      ensures rc != Success ==>
        transport.answered[|old(transport.answered)|..] < FillCommands(current - available, available, remaining, size)
      ensures old(transport.Clean()) && transport.hasPacket ==> rc == Success && transport.Clean()
      ensures Exchanged(rc)
    {
      ghost var ps := PlanOf(current - available, available, remaining, size);
      nbytes := available;
      var address: nat := current - available;
      PosIsAddress(begin, remaining);
      if available > 0 {
        PosBelow(begin, remaining, current, available);
      }
      assert Commands(ps)[..0] == [];
      ghost var k;
      rc, nbytes, k := FillLoop(data, begin, remaining, size, nbytes, address, u, total,
                                ps, current - available, available, old(transport.answered), 0, current, 0);
      if rc == Success {
        PlanDone(ps, current - available, available, remaining, size,
                 old(transport.answered), transport.answered, nbytes);
      } else {
        PlanCut(ps, current - available, available, remaining, size,
                old(transport.answered), transport.answered, k);
      }
    }

    /** The packet loop of the inner foreach loop: from packet `k0` of the
        walk `ps`, which ends at `address0` with `nbytes0` bytes held, read
        the packets one after the other until the dive is complete or an
        exchange fails. */
    method FillLoop(data: array<byte>, begin: nat, remaining: nat, size: nat, nbytes0: nat, address0: nat,
                    ghost u: seq<byte>, ghost total: nat,
                    ghost ps: seq<Packet>, ghost first: nat, ghost held: nat, ghost log0: seq<seq<byte>>,
                    ghost k0: nat, ghost top0: nat, ghost below0: nat)
      returns (rc: Status, nbytes: nat, ghost k: nat)
      requires Valid() && data.Length == SZ_MINIMUM + SIZE
      requires InRing(begin) && total < SIZE && |u| == SIZE && Unrolls(u, transport.memory, begin, total)
      requires remaining <= total && size <= remaining && BEGIN <= first <= END && held <= remaining
      requires IsPlan(ps, first, held, remaining, size)
      requires nbytes0 <= remaining && AddressOf(begin, remaining - nbytes0, address0)
      requires below0 <= nbytes0 && below0 < size
      requires AddressOf(begin, remaining - below0, top0) && nbytes0 - below0 <= top0 - BEGIN
      requires data[SZ_MINIMUM + remaining - nbytes0..] == u[remaining - nbytes0..]
      requires k0 <= |ps| && transport.answered == log0 + Commands(ps)[..k0]
      requires k0 < |ps| <==> nbytes0 < size
      requires k0 < |ps| ==> ps[k0].address == address0 && ps[k0].held == nbytes0
      requires k0 == |ps| ==> nbytes0 == held + Lengths(ps)
      modifies transport, data
      ensures Valid() && transport.memory == old(transport.memory)
      ensures rc == Success ==>
        && size <= nbytes <= remaining
        && nbytes - size <= Pos(begin, remaining - size) - BEGIN
        && data[SZ_MINIMUM + remaining - nbytes..] == u[remaining - nbytes..]
        && transport.answered == log0 + Commands(ps)[..|ps|] && nbytes == held + Lengths(ps)
      ensures rc != Success ==> k < |ps| && transport.answered == log0 + Commands(ps)[..k]
      ensures old(transport.Clean()) && transport.hasPacket ==> rc == Success && transport.Clean()
      ensures Exchanged(rc)
    {
      nbytes := nbytes0;
      var address: nat := address0;
      k := k0;
      // the address and byte count before the latest packet
      ghost var top: nat, below: nat := top0, below0;
      rc := Success;
      while nbytes < size
        invariant Valid() && transport.memory == old(transport.memory)
        invariant nbytes <= remaining
        invariant AddressOf(begin, remaining - nbytes, address)
        invariant below <= nbytes && below < size
        invariant AddressOf(begin, remaining - below, top)
        invariant nbytes - below <= top - BEGIN
        invariant data[SZ_MINIMUM + remaining - nbytes..] == u[remaining - nbytes..]
        invariant k <= |ps| && transport.answered == log0 + Commands(ps)[..k]
        invariant k < |ps| <==> nbytes < size
        invariant k < |ps| ==> ps[k].address == address && ps[k].held == nbytes
        invariant k == |ps| ==> nbytes == held + Lengths(ps)
        invariant Ran(transport.hasPacket, transport.script, old(transport.attempts), transport.attempts,
                      old(transport.answered), transport.answered, Success)
        invariant old(transport.Clean()) && transport.hasPacket ==> transport.Clean()
        invariant rc == Success
        decreases size - nbytes, if address == BEGIN then 1 else 0
      {
        var len, extra, next;
        ghost var a1, log1 := transport.attempts, transport.answered;
        rc, len, extra, next := FillStep(data, begin, remaining, nbytes, address, u, total);
        RanThen(transport.hasPacket, transport.script, old(transport.attempts), a1, transport.attempts,
                old(transport.answered), log1, transport.answered, rc);
        if rc != Success {
          return;
        }
        PlanMove(ps, first, held, remaining, size, k, nbytes, address, len, extra);
        PlanLog(ps, log0, log1, k, address, nbytes, len, extra);
        k := k + 1;
        top, below := address, nbytes;
        nbytes := nbytes + len;
        address := next;
      }
      PosBelow(begin, remaining - below, top, size - below);
    }

    /** The first half of a pass of the outer loop of
        suunto_common2_device_foreach: fill the buffer with the dive that
        ends at `current` and read back its previous pointer, its payload and
        its fingerprint window, which are those of the newest dive of the
        chain; the rest of the chain starts at the previous pointer. */
    method FetchDive(data: array<byte>, h: Header, current: nat, previous: nat, remaining: nat, available: nat,
                     ghost ndives: nat, ghost u: seq<byte>, ghost total: nat)
      returns (rc: Status, nbytes: nat, remaining': nat, available': nat, oprevious: nat, dive: seq<byte>, window: seq<byte>)
      requires Valid() && data.Length == SZ_MINIMUM + SIZE
      requires InRing(h.begin) && total < SIZE && |u| == SIZE && Unrolls(u, transport.memory, h.begin, total)
      requires remaining <= total && available <= remaining
      requires current == Pos(h.begin, remaining) && current != h.begin
      requires available <= current - BEGIN
      requires ChainOk(u, h.begin, h.count, current, previous, remaining, ndives)
      requires data[SZ_MINIMUM + remaining - available..] == u[remaining - available..]
      modifies transport, data
      ensures Valid() && transport.memory == old(transport.memory)
      ensures rc == Success ==>
        Fetched(data[..], h, u, current, previous, remaining, ndives, oprevious, remaining', available', dive, window)
      ensures rc == Success ==>
        && nbytes == FillHeld(current - available, available, remaining, Distance(previous, current))
        && remaining' == remaining - Distance(previous, current)
        && available' == nbytes - Distance(previous, current)
        && transport.answered
           == old(transport.answered) + FillCommands(current - available, available, remaining, Distance(previous, current))
      ensures old(transport.answered) <= transport.answered
      ensures rc != Success ==>
        transport.answered[|old(transport.answered)|..]
        < FillCommands(current - available, available, remaining, Distance(previous, current))
      ensures old(transport.Clean()) && transport.hasPacket ==> rc == Success && transport.Clean()
      ensures Exchanged(rc)
    {
      remaining', available', oprevious, dive, window := remaining, available, previous, [], [];
      var size := Distance(previous, current);
      assert 4 <= size <= remaining;
      rc, nbytes := FillDive(data, h.begin, current, remaining, size, available, u, total);
      if rc != Success {
        return;
      }
      remaining' := remaining - size;
      available' := nbytes - size;
      assert SZ_MINIMUM + remaining' - available' == SZ_MINIMUM + remaining - nbytes;
      assert remaining' - available' == remaining - nbytes;
      var offset := SZ_MINIMUM + remaining';
      oprevious := Uint16Le(data[offset..offset + 2]);
      var onext := Uint16Le(data[offset + 2..offset + 4]);
      dive := data[offset + 4..offset + size];
      window := data[offset + FP_OFFSET..offset + FP_OFFSET + FP_SIZE];
      DiveInBuffer(u, data[..], h.begin, h.count, current, previous, remaining, ndives, nbytes, size, remaining', offset,
                   oprevious, dive, window);
      assert current == onext;
    }

    /** The end of a pass of the outer loop of
        suunto_common2_device_foreach, for the newest dive of `dives`: stop
        when its fingerprint window equals the device's fingerprint,
        otherwise hand its payload to the callback, if there is one, and stop
        if the callback declines. `handed` are the payloads handed over
        before, `seen0` what the callback had received before the
        enumeration. */
    method Offer(sink: DiveSink?, dive: seq<byte>, window: seq<byte>, ghost dives: seq<Dive>,
                 ghost accept: seq<seq<byte>> -> bool, ghost seen0: seq<seq<byte>>, ghost handed: seq<seq<byte>>,
                 ghost t0: seq<seq<byte>>)
      returns (stop: bool, ghost handed': seq<seq<byte>>)
      requires dives != [] && dives[0].payload == dive && dives[0].fingerprint == window
      requires sink != null ==> sink.received == seen0 + handed && accept == sink.accept
      requires sink == null ==> forall s :: accept(s)
      requires t0 == handed + Traverse(dives, fingerprint, accept, seen0 + handed)
      modifies sink
      ensures stop ==> sink != null ==> sink.received == seen0 + t0
      ensures var t := Traverse(dives, fingerprint, accept, seen0 + handed);
        && (!stop ==>
              && handed + t == handed' + Traverse(dives[1..], fingerprint, accept, seen0 + handed')
              && (sink != null ==> sink.received == seen0 + handed'))
    {
      TraverseStep(dives, fingerprint, accept, seen0 + handed);
      AppendAssoc(seen0, handed, Traverse(dives, fingerprint, accept, seen0 + handed));
      handed' := handed + [dive];
      assert (seen0 + handed) + [dive] == seen0 + handed';
      stop := true;
      if window == fingerprint {
        return;
      }
      if sink != null {
        var more := sink.Deliver(dive);
        if !more {
          return;
        }
      }
      stop := false;
      assert accept(seen0 + handed');
    }

    /** The second half of a pass of the outer loop of
        suunto_common2_device_foreach, once the dive that ends at `current`
        is in the buffer: offer it, and unless that stops the enumeration,
        the walk state holds again from its previous pointer. */
    method Advance(data: array<byte>, h: Header, sink: DiveSink?, current: nat, previous: nat, remaining: nat,
                   ghost buf: seq<byte>, ghost available: nat, ghost ndives: nat, ghost u: seq<byte>, ghost total: nat,
                   ghost accept: seq<seq<byte>> -> bool, ghost seen0: seq<seq<byte>>, ghost t0: seq<seq<byte>>,
                   ghost handed: seq<seq<byte>>, oprevious: nat, remaining': nat, available': nat,
                   dive: seq<byte>, window: seq<byte>)
      returns (stop: bool, ghost handed': seq<seq<byte>>)
      requires WalkState(buf, transport.memory, h, u, total, fingerprint, accept, seen0, t0, handed,
                         current, previous, remaining, available, ndives)
      requires sink != null ==> sink.received == seen0 + handed && accept == sink.accept
      requires sink == null ==> forall s :: accept(s)
      requires Fetched(data[..], h, u, current, previous, remaining, ndives, oprevious, remaining', available', dive, window)
      modifies sink
      ensures stop ==> sink != null ==> sink.received == seen0 + t0
      ensures !stop ==>
        && WalkState(data[..], transport.memory, h, u, total, fingerprint, accept, seen0, t0, handed',
                     previous, oprevious, remaining', available', ndives + 1)
        && (sink != null ==> sink.received == seen0 + handed')
    {
      ghost var w := Walk(u, h.begin, h.count, current, previous, remaining, ndives);
      assert w[1..] == Walk(u, h.begin, h.count, previous, oprevious, remaining', ndives + 1);
      stop, handed' := Offer(sink, dive, window, w, accept, seen0, handed, t0);
      if !stop {
        WalkStateNext(buf, data[..], transport.memory, h, u, total, fingerprint, accept, seen0, t0, handed, handed',
                      current, previous, remaining, available, ndives, oprevious, remaining', available', dive, window);
      }
    }

    /** One pass of the outer loop of suunto_common2_device_foreach: fetch
        the dive that ends at `current`, step to the next older dive through
        its previous pointer, and stop at a dive whose fingerprint window
        equals the device's fingerprint, or hand the payload to the callback
        and stop if it declines. On a stop the callback has received the
        whole traversal; on a failure nothing more. */
    method NextDive(data: array<byte>, h: Header, sink: DiveSink?, current: nat, previous: nat, remaining: nat,
                    available: nat, ghost ndives: nat, ghost u: seq<byte>, ghost total: nat,
                    ghost accept: seq<seq<byte>> -> bool, ghost seen0: seq<seq<byte>>, ghost t0: seq<seq<byte>>,
                    ghost handed: seq<seq<byte>>)
      returns (rc: Status, stop: bool, current': nat, previous': nat, remaining': nat, available': nat,
               ghost handed': seq<seq<byte>>)
      requires Valid() && data.Length == SZ_MINIMUM + SIZE
      requires WalkState(data[..], transport.memory, h, u, total, fingerprint, accept, seen0, t0, handed,
                         current, previous, remaining, available, ndives)
      requires sink != null ==> sink.received == seen0 + handed && accept == sink.accept
      requires sink == null ==> forall s :: accept(s)
      requires current != h.begin
      modifies transport, data, sink
      ensures Valid() && transport.memory == old(transport.memory)
      ensures rc != Success ==> sink != null ==> sink.received == seen0 + handed
      ensures rc == Success && stop ==> sink != null ==> sink.received == seen0 + t0
      ensures rc == Success && !stop ==>
        && remaining' < remaining
        && WalkState(data[..], transport.memory, h, u, total, fingerprint, accept, seen0, t0, handed',
                     current', previous', remaining', available', ndives + 1)
        && (sink != null ==> sink.received == seen0 + handed')
      ensures old(transport.Clean()) && transport.hasPacket ==> rc == Success && transport.Clean()
      ensures old(transport.answered) <= transport.answered
      ensures Exchanged(rc)
    {
      stop, current', previous', remaining', available', handed' := true, current, previous, remaining, available, handed;
      ghost var buf := data[..];
      var nbytes, oprevious, dive, window;
      rc, nbytes, remaining', available', oprevious, dive, window := FetchDive(data, h, current, previous, remaining, available, ndives, u, total);
      if rc != Success {
        return;
      }
      current' := previous;
      previous' := oprevious;
      stop, handed' := Advance(data, h, sink, current, previous, remaining, buf, available, ndives, u, total,
                               accept, seen0, t0, handed, oprevious, remaining', available', dive, window);
    }

    /** The outer loop of suunto_common2_device_foreach: walk the dive chain
        back to `begin`, filling the buffer one dive at a time, newest first,
        stopping at the dive whose fingerprint window equals the device's
        fingerprint and after the callback declines. The callback receives
        the traversal `t0` of the dives still ahead, or on a failure a prefix
        of it. When the walk reaches `begin`, the checks the source asserts
        hold: no profile byte is left, none is left over, and `count` dives
        were met. */
    method WalkLoop(data: array<byte>, h: Header, sink: DiveSink?, end: nat, last: nat, total: nat,
                    ghost u: seq<byte>, ghost accept: seq<seq<byte>> -> bool, ghost seen0: seq<seq<byte>>,
                    ghost t0: seq<seq<byte>>)
      returns (rc: Status)
      requires Valid() && data.Length == SZ_MINIMUM + SIZE
      requires WalkState(data[..], transport.memory, h, u, total, fingerprint, accept, seen0, t0, [],
                         end, last, total, 0, 0)
      requires sink != null ==> sink.received == seen0 && accept == sink.accept
      requires sink == null ==> forall s :: accept(s)
      modifies transport, data, sink
      ensures Valid() && transport.memory == old(transport.memory)
      ensures sink != null ==>
        && seen0 <= sink.received && sink.received[|seen0|..] <= t0
        && (rc == Success ==> sink.received == seen0 + t0)
      ensures old(transport.Clean()) && transport.hasPacket ==> rc == Success && transport.Clean()
      ensures old(transport.answered) <= transport.answered
      ensures Exchanged(rc)
    {
      ghost var mem := transport.memory;
      ghost var handed: seq<seq<byte>> := [];
      assert seen0 + handed == seen0;
      var current, previous, remaining, available, ndives := end, last, total, 0, 0;
      rc := Success;
      while current != h.begin
        invariant Valid() && data.Length == SZ_MINIMUM + SIZE && transport.memory == mem
        invariant WalkState(data[..], transport.memory, h, u, total, fingerprint, accept, seen0, t0, handed,
                            current, previous, remaining, available, ndives)
        invariant sink != null ==> sink.received == seen0 + handed && accept == sink.accept
        invariant sink == null ==> forall s :: accept(s)
        invariant Ran(transport.hasPacket, transport.script, old(transport.attempts), transport.attempts,
                      old(transport.answered), transport.answered, Success)
        invariant old(transport.Clean()) && transport.hasPacket ==> transport.Clean()
        invariant rc == Success
        decreases remaining
      {
        PrefixOfAppend(handed, Traverse(Walk(u, h.begin, h.count, current, previous, remaining, ndives), fingerprint, accept, seen0 + handed));
        var stop;
        ghost var handed';
        ghost var a1, log1 := transport.attempts, transport.answered;
        rc, stop, current, previous, remaining, available, handed' :=
          NextDive(data, h, sink, current, previous, remaining, available, ndives, u, total, accept, seen0, t0, handed);
        RanThen(transport.hasPacket, transport.script, old(transport.attempts), a1, transport.attempts,
                old(transport.answered), log1, transport.answered, rc);
        if rc != Success || stop {
          if sink != null && rc != Success {
            assert sink.received[|seen0|..] == handed;
          }
          return;
        }
        handed := handed';
        ndives := ndives + 1;
      }
      WalkStateDone(data[..], mem, h, u, total, fingerprint, accept, seen0, t0, handed, previous, remaining, available, ndives);
      assert remaining == 0 && available == 0 && ndives == h.count;
    }

    /** The dive walk of suunto_common2_device_foreach from the header `h`
        of a well-formed image: a zeroed buffer of SZ_MINIMUM + SIZE bytes,
        the profile data between the header's `begin` and `end` still to
        read, and the walk started at `end` and `last`. The callback receives
        the traversal of the image's dives, or on a failure a prefix of it. */
    method WalkRing(h: Header, sink: DiveSink?) returns (rc: Status)
      requires Valid() && ImageWellFormed(transport.memory) && h == HeaderIn(transport.memory)
      modifies transport, sink
      ensures Valid() && transport.memory == old(transport.memory)
      ensures sink != null ==>
        var t := Traverse(Dives(old(transport.memory)), fingerprint, sink.accept, old(sink.received));
        && old(sink.received) <= sink.received
        && sink.received[|old(sink.received)|..] <= t
        && (rc == Success ==> sink.received == old(sink.received) + t)
      ensures old(transport.Clean()) && transport.hasPacket ==> rc == Success && transport.Clean()
      ensures old(transport.answered) <= transport.answered
      ensures Exchanged(rc)
    {
      ghost var mem := transport.memory;
      var data := new byte[SZ_MINIMUM + SIZE](_ => 0);
      var remaining: nat := Distance(h.begin, h.end);
      ghost var u := Unrolled(mem, h.begin, remaining);
      ghost var accept: seq<seq<byte>> -> bool := if sink != null then sink.accept else _ => true;
      ghost var seen0 := if sink != null then sink.received else [];
      WalkStateStart(data[..], mem, fingerprint, accept, seen0);
      rc := WalkLoop(data, h, sink, h.end, h.last, remaining, u, accept, seen0, Traverse(Dives(mem), fingerprint, accept, seen0));
    }

    /** The first part of suunto_common2_device_foreach: the version and
        the serial number, decoded into the device information it reports. */
    method ReadInfo() returns (rc: Status, devinfo: DeviceInfo)
      requires Valid()
      modifies transport
      ensures Valid() && transport.memory == old(transport.memory)
      ensures rc == Success ==>
        devinfo == DeviceInfoOf(transport.version, old(transport.memory)[SERIAL_ADDRESS..SERIAL_ADDRESS + SZ_SERIAL])
      ensures old(transport.answered) <= transport.answered
      ensures rc == Success ==>
        transport.answered == old(transport.answered) + [VersionCommand] + ReadFrames(SERIAL_ADDRESS, SZ_SERIAL)
      ensures old(transport.Clean()) && transport.hasPacket ==> rc == Success && transport.Clean()
      ensures Exchanged(rc)
    {
      ghost var mem := transport.memory;
      devinfo := DeviceInfo(0, 0, 0);
      var version := new byte[SZ_VERSION](_ => 0);
      rc := Version(version);
      if rc != Success {
        return;
      }
      ghost var a1, log1 := transport.attempts, transport.answered;
      var serial;
      rc, serial := ReadSerial();
      RanThen(transport.hasPacket, transport.script, old(transport.attempts), a1, transport.attempts,
              old(transport.answered), log1, transport.answered, rc);
      if rc != Success {
        return;
      }
      devinfo := DeviceInfoOf(version[..], serial);
    }

    /** The serial-number read of suunto_common2_device_foreach: the
        SZ_SERIAL bytes at 0x0023. */
    method ReadSerial() returns (rc: Status, serial: seq<byte>)
      requires Valid()
      modifies transport
      ensures Valid() && transport.memory == old(transport.memory)
      ensures rc == Success ==> serial == old(transport.memory)[SERIAL_ADDRESS..SERIAL_ADDRESS + SZ_SERIAL]
      ensures rc == Success ==> transport.answered == old(transport.answered) + ReadFrames(SERIAL_ADDRESS, SZ_SERIAL)
      ensures old(transport.Clean()) && transport.hasPacket ==> rc == Success && transport.Clean()
      ensures Exchanged(rc)
    {
      ghost var mem := transport.memory;
      var buffer := new byte[SZ_SERIAL](_ => 0);
      rc := Read(SERIAL_ADDRESS, buffer, 0, SZ_SERIAL, null);
      serial := buffer[..];
      if rc != Success {
        return;
      }
      ReadImageInRange(mem, SERIAL_ADDRESS, SZ_SERIAL);
      assert serial == mem[SERIAL_ADDRESS..SERIAL_ADDRESS + SZ_SERIAL];
    }

    /** The header read of suunto_common2_device_foreach: the four ring
        pointers, decoded from the eight bytes at 0x0190. */
    method ReadHeader() returns (rc: Status, h: Header)
      requires Valid()
      modifies transport
      ensures Valid() && transport.memory == old(transport.memory)
      ensures rc == Success ==> h == HeaderIn(old(transport.memory))
      ensures old(transport.answered) <= transport.answered
      ensures rc == Success ==> transport.answered == old(transport.answered) + ReadFrames(HEADER_ADDRESS, SZ_HEADER)
      ensures old(transport.Clean()) && transport.hasPacket ==> rc == Success && transport.Clean()
      ensures Exchanged(rc)
    {
      ghost var mem := transport.memory;
      h := Header(0, 0, 0, 0);
      var header := new byte[SZ_HEADER](_ => 0);
      rc := Read(HEADER_ADDRESS, header, 0, SZ_HEADER, null);
      if rc != Success {
        return;
      }
      ReadImageInRange(mem, HEADER_ADDRESS, SZ_HEADER);
      assert header[..] == mem[HEADER_ADDRESS..HEADER_ADDRESS + SZ_HEADER];
      h := HeaderOf(header[..]);
    }

    /** suunto_common2_device_foreach: read the version, the serial number
        and the profile header, report the device information, then walk the
        dives newest first. Each of the three reads can end it with its
        status before anything reaches the callback; the device information
        is reported once version and serial have been read. */
    method Foreach(sink: DiveSink?) returns (rc: Status, devinfo: Option<DeviceInfo>)
      requires Valid() && ImageWellFormed(transport.memory)
      modifies transport, sink
      ensures Valid() && transport.memory == old(transport.memory)
      ensures devinfo.Some? ==>
        devinfo.value == DeviceInfoOf(transport.version, old(transport.memory)[SERIAL_ADDRESS..SERIAL_ADDRESS + SZ_SERIAL])
      ensures rc == Success ==> devinfo.Some?
      ensures sink != null ==>
        var t := Traverse(Dives(old(transport.memory)), fingerprint, sink.accept, old(sink.received));
        && old(sink.received) <= sink.received
        && sink.received[|old(sink.received)|..] <= t
        && (rc == Success ==> sink.received == old(sink.received) + t)
        && (devinfo.None? ==> sink.received == old(sink.received))
      ensures old(transport.answered) <= transport.answered
      ensures sink != null && sink.received != old(sink.received) ==>
        old(transport.answered) + [VersionCommand] + ReadFrames(SERIAL_ADDRESS, SZ_SERIAL)
          + ReadFrames(HEADER_ADDRESS, SZ_HEADER) <= transport.answered
      ensures old(transport.Clean()) && transport.hasPacket ==> rc == Success && transport.Clean()
      ensures Exchanged(rc)
    {
      devinfo := None;
      var info;
      rc, info := ReadInfo();
      if rc != Success {
        return;
      }
      devinfo := Some(info);
      var h;
      ghost var a1, log1 := transport.attempts, transport.answered;
      rc, h := ReadHeader();
      RanThen(transport.hasPacket, transport.script, old(transport.attempts), a1, transport.attempts,
              old(transport.answered), log1, transport.answered, rc);
      if rc != Success {
        return;
      }
      ghost var a2, log2 := transport.attempts, transport.answered;
      rc := WalkRing(h, sink);
      RanThen(transport.hasPacket, transport.script, old(transport.attempts), a2, transport.attempts,
              old(transport.answered), log2, transport.answered, rc);
    }
  }
}
