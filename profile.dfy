/** What the dive enumeration reads out of a memory image: the device
    information, the profile header, and the chain of dives the header and
    the link pointers describe, newest first; and which of those dives a
    traversal hands to its callback. */
module Profile {
  import opened Bytes
  import opened Frames
  import opened ProfileRing

  /** The serial number: SZ_MINIMUM bytes read at 0x0023, of which the
      first four are decoded. */
  const SERIAL_ADDRESS: nat := 0x0023
  const SZ_SERIAL: nat := if SZ_MINIMUM > 4 then SZ_MINIMUM else 4
  /** The profile header: four 16-bit pointers at 0x0190. */
  const HEADER_ADDRESS: nat := 0x0190
  const SZ_HEADER: nat := 8

  /** device_devinfo_t */
  datatype DeviceInfo = DeviceInfo(model: nat, firmware: nat, serial: nat)

  /** The model is the first version byte, the firmware the next three
      big-endian, the serial the first four serial bytes big-endian. */
  function DeviceInfoOf(version: seq<byte>, serial: seq<byte>): (info: DeviceInfo)
    requires |version| >= SZ_VERSION && |serial| >= 4
    ensures info.model < 0x100 && info.firmware < 0x100_0000 && info.serial < 0x1_0000_0000
  {
    DeviceInfo(version[0] as nat, Uint24Be(version[1..]), Uint32Be(serial))
  }

  /** Decoding the device information loses nothing: the version bytes and
      the four serial bytes are recovered from it. */
  lemma DeviceInfoRoundTrip(version: seq<byte>, serial: seq<byte>)
    requires |version| >= SZ_VERSION && |serial| >= 4
    ensures var info := DeviceInfoOf(version, serial);
      && [info.model as byte] + Be24(info.firmware) == version[..SZ_VERSION]
      && Be32(info.serial) == serial[..4]
  {
    Uint24BeRoundTrip(0, version[1..]);
    Uint32BeRoundTrip(0, serial);
    assert version[1..][..3] == version[1..4];
    assert version[..4] == [version[0]] + version[1..4];
  }

  /** The profile header: the newest dive's start (`last`), the number of
      dives, and the end and begin of the profile data in the ring. */
  datatype Header = Header(last: nat, count: nat, end: nat, begin: nat)

  predicate HeaderFits(r: Header)
  {
    r.last < 0x1_0000 && r.count < 0x1_0000 && r.end < 0x1_0000 && r.begin < 0x1_0000
  }

  /** Four little-endian 16-bit fields in the order last, count, end, begin. */
  function HeaderOf(h: seq<byte>): (r: Header)
    requires |h| >= SZ_HEADER
    ensures HeaderFits(r)
  {
    Header(Uint16Le(h[0..]), Uint16Le(h[2..]), Uint16Le(h[4..]), Uint16Le(h[6..]))
  }

  /** The eight header bytes that hold `r`. */
  function HeaderBytes(r: Header): (h: seq<byte>)
    requires HeaderFits(r)
    ensures |h| == SZ_HEADER
  {
    Le16(r.last) + Le16(r.count) + Le16(r.end) + Le16(r.begin)
  }

  lemma HeaderRoundTrip(r: Header, h: seq<byte>)
    requires HeaderFits(r) && |h| >= SZ_HEADER
    ensures HeaderOf(HeaderBytes(r)) == r
    ensures HeaderBytes(HeaderOf(h)) == h[..SZ_HEADER]
  {
    var b := HeaderBytes(r);
    Uint16LeRoundTrip(r.last, h[0..]);
    Uint16LeRoundTrip(r.count, h[2..]);
    Uint16LeRoundTrip(r.end, h[4..]);
    Uint16LeRoundTrip(r.begin, h[6..]);
    assert b[0..][..2] == Le16(r.last) && b[2..][..2] == Le16(r.count);
    assert b[4..][..2] == Le16(r.end) && b[6..][..2] == Le16(r.begin);
    assert h[..SZ_HEADER] == h[0..][..2] + h[2..][..2] + h[4..][..2] + h[6..][..2];
  }

  /** The `n` ring bytes starting at `from`, wrapping from END to BEGIN. */
  function RingBytes(mem: seq<byte>, from: nat, n: nat): (s: seq<byte>)
    requires |mem| == SZ_MEMORY && InRing(from)
    ensures |s| == n
  {
    seq(n, k requires 0 <= k < n => mem[Pos(from, k)])
  }

  /** The profile data unrolled from `begin`: position t holds the ring byte
      t places after `begin` for the `total` bytes of profile data, and 0
      past them, as the zeroed tail of the enumeration buffer does. */
  function Unrolled(mem: seq<byte>, begin: nat, total: nat): (u: seq<byte>)
    requires |mem| == SZ_MEMORY && InRing(begin) && total <= SIZE
    ensures |u| == SIZE && Unrolls(u, mem, begin, total)
    ensures forall t | total <= t < SIZE :: u[t] == 0
  {
    seq(SIZE, t requires 0 <= t < SIZE => if t < total then mem[Pos(begin, t)] else 0)
  }

  /** The first `total` bytes of `u` are the ring read from `begin`. */
  predicate Unrolls(u: seq<byte>, mem: seq<byte>, begin: nat, total: nat)
    requires |mem| == SZ_MEMORY && InRing(begin)
  {
    total <= |u| && forall t | 0 <= t < total :: u[t] == mem[Pos(begin, t)]
  }

  /** A stretch of the unrolled data is the ring read from its first byte. */
  lemma UnrolledIsRing(u: seq<byte>, mem: seq<byte>, begin: nat, total: nat, r: nat, n: nat)
    requires |mem| == SZ_MEMORY && InRing(begin) && Unrolls(u, mem, begin, total) && r + n <= total
    ensures u[r..r + n] == RingBytes(mem, Pos(begin, r), n)
  {
    forall k | 0 <= k < n
      ensures u[r + k] == RingBytes(mem, Pos(begin, r), n)[k]
    {
      PosShift(begin, r, k);
    }
  }

  /** The dive chain from `current` back to `begin` is consistent: every
      dive's size, Distance(previous, current), lies in [4, remaining], its
      fingerprint window lies inside the enumeration buffer, its next
      pointer (bytes 2-3) is `current`, and its previous pointer (bytes 0-1)
      continues the chain; the chain holds `count` dives in all. The size
      bounds, the next pointers and the dive count are the conditions the
      enumeration asserts. The fingerprint-window bound is not asserted by
      the enumeration: it is what keeps its fingerprint comparison inside
      the buffer, and the model demands it so that the comparison is
      defined. */
  predicate ChainOk(u: seq<byte>, begin: nat, count: nat, current: nat, previous: nat, remaining: nat, ndives: nat)
    requires |u| == SIZE && InRing(begin) && remaining < SIZE
    decreases remaining
  {
    if current == begin then ndives == count
    else
      && InRing(current) && InRing(previous)
      && 4 <= Distance(previous, current) <= remaining
      && var r := remaining - Distance(previous, current);
      && r + FP_OFFSET + FP_SIZE <= SIZE
      && Uint16Le(u[r + 2..]) == current
      && ChainOk(u, begin, count, previous, Uint16Le(u[r..]), r, ndives + 1)
  }

  /** A dive as the enumeration sees it: the ring address of its first byte,
      its size, the bytes after its two link pointers, and the
      fingerprint window. */
  datatype Dive = Dive(start: nat, size: nat, payload: seq<byte>, fingerprint: seq<byte>)

  /** A dive that starts in the ring, is at least its 4 link bytes long and
      shorter than the ring, and carries all but those 4 bytes and a full
      fingerprint window. */
  predicate Shaped(d: Dive)
  {
    InRing(d.start) && 4 <= d.size < SIZE && |d.payload| == d.size - 4 && |d.fingerprint| == FP_SIZE
  }

  /** The dives of a consistent chain, newest first. */
  function Walk(u: seq<byte>, begin: nat, count: nat, current: nat, previous: nat, remaining: nat, ndives: nat): (dives: seq<Dive>)
    requires |u| == SIZE && InRing(begin) && remaining < SIZE
    requires ChainOk(u, begin, count, current, previous, remaining, ndives)
    ensures forall i | 0 <= i < |dives| :: Shaped(dives[i])
    decreases remaining
  {
    if current == begin then []
    else
      var size := Distance(previous, current);
      var r := remaining - size;
      [Dive(previous, size, u[r + 4..remaining], u[r + FP_OFFSET..r + FP_OFFSET + FP_SIZE])]
        + Walk(u, begin, count, previous, Uint16Le(u[r..]), r, ndives + 1)
  }

  /** The header read from an image. */
  function HeaderIn(mem: seq<byte>): Header
    requires |mem| == SZ_MEMORY
  {
    HeaderOf(mem[HEADER_ADDRESS..HEADER_ADDRESS + SZ_HEADER])
  }

  /** An image whose header pointers lie in the ring and whose dive chain
      is consistent from `end` back to `begin`. */
  predicate ImageWellFormed(mem: seq<byte>)
  {
    && |mem| == SZ_MEMORY
    && var h := HeaderIn(mem);
    && InRing(h.begin) && InRing(h.end)
    && var total := Distance(h.begin, h.end);
    && ChainOk(Unrolled(mem, h.begin, total), h.begin, h.count, h.end, h.last, total, 0)
  }

  /** The dives stored in a well-formed image, newest first. */
  function Dives(mem: seq<byte>): seq<Dive>
    requires ImageWellFormed(mem)
  {
    var h := HeaderIn(mem);
    var total := Distance(h.begin, h.end);
    Walk(Unrolled(mem, h.begin, total), h.begin, h.count, h.end, h.last, total, 0)
  }

  /** Sum of the dive sizes. */
  function Total(dives: seq<Dive>): nat
  {
    if dives == [] then 0 else dives[0].size + Total(dives[1..])
  }

  function Payloads(dives: seq<Dive>): (p: seq<seq<byte>>)
    ensures |p| == |dives|
  {
    seq(|dives|, i requires 0 <= i < |dives| => dives[i].payload)
  }

  /** The chain holds `count - ndives` more dives, whose sizes add up to
      the profile bytes that remain; each is at least 4 bytes long and
      hands on all but its 4 link bytes. */
  lemma {:induction false} WalkSizes(u: seq<byte>, begin: nat, count: nat, current: nat, previous: nat, remaining: nat, ndives: nat)
    requires |u| == SIZE && InRing(begin) && remaining < SIZE && current == Pos(begin, remaining)
    requires ChainOk(u, begin, count, current, previous, remaining, ndives)
    ensures var w := Walk(u, begin, count, current, previous, remaining, ndives);
      && ndives + |w| == count
      && Total(w) == remaining
    decreases remaining
  {
    var w := Walk(u, begin, count, current, previous, remaining, ndives);
    DistancePosRoundTrip(begin, remaining, begin);
    if current != begin {
      var size := Distance(previous, current);
      var r := remaining - size;
      var next := Uint16Le(u[r..]);
      PosPrevious(begin, remaining, current, previous);
      WalkSizes(u, begin, count, previous, next, r, ndives + 1);
      assert w[1..] == Walk(u, begin, count, previous, next, r, ndives + 1);
    }
  }

  /** The dives tile the profile data backwards: the newest ends at
      `current`, each older one ends where the next newer one starts, and the
      oldest starts at `begin`. */
  lemma {:induction false} WalkTiles(u: seq<byte>, begin: nat, count: nat, current: nat, previous: nat, remaining: nat, ndives: nat)
    requires |u| == SIZE && InRing(begin) && remaining < SIZE && current == Pos(begin, remaining)
    requires ChainOk(u, begin, count, current, previous, remaining, ndives)
    ensures var w := Walk(u, begin, count, current, previous, remaining, ndives);
      && (w == [] <==> current == begin)
      && (w != [] ==> Pos(w[0].start, w[0].size) == current && w[|w| - 1].start == begin)
      && forall i | 0 <= i < |w| - 1 :: Pos(w[i + 1].start, w[i + 1].size) == w[i].start
    decreases remaining
  {
    if current != begin {
      var w := Walk(u, begin, count, current, previous, remaining, ndives);
      var size := Distance(previous, current);
      var r := remaining - size;
      var next := Uint16Le(u[r..]);
      DistancePosRoundTrip(previous, 0, current);
      PosPrevious(begin, remaining, current, previous);
      WalkTiles(u, begin, count, previous, next, r, ndives + 1);
      assert w[1..] == Walk(u, begin, count, previous, next, r, ndives + 1);
    }
  }

  /** Dive `d` is the run of ring bytes from its start pointer: the first
      two bytes point at the next older dive (not constrained here), the next
      two at the dive's own end, and the rest is what the callback receives. */
  predicate IsRingRun(mem: seq<byte>, d: Dive)
    requires |mem| == SZ_MEMORY && Shaped(d)
  {
    var run := RingBytes(mem, d.start, d.size);
    d.payload == run[4..] && Uint16Le(run[2..]) == Pos(d.start, d.size)
  }

  /** The first two bytes of dive `d` point at the start of dive `older`. */
  predicate LinksTo(mem: seq<byte>, d: Dive, older: Dive)
    requires |mem| == SZ_MEMORY && Shaped(d)
  {
    Uint16Le(RingBytes(mem, d.start, d.size)) == older.start
  }

  /** The newest dive of a chain is the ring run from its start pointer,
      and its first two bytes decode to the previous pointer of the rest. */
  lemma WalkHead(u: seq<byte>, mem: seq<byte>, begin: nat, count: nat, current: nat, previous: nat, remaining: nat, ndives: nat)
    requires |mem| == SZ_MEMORY && |u| == SIZE && InRing(begin) && remaining < SIZE
    requires Unrolls(u, mem, begin, remaining)
    requires current == Pos(begin, remaining) && current != begin
    requires ChainOk(u, begin, count, current, previous, remaining, ndives)
    ensures var w := Walk(u, begin, count, current, previous, remaining, ndives);
      var r := remaining - Distance(previous, current);
      && IsRingRun(mem, w[0])
      && Uint16Le(RingBytes(mem, w[0].start, w[0].size)) == Uint16Le(u[r..])
  {
    var w := Walk(u, begin, count, current, previous, remaining, ndives);
    var size := Distance(previous, current);
    var r := remaining - size;
    DistancePosRoundTrip(previous, 0, current);
    PosPrevious(begin, remaining, current, previous);
    UnrolledIsRing(u, mem, begin, remaining, r, size);
    var run := RingBytes(mem, previous, size);
    assert u[r..remaining] == run;
    assert w[0].payload == u[r + 4..remaining] == run[4..];
    assert u[r + 2] == run[2] && u[r + 3] == run[3];
    assert u[r] == run[0] && u[r + 1] == run[1];
  }

  /** Dive `i` of a chain is the ring run from its start pointer, and
      links to dive `i + 1`. */
  lemma {:induction false} WalkRingAt(u: seq<byte>, mem: seq<byte>, begin: nat, count: nat, current: nat, previous: nat, remaining: nat, ndives: nat, i: nat)
    requires |mem| == SZ_MEMORY && |u| == SIZE && InRing(begin) && remaining < SIZE
    requires Unrolls(u, mem, begin, remaining)
    requires current == Pos(begin, remaining)
    requires ChainOk(u, begin, count, current, previous, remaining, ndives)
    requires i < |Walk(u, begin, count, current, previous, remaining, ndives)|
    ensures var w := Walk(u, begin, count, current, previous, remaining, ndives);
      && IsRingRun(mem, w[i])
      && (i + 1 < |w| ==> LinksTo(mem, w[i], w[i + 1]))
    decreases i
  {
    var w := Walk(u, begin, count, current, previous, remaining, ndives);
    var size := Distance(previous, current);
    var r := remaining - size;
    var next := Uint16Le(u[r..]);
    var rest := Walk(u, begin, count, previous, next, r, ndives + 1);
    assert w == [w[0]] + rest;
    PosPrevious(begin, remaining, current, previous);
    if i == 0 {
      WalkHead(u, mem, begin, count, current, previous, remaining, ndives);
      if 1 < |w| {
        assert w[1] == rest[0] && rest[0].start == next;
      }
    } else {
      WalkRingAt(u, mem, begin, count, previous, next, r, ndives + 1, i - 1);
      assert w[i] == rest[i - 1];
      if i + 1 < |w| {
        assert w[i + 1] == rest[i - 1 + 1];
      }
    }
  }

  /** The payloads a traversal hands to the callback, in order. A dive
      whose fingerprint window equals `fp` stops the traversal before it is
      handed over; a callback that answers false (`accept` of everything it
      has been handed so far) stops it after. */
  function Traverse(dives: seq<Dive>, fp: seq<byte>, accept: seq<seq<byte>> -> bool, seen: seq<seq<byte>>): seq<seq<byte>>
    decreases |dives|
  {
    if dives == [] || dives[0].fingerprint == fp then []
    else
      var handed := seen + [dives[0].payload];
      if !accept(handed) then [dives[0].payload]
      else [dives[0].payload] + Traverse(dives[1..], fp, accept, handed)
  }

  /** A traversal hands over a prefix of the payloads, newest first, none of
      whose dives carries the fingerprint; the callback accepted every one
      but the last; and it stops early only at a dive carrying the
      fingerprint or after the callback declined. */
  lemma {:induction false} TraverseSpec(dives: seq<Dive>, fp: seq<byte>, accept: seq<seq<byte>> -> bool, seen: seq<seq<byte>>)
    ensures var t := Traverse(dives, fp, accept, seen);
      && |t| <= |dives| && t == Payloads(dives)[..|t|]
      && (forall i | 0 <= i < |t| :: dives[i].fingerprint != fp)
      && (forall i | 1 <= i < |t| :: accept(seen + t[..i]))
      && (|t| < |dives| ==> dives[|t|].fingerprint == fp || (t != [] && !accept(seen + t)))
    decreases |dives|
  {
    var t := Traverse(dives, fp, accept, seen);
    if dives != [] && dives[0].fingerprint != fp {
      var handed := seen + [dives[0].payload];
      if accept(handed) {
        var t' := Traverse(dives[1..], fp, accept, handed);
        TraverseSpec(dives[1..], fp, accept, handed);
        assert t == [dives[0].payload] + t';
        assert Payloads(dives) == [dives[0].payload] + Payloads(dives[1..]);
        forall i | 1 <= i < |t|
          ensures accept(seen + t[..i])
        {
          if i == 1 {
            assert seen + t[..1] == handed;
          } else {
            assert accept(handed + t'[..i - 1]);
            assert seen + t[..i] == handed + t'[..i - 1];
          }
        }
        if |t| < |dives| && t' != [] {
          assert seen + t == handed + t';
        }
      }
    }
  }

  /** One step of a traversal: the newest dive stops it when it carries
      the fingerprint; otherwise its payload is handed over, and the rest
      follows unless the callback declines. */
  lemma TraverseStep(dives: seq<Dive>, fp: seq<byte>, accept: seq<seq<byte>> -> bool, seen: seq<seq<byte>>)
    requires dives != []
    ensures dives[0].fingerprint == fp ==> Traverse(dives, fp, accept, seen) == []
    ensures dives[0].fingerprint != fp && !accept(seen + [dives[0].payload]) ==>
      Traverse(dives, fp, accept, seen) == [dives[0].payload]
    ensures dives[0].fingerprint != fp && accept(seen + [dives[0].payload]) ==>
      Traverse(dives, fp, accept, seen) == [dives[0].payload] + Traverse(dives[1..], fp, accept, seen + [dives[0].payload])
  {
  }

  /** With no fingerprint match and a callback that always accepts, every
      payload is handed over, newest first. */
  lemma TraverseAll(dives: seq<Dive>, fp: seq<byte>, accept: seq<seq<byte>> -> bool, seen: seq<seq<byte>>)
    requires forall i | 0 <= i < |dives| :: dives[i].fingerprint != fp
    requires forall s :: accept(s)
    ensures Traverse(dives, fp, accept, seen) == Payloads(dives)
  {
    TraverseSpec(dives, fp, accept, seen);
  }

  /** With a callback that always accepts, a fingerprint equal to the window
      of dive j (and of no newer dive) hands over exactly the j newer dives. */
  lemma TraverseStopsAtFingerprint(dives: seq<Dive>, fp: seq<byte>, accept: seq<seq<byte>> -> bool, seen: seq<seq<byte>>, j: nat)
    requires j < |dives| && dives[j].fingerprint == fp
    requires forall i | 0 <= i < j :: dives[i].fingerprint != fp
    requires forall s :: accept(s)
    ensures Traverse(dives, fp, accept, seen) == Payloads(dives[..j])
  {
    TraverseSpec(dives, fp, accept, seen);
    var t := Traverse(dives, fp, accept, seen);
    assert |t| == j;
    assert Payloads(dives)[..j] == Payloads(dives[..j]);
  }

  /** The state of the backward walk over the profile ring: the dive chain
      from `current` back to `begin` is consistent and spans the `remaining`
      bytes of profile data before `current`; the buffer holds the unrolled
      data from `available` bytes below `current` on; and the payloads
      `handed` over so far, followed by what the traversal of the rest of
      the chain hands over, are the whole traversal `t0`. */
  ghost predicate WalkState(buf: seq<byte>, mem: seq<byte>, h: Header, u: seq<byte>, total: nat, fp: seq<byte>,
                            accept: seq<seq<byte>> -> bool, seen0: seq<seq<byte>>, t0: seq<seq<byte>>,
                            handed: seq<seq<byte>>, current: nat, previous: nat, remaining: nat, available: nat, ndives: nat)
  {
    && |mem| == SZ_MEMORY && |buf| == SZ_MINIMUM + SIZE
    && InRing(h.begin) && total < SIZE && |u| == SIZE && Unrolls(u, mem, h.begin, total)
    && remaining <= total && available <= remaining
    && current == Pos(h.begin, remaining)
    && available <= current - BEGIN
    && ChainOk(u, h.begin, h.count, current, previous, remaining, ndives)
    && buf[SZ_MINIMUM + remaining - available..] == u[remaining - available..]
    && t0 == handed + Traverse(Walk(u, h.begin, h.count, current, previous, remaining, ndives), fp, accept, seen0 + handed)
  }

  /** What fetching the dive that ends at `current` establishes: the
      buffer holds the profile data from the dive's previous pointer on, the
      chain continues from there, and the walk meets the fetched dive first. */
  ghost predicate Fetched(buf: seq<byte>, h: Header, u: seq<byte>, current: nat, previous: nat, remaining: nat,
                          ndives: nat, oprevious: nat, remaining': nat, available': nat, dive: seq<byte>, window: seq<byte>)
  {
    && |buf| == SZ_MINIMUM + SIZE && |u| == SIZE && InRing(h.begin) && remaining < SIZE && current != h.begin
    && ChainOk(u, h.begin, h.count, current, previous, remaining, ndives)
    && remaining' < remaining && available' <= remaining'
    && previous == Pos(h.begin, remaining') && available' <= previous - BEGIN
    && ChainOk(u, h.begin, h.count, previous, oprevious, remaining', ndives + 1)
    && buf[SZ_MINIMUM + remaining' - available'..] == u[remaining' - available'..]
    && Walk(u, h.begin, h.count, current, previous, remaining, ndives)
       == [Dive(previous, Distance(previous, current), dive, window)] + Walk(u, h.begin, h.count, previous, oprevious, remaining', ndives + 1)
  }

  /** The walk moves on to the next older dive: once the buffer holds the
      dive that ended at `current` and its payload has been handed over,
      the state holds again from its previous pointer. */
  lemma WalkStateNext(buf: seq<byte>, buf': seq<byte>, mem: seq<byte>, h: Header, u: seq<byte>, total: nat, fp: seq<byte>,
                      accept: seq<seq<byte>> -> bool, seen0: seq<seq<byte>>, t0: seq<seq<byte>>,
                      handed: seq<seq<byte>>, handed': seq<seq<byte>>, current: nat, previous: nat, remaining: nat,
                      available: nat, ndives: nat, oprevious: nat, remaining': nat, available': nat,
                      dive: seq<byte>, window: seq<byte>)
    requires WalkState(buf, mem, h, u, total, fp, accept, seen0, t0, handed, current, previous, remaining, available, ndives)
    requires Fetched(buf', h, u, current, previous, remaining, ndives, oprevious, remaining', available', dive, window)
    requires handed + Traverse(Walk(u, h.begin, h.count, current, previous, remaining, ndives), fp, accept, seen0 + handed)
      == handed' + Traverse(Walk(u, h.begin, h.count, previous, oprevious, remaining', ndives + 1), fp, accept, seen0 + handed')
    ensures WalkState(buf', mem, h, u, total, fp, accept, seen0, t0, handed', previous, oprevious, remaining', available', ndives + 1)
  {
  }

  /** The walk starts at the header's `end` and `last` pointers with all
      the profile data still to read, nothing buffered (the buffer is
      zeroed) and nothing handed over. */
  lemma WalkStateStart(buf: seq<byte>, mem: seq<byte>, fp: seq<byte>, accept: seq<seq<byte>> -> bool,
                       seen0: seq<seq<byte>>)
    requires ImageWellFormed(mem)
    requires |buf| == SZ_MINIMUM + SIZE && forall i | 0 <= i < |buf| :: buf[i] == 0
    ensures var h := HeaderIn(mem); var total := Distance(h.begin, h.end);
      WalkState(buf, mem, h, Unrolled(mem, h.begin, total), total, fp, accept, seen0,
                Traverse(Dives(mem), fp, accept, seen0), [], h.end, h.last, total, 0, 0)
  {
    var h := HeaderIn(mem);
    var total := Distance(h.begin, h.end);
    var u := Unrolled(mem, h.begin, total);
    DistancePosRoundTrip(h.begin, 0, h.end);
    assert buf[SZ_MINIMUM + total..] == u[total..];
    assert seen0 + [] == seen0;
  }

  /** When the walk reaches `begin`, all the profile data has been read,
      nothing is left over, exactly `count` dives were met, and the payloads
      handed over are the whole traversal. */
  lemma WalkStateDone(buf: seq<byte>, mem: seq<byte>, h: Header, u: seq<byte>, total: nat, fp: seq<byte>,
                      accept: seq<seq<byte>> -> bool, seen0: seq<seq<byte>>, t0: seq<seq<byte>>,
                      handed: seq<seq<byte>>, previous: nat, remaining: nat, available: nat, ndives: nat)
    requires WalkState(buf, mem, h, u, total, fp, accept, seen0, t0, handed, h.begin, previous, remaining, available, ndives)
    ensures remaining == 0 && available == 0 && ndives == h.count && t0 == handed
  {
    DistancePosRoundTrip(h.begin, remaining, h.begin);
  }

  /** What a well-formed image holds: `count` dives, newest first, whose
      sizes add up to the distance from `begin` to `end`; the newest ends at
      `end`, each older one ends where the next newer one starts, and the
      oldest starts at `begin`. */
  lemma DivesOfImage(mem: seq<byte>)
    requires ImageWellFormed(mem)
    ensures var h := HeaderIn(mem); var d := Dives(mem);
      && |d| == h.count
      && Total(d) == Distance(h.begin, h.end)
      && (d == [] <==> h.end == h.begin)
      && (d != [] ==> Pos(d[0].start, d[0].size) == h.end && d[|d| - 1].start == h.begin)
      && (forall i | 0 <= i < |d| - 1 :: Pos(d[i + 1].start, d[i + 1].size) == d[i].start)
      && (forall i | 0 <= i < |d| :: IsRingRun(mem, d[i]))
      && (forall i | 0 <= i < |d| - 1 :: LinksTo(mem, d[i], d[i + 1]))
  {
    var h := HeaderIn(mem);
    var total := Distance(h.begin, h.end);
    var u := Unrolled(mem, h.begin, total);
    DistancePosRoundTrip(h.begin, 0, h.end);
    WalkSizes(u, h.begin, h.count, h.end, h.last, total, 0);
    WalkTiles(u, h.begin, h.count, h.end, h.last, total, 0);
    var d := Walk(u, h.begin, h.count, h.end, h.last, total, 0);
    forall i | 0 <= i < |d|
      ensures IsRingRun(mem, d[i]) && (i + 1 < |d| ==> LinksTo(mem, d[i], d[i + 1]))
    {
      WalkRingAt(u, mem, h.begin, h.count, h.end, h.last, total, 0, i);
    }
  }
}
