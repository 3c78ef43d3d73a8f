/** Status codes, protocol constants and the command frames of the
    generation-2 protocol, with the plan that splits a long read or write
    into packets. */
module Frames {
  import opened Bytes

  /** device_status_t */
  datatype Status = Success | Unsupported | TypeMismatch | Error | Io | Memory | Protocol | Timeout

  /** The failures a retry may cure: no answer, or a corrupted one. */
  predicate Transient(rc: Status)
  {
    rc == Timeout || rc == Protocol
  }

  const MAXRETRIES: nat := 2
  const SZ_VERSION: nat := 0x04
  const SZ_MEMORY: nat := 0x8000
  const SZ_PACKET: nat := 0x78
  const SZ_MINIMUM: nat := 8
  const FP_OFFSET: nat := 0x15
  /** Length of the fingerprint kept by the device and compared against the
      window at FP_OFFSET of every dive. */
  const FP_SIZE: nat := 4

  datatype Option<T> = None | Some(value: T)

  const VersionCommand: seq<byte> := [0x0F, 0x00, 0x00, 0x0F]
  const ResetMaxDepthCommand: seq<byte> := [0x20, 0x00, 0x00, 0x20]

  /** `(address >> 8) & 0xFF` */
  function High(address: nat): byte
  {
    (address / 0x100 % 0x100) as byte
  }

  /** `address & 0xFF` */
  function Low(address: nat): byte
  {
    (address % 0x100) as byte
  }

  /** The 16-bit device address carried by bytes 3 (high) and 4 (low) of a
      read or write frame. */
  function FrameAddress(cmd: seq<byte>): (a: nat)
    requires |cmd| >= 5
    ensures a < 0x1_0000
  {
    0x100 * cmd[3] as nat + cmd[4] as nat
  }

  /** A frame carries the low 16 bits of the address it was built for. */
  lemma AddressBytes(address: nat)
    ensures 0x100 * High(address) as nat + Low(address) as nat == address % 0x1_0000
  {
    var q := address / 0x100;
    assert address == 0x100 * q + address % 0x100;
    assert q == 0x100 * (q / 0x100) + q % 0x100;
    assert address == 0x1_0000 * (q / 0x100) + (0x100 * (q % 0x100) + address % 0x100);
  }

  /** The read command for `len` bytes at `address`:
      {0x05, 0x00, 0x03, high, low, len, checksum}. */
  function ReadCommand(address: nat, len: nat): (cmd: seq<byte>)
    requires len <= SZ_PACKET
  {
    var header := [0x05, 0x00, 0x03, High(address), Low(address), len as byte];
    header + [Xor(header, 0)]
  }

  /** The write command for `payload` at `address`:
      {0x06, 0x00, len + 3, high, low, len, payload..., checksum}. */
  function WriteCommand(address: nat, payload: seq<byte>): (cmd: seq<byte>)
    requires |payload| <= SZ_PACKET
  {
    var header := [0x06, 0x00, (|payload| + 3) as byte, High(address), Low(address), |payload| as byte];
    header + payload + [Xor(header + payload, 0)]
  }

  lemma ReadCommandLayout(address: nat, len: nat)
    requires len <= SZ_PACKET
    ensures var cmd := ReadCommand(address, len);
      && |cmd| == 7
      && cmd[0] == 0x05 && cmd[1] == 0x00 && cmd[2] == 0x03
      && FrameAddress(cmd) == address % 0x1_0000
      && cmd[5] as nat == len
      && cmd[6] == Xor(cmd[..6], 0)
      && Xor(cmd, 0) == 0
  {
    var cmd := ReadCommand(address, len);
    AddressBytes(address);
    assert cmd[..6] + [cmd[6]] == cmd;
    ChecksumClosesFrame(cmd[..6]);
  }

  lemma WriteCommandLayout(address: nat, payload: seq<byte>)
    requires |payload| <= SZ_PACKET
    ensures var cmd := WriteCommand(address, payload); var len := |payload|;
      && |cmd| == len + 7
      && cmd[0] == 0x06 && cmd[1] == 0x00 && cmd[2] as nat == len + 3
      && FrameAddress(cmd) == address % 0x1_0000
      && cmd[5] as nat == len
      && cmd[6..len + 6] == payload
      && cmd[len + 6] == Xor(cmd[..len + 6], 0)
      && Xor(cmd, 0) == 0
  {
    var cmd := WriteCommand(address, payload);
    var len := |payload|;
    AddressBytes(address);
    assert cmd[..len + 6] + [cmd[len + 6]] == cmd;
    ChecksumClosesFrame(cmd[..len + 6]);
  }

  /** The length of the next packet when `size` bytes are still to go. */
  function ChunkLength(size: nat): (len: nat)
    ensures len <= SZ_PACKET && len <= size
    ensures size > 0 ==> len > 0
    ensures len < size ==> len == SZ_PACKET
  {
    if size > SZ_PACKET then SZ_PACKET else size
  }

  /** The read commands, in order, that transfer `size` bytes from
      `address`: packet i asks for the next ChunkLength bytes after the
      Covered(size, i) bytes the packets before it fetched. */
  function ReadFrames(address: nat, size: nat): (plan: seq<seq<byte>>)
    ensures |plan| == PacketCount(size)
  {
    seq(PacketCount(size), i requires 0 <= i =>
      var lo := Covered(size, i);
      ReadCommand(address + lo, ChunkLength(size - lo)))
  }

  /** The write commands, in order, that store `data` at `address`. */
  function WriteFrames(address: nat, data: seq<byte>): seq<seq<byte>>
    decreases |data|
  {
    if data == [] then []
    else
      var len := ChunkLength(|data|);
      [WriteCommand(address, data[..len])] + WriteFrames(address + len, data[len..])
  }

  /** Number of packets for `size` bytes: ceil(size / SZ_PACKET). */
  function PacketCount(size: nat): nat
  {
    (size + SZ_PACKET - 1) / SZ_PACKET
  }

  /** Bytes covered by the first `k` packets of a `size`-byte transfer. */
  function Covered(size: nat, k: nat): (n: nat)
    ensures n <= size
  {
    if SZ_PACKET * k < size then SZ_PACKET * k else size
  }

  lemma PacketCountStep(size: nat)
    ensures size == 0 ==> PacketCount(size) == 0
    ensures 0 < size <= SZ_PACKET ==> PacketCount(size) == 1
    ensures size > SZ_PACKET ==> PacketCount(size) == PacketCount(size - SZ_PACKET) + 1
  {
  }

  /** The first `k` packets leave bytes over exactly when fewer than
      ceil(size / SZ_PACKET) packets were sent. */
  lemma CoveredCount(size: nat, k: nat)
    ensures Covered(size, k) < size <==> k < PacketCount(size)
  {
  }

  /** Packet k + 1 covers the next ChunkLength of what is left. */
  lemma CoveredNext(size: nat, k: nat)
    requires Covered(size, k) < size
    ensures Covered(size, k + 1) == Covered(size, k) + ChunkLength(size - Covered(size, k))
  {
  }

  /** The first `k + 1` packets cover one packet more than the first `k` of
      what remains after the first. */
  lemma CoveredStep(size: nat, j: nat)
    requires size > SZ_PACKET
    ensures Covered(size, j + 1) == SZ_PACKET + Covered(size - SZ_PACKET, j)
  {
  }

  /** Byte j of a chunked transfer travels in packet j / SZ_PACKET, at
      offset j % SZ_PACKET. */
  lemma ChunkOf(j: nat, k: nat)
    requires SZ_PACKET * k <= j < SZ_PACKET * k + SZ_PACKET
    ensures j / SZ_PACKET == k && j % SZ_PACKET == j - SZ_PACKET * k
  {
  }

  /** The plan is the loop of suunto_common2_read unrolled: nothing for an
      empty read, else a command for the first ChunkLength bytes followed by
      the plan for the rest. */
  lemma ReadFramesUnfold(address: nat, size: nat)
    ensures size == 0 ==> ReadFrames(address, size) == []
    ensures size > 0 ==>
      var len := ChunkLength(size);
      ReadFrames(address, size) == [ReadCommand(address, len)] + ReadFrames(address + len, size - len)
  {
    PacketCountStep(size);
    if size > 0 {
      var len := ChunkLength(size);
      var plan, rest := ReadFrames(address, size), ReadFrames(address + len, size - len);
      assert |plan| == 1 + |rest|;
      forall i | 1 <= i < |plan|
        ensures plan[i] == rest[i - 1]
      {
        assert size > SZ_PACKET;
        CoveredStep(size, i - 1);
      }
      assert plan == [plan[0]] + rest;
    }
  }

  /** A read of at most one packet's worth of bytes is one read command. */
  lemma ReadFramesSingle(address: nat, size: nat)
    requires 0 < size <= SZ_PACKET
    ensures ReadFrames(address, size) == [ReadCommand(address, size)]
  {
    PacketCountStep(size);
    var plan := ReadFrames(address, size);
    assert plan == [plan[0]];
  }

  /** Packet k of a read asks for the next ChunkLength bytes after the
      first Covered(size, k). */
  lemma ReadFramesNext(address: nat, size: nat, k: nat)
    requires Covered(size, k) < size
    ensures k < |ReadFrames(address, size)|
    ensures var lo := Covered(size, k);
      ReadFrames(address, size)[k] == ReadCommand(address + lo, ChunkLength(size - lo))
  {
    CoveredCount(size, k);
  }

  lemma SliceOfSuffix(data: seq<byte>, k: nat, lo: nat, hi: nat)
    requires k <= |data| && lo <= hi <= |data| - k
    ensures data[k..][lo..hi] == data[k + lo..k + hi]
  {
  }

  /** Packet k of a write stores the next ChunkLength bytes after the
      first Covered(|data|, k). */
  lemma WriteNext(address: nat, data: seq<byte>, k: nat, lo: nat, len: nat, at: nat)
    requires lo == Covered(|data|, k) < |data| && len == ChunkLength(|data| - lo) && at == address + lo
    ensures var plan := WriteFrames(address, data);
      && k < |plan|
      && plan[..k + 1] == plan[..k] + [WriteCommand(at, data[lo..lo + len])]
  {
    var plan := WriteFrames(address, data);
    WriteFramesCount(address, data);
    CoveredCount(|data|, k);
    WriteFramesAt(address, data, k);
    CoveredNext(|data|, k);
    assert plan[..k + 1] == plan[..k] + [plan[k]];
  }

  /** A write of `data` takes exactly ceil(|data| / SZ_PACKET) packets. */
  lemma {:induction false} WriteFramesCount(address: nat, data: seq<byte>)
    ensures |WriteFrames(address, data)| == PacketCount(|data|)
    decreases |data|
  {
    PacketCountStep(|data|);
    if data != [] {
      var len := ChunkLength(|data|);
      WriteFramesCount(address + len, data[len..]);
    }
  }

  /** The i-th packet of a write stores
      data[SZ_PACKET * i .. min(|data|, SZ_PACKET * (i + 1))] at
      address + SZ_PACKET * i. */
  lemma {:induction false} WriteFramesAt(address: nat, data: seq<byte>, i: nat)
    requires i < |WriteFrames(address, data)|
    ensures SZ_PACKET * i < |data|
    ensures WriteFrames(address, data)[i] ==
      WriteCommand(address + SZ_PACKET * i, data[Covered(|data|, i)..Covered(|data|, i + 1)])
    decreases i
  {
    var len := ChunkLength(|data|);
    if i > 0 {
      var rest := WriteFrames(address + len, data[len..]);
      assert WriteFrames(address, data)[i] == rest[i - 1];
      WriteFramesAt(address + len, data[len..], i - 1);
      assert |data| > SZ_PACKET;
      CoveredStep(|data|, i);
      CoveredStep(|data|, i - 1);
      var lo, hi := Covered(|data| - len, i - 1), Covered(|data| - len, i);
      assert lo + len == Covered(|data|, i) && hi + len == Covered(|data|, i + 1);
      SliceOfSuffix(data, len, lo, hi);
    }
  }
}
