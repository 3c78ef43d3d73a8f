/** The per-model backend beneath the protocol engine, modelled as a scripted
    oracle: the outcome of every packet exchange comes from a script, and a
    successful exchange is answered by a device whose memory image and version
    bytes the oracle holds. Also the retry policy of the transfer engine,
    stated over such a script. */
module Backend {
  import opened Bytes
  import opened Frames

  /** One byte of a memory image; addresses past the image read as zero. */
  function Peek(mem: seq<byte>, a: nat): byte
  {
    if a < |mem| then mem[a] else 0
  }

  /** `n` bytes of the image from address `a`. */
  function Fetch(mem: seq<byte>, a: nat, n: nat): (r: seq<byte>)
    ensures |r| == n
    ensures a + n <= |mem| ==> r == mem[a..a + n]
  {
    var r := seq(n, i requires 0 <= i < n => Peek(mem, a + i));
    assert forall i | 0 <= i < n :: r[i] == Peek(mem, a + i);
    assert a + n <= |mem| ==> r == mem[a..a + n];
    r
  }

  /** The image with `payload` stored from address `a`; bytes past the image
      are dropped. */
  function Store(mem: seq<byte>, a: nat, payload: seq<byte>): (r: seq<byte>)
    ensures |r| == |mem|
    ensures a + |payload| <= |mem| ==> r == mem[..a] + payload + mem[a + |payload|..]
  {
    seq(|mem|, x requires 0 <= x < |mem| => if a <= x < a + |payload| then payload[x - a] else mem[x])
  }

  /** `s` cut or zero-padded to `n` bytes. */
  function Fit(s: seq<byte>, n: nat): (r: seq<byte>)
    ensures |r| == n
    ensures n <= |s| ==> r == s[..n]
  {
    if n <= |s| then s[..n] else s + seq(n - |s|, _ => 0)
  }

  predicate IsReadCommand(cmd: seq<byte>)
  {
    |cmd| == 7 && cmd[0] == 0x05
  }

  predicate IsWriteCommand(cmd: seq<byte>)
  {
    |cmd| >= 7 && cmd[0] == 0x06 && |cmd| == cmd[5] as nat + 7
  }

  /** The `asize`-byte answer of a correctly working device to `cmd`: a read
      echoes the six header bytes, then the requested memory bytes, then a
      checksum; the version command answers three header bytes, the version
      and a checksum; any other command is echoed. */
  function Answer(mem: seq<byte>, version: seq<byte>, cmd: seq<byte>, asize: nat): (r: seq<byte>)
    ensures |r| == asize
  {
    var body :=
      if IsReadCommand(cmd) then cmd[..6] + Fetch(mem, FrameAddress(cmd), cmd[5] as nat)
      else if cmd == VersionCommand then [0x0F, 0x00, 0x04] + version
      else if |cmd| >= 6 then cmd[..6]
      else cmd;
    Fit(body + [Xor(body, 0)], asize)
  }

  /** The memory image after the device carried out `cmd`. */
  function Effect(mem: seq<byte>, cmd: seq<byte>): (r: seq<byte>)
    ensures |r| == |mem|
  {
    if IsWriteCommand(cmd) then Store(mem, FrameAddress(cmd), cmd[6..|cmd| - 1]) else mem
  }

  /** The payload of the answer to a read command is the addressed memory. */
  lemma ReadAnswer(mem: seq<byte>, version: seq<byte>, address: nat, len: nat)
    requires len <= SZ_PACKET
    ensures Answer(mem, version, ReadCommand(address, len), len + 7)[6..6 + len]
         == Fetch(mem, address % 0x1_0000, len)
    ensures Effect(mem, ReadCommand(address, len)) == mem
  {
    ReadCommandLayout(address, len);
  }

  /** Bytes 3 to 6 of the answer to the version command are the version. */
  lemma VersionAnswer(mem: seq<byte>, version: seq<byte>)
    requires |version| == SZ_VERSION
    ensures Answer(mem, version, VersionCommand, SZ_VERSION + 4)[3..7] == version
    ensures Effect(mem, VersionCommand) == mem
  {
    assert !IsReadCommand(VersionCommand) && !IsWriteCommand(VersionCommand);
    var body := [0x0F, 0x00, 0x04] + version;
    var frame := body + [Xor(body, 0)];
    assert |frame| == SZ_VERSION + 4;
    assert Answer(mem, version, VersionCommand, SZ_VERSION + 4) == Fit(frame, SZ_VERSION + 4) == frame;
    assert frame[3..7] == version;
  }

  /** A write command stores its payload at its address. */
  lemma WriteEffect(mem: seq<byte>, address: nat, payload: seq<byte>)
    requires |payload| <= SZ_PACKET
    ensures Effect(mem, WriteCommand(address, payload)) == Store(mem, address % 0x1_0000, payload)
  {
    var cmd := WriteCommand(address, payload);
    WriteCommandLayout(address, payload);
    assert cmd[6..|cmd| - 1] == payload;
  }

  /** The bytes a chunked read of `size` bytes from `address` collects from
      image `mem`: byte j travels in packet j / SZ_PACKET, which fetches from
      the 16-bit address its frame carries. */
  function ReadImage(mem: seq<byte>, address: nat, size: nat): (r: seq<byte>)
    ensures |r| == size
  {
    seq(size, j requires 0 <= j => Peek(mem, (address + SZ_PACKET * (j / SZ_PACKET)) % 0x1_0000 + j % SZ_PACKET))
  }

  /** The image after a chunked write of `data` at `address`, packet by packet. */
  function WriteImage(mem: seq<byte>, address: nat, data: seq<byte>): (r: seq<byte>)
    ensures |r| == |mem|
    decreases |data|
  {
    if data == [] then mem
    else
      var len := ChunkLength(|data|);
      WriteImage(Store(mem, address % 0x1_0000, data[..len]), address + len, data[len..])
  }

  /** Packet k of a chunked read fetches the bytes that the read places
      from Covered(size, k) on. */
  lemma ReadImageAt(mem: seq<byte>, address: nat, size: nat, k: nat)
    requires Covered(size, k) < size
    ensures var lo := Covered(size, k); var len := ChunkLength(size - lo);
      ReadImage(mem, address, size)[lo..lo + len] == Fetch(mem, (address + lo) % 0x1_0000, len)
  {
    var lo := Covered(size, k);
    var len := ChunkLength(size - lo);
    var image, chunk := ReadImage(mem, address, size)[lo..lo + len], Fetch(mem, (address + lo) % 0x1_0000, len);
    assert lo == SZ_PACKET * k;
    forall o | 0 <= o < len
      ensures image[o] == chunk[o]
    {
      ChunkOf(lo + o, k);
      assert image[o] == ReadImage(mem, address, size)[lo + o];
      assert chunk[o] == Peek(mem, (address + lo) % 0x1_0000 + o);
    }
  }

  /** The image is the loop of suunto_common2_read unrolled: nothing for an
      empty read, else the first packet's bytes followed by the image of the
      rest. */
  lemma ReadImageUnfold(mem: seq<byte>, address: nat, size: nat)
    requires size > 0
    ensures var len := ChunkLength(size);
      ReadImage(mem, address, size) == Fetch(mem, address % 0x1_0000, len) + ReadImage(mem, address + len, size - len)
  {
    var len := ChunkLength(size);
    var image, rest := ReadImage(mem, address, size), ReadImage(mem, address + len, size - len);
    var first := Fetch(mem, address % 0x1_0000, len);
    forall j | 0 <= j < size
      ensures image[j] == (first + rest)[j]
    {
      if j < len {
        ReadImageFirst(mem, address, size, j);
        assert (first + rest)[j] == first[j];
      } else {
        ReadImageLater(mem, address, size, j);
        assert (first + rest)[j] == rest[j - len];
      }
    }
  }

  /** Byte j of the first packet of a read is the byte j after its 16-bit
      address. */
  lemma ReadImageFirst(mem: seq<byte>, address: nat, size: nat, j: nat)
    requires j < size && j < SZ_PACKET
    ensures ReadImage(mem, address, size)[j] == Peek(mem, address % 0x1_0000 + j)
  {
    ChunkOf(j, 0);
  }

  /** Past the first packet, a read is the read of the rest. */
  lemma ReadImageLater(mem: seq<byte>, address: nat, size: nat, j: nat)
    requires SZ_PACKET <= j < size
    ensures ReadImage(mem, address, size)[j] == ReadImage(mem, address + SZ_PACKET, size - SZ_PACKET)[j - SZ_PACKET]
  {
    var q := (j - SZ_PACKET) / SZ_PACKET;
    ChunkOf(j - SZ_PACKET, q);
    ChunkOf(j, q + 1);
    assert address + SZ_PACKET + SZ_PACKET * q == address + SZ_PACKET * (q + 1);
  }

  /** Within the image, a chunked read returns exactly the addressed bytes. */
  lemma ReadImageInRange(mem: seq<byte>, address: nat, size: nat)
    requires |mem| <= 0x1_0000 && address + size <= |mem|
    ensures ReadImage(mem, address, size) == mem[address..address + size]
  {
    var image := ReadImage(mem, address, size);
    forall j | 0 <= j < size
      ensures image[j] == mem[address + j]
    {
      var q := j / SZ_PACKET;
      ChunkOf(j, q);
    }
  }

  /** Within the image, each byte of a chunked write is the data byte written
      there, or the old byte outside the written range. */
  lemma {:induction false} WriteImageAt(mem: seq<byte>, address: nat, data: seq<byte>, x: nat)
    requires |mem| <= 0x1_0000 && address + |data| <= |mem| && x < |mem|
    ensures WriteImage(mem, address, data)[x]
        == if address <= x < address + |data| then data[x - address] else mem[x]
    decreases |data|
  {
    if data != [] {
      var len := ChunkLength(|data|);
      assert address % 0x1_0000 == address;
      var mem' := Store(mem, address, data[..len]);
      assert WriteImage(mem, address, data) == WriteImage(mem', address + len, data[len..]);
      WriteImageAt(mem', address + len, data[len..], x);
      if x < address + len {
        assert mem'[x] == if address <= x then data[..len][x - address] else mem[x];
      } else if x < address + |data| {
        assert data[len..][x - (address + len)] == data[x - address];
      }
    }
  }

  /** Within the image, a chunked write replaces exactly the addressed bytes. */
  lemma WriteImageInRange(mem: seq<byte>, address: nat, data: seq<byte>)
    requires |mem| <= 0x1_0000 && address + |data| <= |mem|
    ensures WriteImage(mem, address, data) == mem[..address] + data + mem[address + |data|..]
  {
    var image, spliced := WriteImage(mem, address, data), mem[..address] + data + mem[address + |data|..];
    forall x | 0 <= x < |mem|
      ensures image[x] == spliced[x]
    {
      WriteImageAt(mem, address, data, x);
      if x < address {
        assert spliced[x] == mem[..address][x];
      } else if x < address + |data| {
        assert spliced[x] == (mem[..address] + data)[x];
      } else {
        assert spliced[x] == mem[address + |data|..][x - address - |data|];
      }
    }
    assert |image| == |spliced|;
  }

  /** Reading back what was written returns it. */
  lemma WriteThenRead(mem: seq<byte>, address: nat, data: seq<byte>)
    requires |mem| <= 0x1_0000 && address + |data| <= |mem|
    ensures ReadImage(WriteImage(mem, address, data), address, |data|) == data
  {
    var mem' := WriteImage(mem, address, data);
    WriteImageInRange(mem, address, data);
    ReadImageInRange(mem', address, |data|);
    assert mem'[address..address + |data|] == data;
  }

  /** A chunked write of at least one full packet stores that packet and
      writes the rest after it. */
  lemma WriteImagePeel(mem: seq<byte>, address: nat, data: seq<byte>, p: nat, q: nat)
    requires SZ_PACKET <= p <= |data| && q == p - SZ_PACKET
    ensures WriteImage(mem, address, data[..p])
        == WriteImage(Store(mem, address % 0x1_0000, data[..SZ_PACKET]), address + SZ_PACKET, data[SZ_PACKET..][..q])
  {
    var d := data[..p];
    assert ChunkLength(|d|) == SZ_PACKET;
    assert d[..SZ_PACKET] == data[..SZ_PACKET];
    assert d[SZ_PACKET..] == data[SZ_PACKET..][..q];
  }

  /** The first packet of a chunked write is a single store. */
  lemma WriteImageFirst(mem: seq<byte>, address: nat, data: seq<byte>, len: nat)
    requires 0 < |data| && len == ChunkLength(|data|)
    ensures WriteImage(mem, address, data[..len]) == Store(mem, address % 0x1_0000, data[..len])
  {
    var d := data[..len];
    assert ChunkLength(|d|) == len && d[..len] == d && d[len..] == [];
  }

  /** Writing the packets that cover `n + len` bytes, `n` being a whole
      number `k` of packets, is writing those that cover `n` bytes and then
      storing the next packet. */
  lemma {:induction false} WriteImageExtend(mem: seq<byte>, address: nat, data: seq<byte>, k: nat, n: nat, len: nat)
    requires n == SZ_PACKET * k && n < |data| && len == ChunkLength(|data| - n)
    ensures WriteImage(mem, address, data[..n + len])
        == Store(WriteImage(mem, address, data[..n]), (address + n) % 0x1_0000, data[n..n + len])
    decreases k, 1
  {
    if k == 0 {
      assert data[..n] == [] && data[n..n + len] == data[..len];
      WriteImageFirst(mem, address, data, len);
    } else {
      WriteImageExtendLater(mem, address, data, k, n, len);
    }
  }

  /** WriteImageExtend past the first packet. */
  lemma {:induction false} WriteImageExtendLater(mem: seq<byte>, address: nat, data: seq<byte>, k: nat, n: nat, len: nat)
    requires 0 < k && n == SZ_PACKET * k && n < |data| && len == ChunkLength(|data| - n)
    ensures WriteImage(mem, address, data[..n + len])
        == Store(WriteImage(mem, address, data[..n]), (address + n) % 0x1_0000, data[n..n + len])
    decreases k, 0
  {
    var m := n - SZ_PACKET;
    assert m == SZ_PACKET * (k - 1);
    var rest := data[SZ_PACKET..];
    var mem' := Store(mem, address % 0x1_0000, data[..SZ_PACKET]);
    WriteImagePeel(mem, address, data, n + len, m + len);
    WriteImagePeel(mem, address, data, n, m);
    WriteImageExtend(mem', address + SZ_PACKET, rest, k - 1, m, len);
    SliceOfSuffix(data, SZ_PACKET, m, m + len);
    assert (address + SZ_PACKET + m) % 0x1_0000 == (address + n) % 0x1_0000;
  }

  /** The outcome of packet exchange number `k` of a script (counted from 0). */
  function Nth(script: seq<Status>, k: nat): Status
  {
    if k < |script| then script[k] else Success
  }

  /** What a transfer came to: how many packets it tried and what it returned. */
  datatype Outcome = Outcome(attempts: nat, status: Status)

  /** The retry policy of suunto_common2_transfer, from exchange `k` of a
      script with `nretries` retries already spent: a success or a failure
      other than TIMEOUT/PROTOCOL ends the transfer at once; a TIMEOUT or
      PROTOCOL is retried while fewer than MAXRETRIES retries have been spent. */
  function Retry(script: seq<Status>, k: nat, nretries: nat): Outcome
    decreases MAXRETRIES - nretries
  {
    var rc := Nth(script, k);
    if rc == Success || !Transient(rc) || nretries >= MAXRETRIES then Outcome(1, rc)
    else
      var o := Retry(script, k + 1, nretries + 1);
      Outcome(o.attempts + 1, o.status)
  }

  /** The retry policy, outcome by outcome: between one and MAXRETRIES + 1
      packets are tried; the status returned is the outcome of the last one;
      every earlier one failed with TIMEOUT or PROTOCOL; and the transfer
      stops before the bound only on a success or a failure that is not
      retried. */
  lemma {:induction false} RetrySpec(script: seq<Status>, k: nat, nretries: nat)
    requires nretries <= MAXRETRIES
    ensures var o := Retry(script, k, nretries);
      && 1 <= o.attempts <= MAXRETRIES + 1 - nretries
      && o.status == Nth(script, k + o.attempts - 1)
      && (forall j | k <= j < k + o.attempts - 1 :: Transient(Nth(script, j)))
      && (o.attempts < MAXRETRIES + 1 - nretries ==> !Transient(o.status))
    decreases MAXRETRIES - nretries
  {
    var rc := Nth(script, k);
    if rc == Success || !Transient(rc) || nretries >= MAXRETRIES {
      assert Retry(script, k, nretries) == Outcome(1, rc);
    } else {
      var o := Retry(script, k, nretries);
      var o' := Retry(script, k + 1, nretries + 1);
      assert o == Outcome(o'.attempts + 1, o'.status);
      RetrySpec(script, k + 1, nretries + 1);
      forall j | k <= j < k + o.attempts - 1
        ensures Transient(Nth(script, j))
      {
        if j > k {
          assert k + 1 <= j < k + 1 + o'.attempts - 1;
        }
      }
    }
  }

  /** After `n` TIMEOUT/PROTOCOL outcomes the policy continues from exchange
      `k + n`, with `n` more retries spent. */
  lemma {:induction false} RetryAfter(script: seq<Status>, k: nat, n: nat, m: nat)
    requires m + n <= MAXRETRIES
    requires forall j | k <= j < k + n :: Transient(Nth(script, j))
    ensures var o := Retry(script, k + n, m + n);
      Retry(script, k, m) == Outcome(o.attempts + n, o.status)
    decreases n
  {
    if n > 0 {
      assert Transient(Nth(script, k));
      RetryAfter(script, k + 1, n - 1, m + 1);
    }
  }

  /** A transfer that meets no failure tries one packet and succeeds; one
      whose first failure is not TIMEOUT or PROTOCOL returns it untried. */
  lemma RetryFirstOutcome(script: seq<Status>)
    ensures !Transient(Nth(script, 0)) ==> Retry(script, 0, 0) == Outcome(1, Nth(script, 0))
  {
  }

  /** `n` timeouts followed by a success: transparent for up to MAXRETRIES
      timeouts, a TIMEOUT after MAXRETRIES + 1 of them. */
  lemma TimeoutsThenSuccess(n: nat)
    ensures var o := Retry(seq(n, _ => Timeout) + [Success], 0, 0);
      && (n <= MAXRETRIES ==> o == Outcome(n + 1, Success))
      && (n > MAXRETRIES ==> o == Outcome(MAXRETRIES + 1, Timeout))
  {
    var s := seq(n, _ => Timeout) + [Success];
    assert n > 0 ==> Nth(s, 0) == Timeout;
    assert n > 1 ==> Nth(s, 1) == Timeout;
    assert n > 2 ==> Nth(s, 2) == Timeout;
    assert Nth(s, n) == Success;
  }

  /** What a run of transfers came to: how many packets they tried, how
      many transfers succeeded, and the status the run ends with. */
  datatype Run = Run(attempts: nat, done: nat, status: Status)

  /** `n` transfers in a row from exchange `a` of a script, each under the
      retry policy, stopped by the first that fails: the run returns that
      transfer's status, or SUCCESS when all `n` went through. This is how
      the packet loops of suunto_common2_read and suunto_common2_device_write
      and the reads of suunto_common2_device_foreach use the transfer. */
  function Transfers(script: seq<Status>, a: nat, n: nat): (r: Run)
    ensures r.done <= n
    ensures r.status == Success <==> r.done == n
    ensures r.done <= r.attempts
    decreases n
  {
    if n == 0 then Run(0, 0, Success)
    else
      var o := Retry(script, a, 0);
      if o.status != Success then Run(o.attempts, 0, o.status)
      else
        var r := Transfers(script, a + o.attempts, n - 1);
        Run(o.attempts + r.attempts, r.done + 1, r.status)
  }

  /** A run of one transfer is the retry policy's outcome. */
  lemma TransfersOne(script: seq<Status>, a: nat)
    ensures var o := Retry(script, a, 0);
      Transfers(script, a, 1) == Run(o.attempts, if o.status == Success then 1 else 0, o.status)
  {
    var o := Retry(script, a, 0);
    RetrySpec(script, a, 0);
    assert Transfers(script, a + o.attempts, 0) == Run(0, 0, Success);
  }

  /** After `m` transfers that all went through, a run of `m + n` continues
      as a run of `n` from the exchange after them. */
  lemma {:induction false} TransfersThen(script: seq<Status>, a: nat, m: nat, n: nat)
    requires Transfers(script, a, m).done == m
    ensures var r := Transfers(script, a, m);
      var t := Transfers(script, a + r.attempts, n);
      Transfers(script, a, m + n) == Run(r.attempts + t.attempts, m + t.done, t.status)
    decreases m
  {
    if m > 0 {
      var o := Retry(script, a, 0);
      assert o.status == Success;
      TransfersThen(script, a + o.attempts, m - 1, n);
    }
  }

  /** A run stopped by a failing transfer stays stopped: planning more
      transfers after it changes nothing. */
  lemma {:induction false} TransfersStop(script: seq<Status>, a: nat, m: nat, n: nat)
    requires m <= n && Transfers(script, a, m).done < m
    ensures Transfers(script, a, n) == Transfers(script, a, m)
    decreases m
  {
    var o := Retry(script, a, 0);
    if o.status == Success {
      TransfersStop(script, a + o.attempts, m - 1, n - 1);
    }
  }

  /** A failing run fails with the outcome of the last packet it tried,
      and every transfer before the failing one went through. */
  lemma {:induction false} TransfersLast(script: seq<Status>, a: nat, n: nat)
    ensures var r := Transfers(script, a, n);
      r.status != Success ==> 0 < r.attempts && r.status == Nth(script, a + r.attempts - 1)
    decreases n
  {
    if n > 0 {
      var o := Retry(script, a, 0);
      RetrySpec(script, a, 0);
      if o.status == Success {
        TransfersLast(script, a + o.attempts, n - 1);
      }
    }
  }

  /** What an operation did to the transport, from exchange `a` to
      exchange `b`, when the commands answered went from `before` to
      `after` and it returned `rc`: the answered commands were only added
      to, one per transfer that went through; with a packet function the
      packets tried are exactly those of that run of transfers, plus the one
      that failed when `rc` is a failure; without one, no packet at all, and
      UNSUPPORTED unless no transfer was needed. */
  ghost predicate Ran<T>(hasPacket: bool, script: seq<Status>, a: nat, b: nat, before: seq<T>, after: seq<T>, rc: Status)
  {
    && before <= after
    && var done := |after| - |before|;
       if hasPacket then
         a <= b && Transfers(script, a, if rc == Success then done else done + 1) == Run(b - a, done, rc)
       else
         a == b && done == 0 && (rc == Success || rc == Unsupported)
  }

  /** A run of `d1` transfers from exchange `a` that all went through,
      followed by a run of `more` from where it ended, is one run. */
  lemma TransfersJoin(script: seq<Status>, a: nat, b: nat, c: nat, d1: nat, d2: nat, more: nat, rc: Status)
    requires a <= b && Transfers(script, a, d1) == Run(b - a, d1, Success)
    requires b <= c && Transfers(script, b, more) == Run(c - b, d2, rc)
    ensures Transfers(script, a, d1 + more) == Run(c - a, d1 + d2, rc)
  {
    TransfersThen(script, a, d1, more);
  }

  /** Two operations in a row, the first of which succeeded, ran the
      transfers of both. */
  lemma RanThen<T>(hasPacket: bool, script: seq<Status>, a: nat, b: nat, c: nat,
                   s0: seq<T>, s1: seq<T>, s2: seq<T>, rc: Status)
    requires Ran(hasPacket, script, a, b, s0, s1, Success) && Ran(hasPacket, script, b, c, s1, s2, rc)
    ensures Ran(hasPacket, script, a, c, s0, s2, rc)
  {
    if hasPacket {
      var d1, d2 := |s1| - |s0|, |s2| - |s1|;
      var more := if rc == Success then d2 else d2 + 1;
      TransfersJoin(script, a, b, c, d1, d2, more, rc);
      assert (if rc == Success then |s2| - |s0| else |s2| - |s0| + 1) == d1 + more;
    }
  }

  /** An operation that fails with a packet function fails with the
      outcome of the last packet it tried. */
  lemma RanLast<T>(script: seq<Status>, a: nat, b: nat, before: seq<T>, after: seq<T>, rc: Status)
    requires Ran(true, script, a, b, before, after, rc) && rc != Success
    ensures a < b && rc == Nth(script, b - 1)
  {
    TransfersLast(script, a, |after| - |before| + 1);
  }

  /** An operation planned as `n` transfers in a row, which succeeds
      exactly when all of them went through, tried exactly the packets of
      those `n` transfers run under the retry policy, up to the first that
      failed. */
  lemma RanPlan<T>(script: seq<Status>, a: nat, b: nat, before: seq<T>, after: seq<T>, rc: Status, n: nat)
    requires Ran(true, script, a, b, before, after, rc)
    requires |after| - |before| <= n && (rc == Success <==> |after| - |before| == n)
    ensures Transfers(script, a, n) == Run(b - a, |after| - |before|, rc)
  {
    var done := |after| - |before|;
    if rc != Success {
      TransfersStop(script, a, done + 1, n);
    }
  }

  /** The backend's packet exchange, scripted. */
  class Transport {
    /** Whether the backend provides a packet function at all. */
    const hasPacket: bool
    /** The four version bytes the device reports. */
    const version: seq<byte>
    /** The device's memory image. */
    var memory: seq<byte>
    /** Outcomes of the packet exchanges, in order from the first; past its
        end every exchange succeeds. */
    const script: seq<Status>
    /** Packet exchanges tried so far: the next one has outcome
        Nth(script, attempts). */
    var attempts: nat
    /** Commands the device has answered successfully, in order. */
    var answered: seq<seq<byte>>

    ghost predicate Valid()
      reads this
    {
      |memory| == SZ_MEMORY && |version| == SZ_VERSION
    }

    /** No failure is left in the script: every exchange from now on
        succeeds. */
    predicate Clean()
      reads this
    {
      |script| <= attempts
    }

    constructor(hasPacket: bool, version: seq<byte>, memory: seq<byte>, script: seq<Status>)
      requires |memory| == SZ_MEMORY && |version| == SZ_VERSION
      ensures Valid()
      ensures this.hasPacket == hasPacket && this.version == version
      ensures this.memory == memory && this.script == script
      ensures attempts == 0 && answered == []
    {
      this.hasPacket := hasPacket;
      this.version := version;
      this.memory := memory;
      this.script := script;
      attempts := 0;
      answered := [];
    }

    /** One exchange: send `command`, receive an `asize`-byte answer holding
        `size` payload bytes. */
    method Packet(command: seq<byte>, asize: nat, size: nat) returns (rc: Status, answer: seq<byte>)
      requires Valid() && hasPacket
      modifies this
      ensures Valid()
      ensures attempts == old(attempts) + 1 && rc == Nth(script, old(attempts))
      ensures |answer| == asize
      ensures rc == Success ==>
        && answer == Answer(old(memory), version, command, asize)
        && memory == Effect(old(memory), command)
        && answered == old(answered) + [command]
      ensures rc != Success ==> memory == old(memory) && answered == old(answered)
    {
      rc := Nth(script, attempts);
      attempts := attempts + 1;
      if rc == Success {
        answer := Answer(memory, version, command, asize);
        memory := Effect(memory, command);
        answered := answered + [command];
      } else {
        answer := seq(asize, _ => 0);
      }
    }
  }
}
