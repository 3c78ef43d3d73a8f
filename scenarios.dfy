/** Whole operations against concrete scripts: what the retry policy of
    suunto_common2_transfer does to a read or a write of one packet. */
module Scenarios {
  import opened Bytes
  import opened Frames
  import opened Backend
  import opened Common2

  /** Two timeouts are retried; the third exchange's I/O error is not, and
      the read returns it. */
  method ReadTimeoutsThenIo(mem: seq<byte>, version: seq<byte>, script: seq<Status>) returns (rc: Status)
    requires |mem| == SZ_MEMORY && |version| == SZ_VERSION
    requires Nth(script, 0) == Timeout && Nth(script, 1) == Timeout && Nth(script, 2) == Io
    ensures rc == Io
  {
    var transport := new Transport(true, version, mem, script);
    var device := new Device(transport);
    var data := new byte[8](_ => 0);
    rc := device.Read(0, data, 0, 8, null);
    ReadFramesSingle(0, 8);
    TransfersOne(script, 0);
    assert Retry(script, 2, 2) == Outcome(1, Io);
    assert Retry(script, 0, 0) == Outcome(3, Io);
  }

  /** Two timeouts are retried and the third exchange goes through: the
      read succeeds with the addressed bytes. */
  method ReadTimeoutsThenSuccess(mem: seq<byte>, version: seq<byte>, script: seq<Status>) returns (rc: Status, bytes: seq<byte>)
    requires |mem| == SZ_MEMORY && |version| == SZ_VERSION
    requires Nth(script, 0) == Timeout && Nth(script, 1) == Timeout && Nth(script, 2) == Success
    ensures rc == Success && bytes == mem[..8]
  {
    var transport := new Transport(true, version, mem, script);
    var device := new Device(transport);
    var data := new byte[8](_ => 0);
    rc := device.Read(0, data, 0, 8, null);
    ReadFramesSingle(0, 8);
    TransfersOne(script, 0);
    assert Retry(script, 2, 2) == Outcome(1, Success);
    assert Retry(script, 0, 0) == Outcome(3, Success);
    bytes := data[..];
    ReadImageInRange(mem, 0, 8);
  }

  /** Three timeouts exhaust the retries: the read returns TIMEOUT. */
  method ReadTimeoutsExhausted(mem: seq<byte>, version: seq<byte>, script: seq<Status>) returns (rc: Status)
    requires |mem| == SZ_MEMORY && |version| == SZ_VERSION
    requires Nth(script, 0) == Timeout && Nth(script, 1) == Timeout && Nth(script, 2) == Timeout
    ensures rc == Timeout
  {
    var transport := new Transport(true, version, mem, script);
    var device := new Device(transport);
    var data := new byte[8](_ => 0);
    rc := device.Read(0, data, 0, 8, null);
    ReadFramesSingle(0, 8);
    TransfersOne(script, 0);
    assert Retry(script, 2, 2) == Outcome(1, Timeout);
    assert Retry(script, 0, 0) == Outcome(3, Timeout);
  }

  /** Three timeouts exhaust the retries of a write's only packet: the
      write returns TIMEOUT and the memory is untouched. */
  method WriteTimeoutsExhausted(mem: seq<byte>, version: seq<byte>, script: seq<Status>) returns (rc: Status, after: seq<byte>)
    requires |mem| == SZ_MEMORY && |version| == SZ_VERSION
    requires Nth(script, 0) == Timeout && Nth(script, 1) == Timeout && Nth(script, 2) == Timeout
    ensures rc == Timeout && after == mem
  {
    var transport := new Transport(true, version, mem, script);
    var device := new Device(transport);
    rc := device.DeviceWrite(0, [1, 2, 3]);
    WriteFramesCount(0, [1, 2, 3]);
    TransfersOne(script, 0);
    assert Retry(script, 2, 2) == Outcome(1, Timeout);
    assert Retry(script, 0, 0) == Outcome(3, Timeout);
    after := transport.memory;
  }
}
