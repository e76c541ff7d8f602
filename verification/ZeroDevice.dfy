/** `do_zero_device`: overwrite only what is not zero already. */
module ZeroDevice {
  import opened Bytes
  import opened Faults

  const BLOCK: nat := 4096

  /** pread of n whole bytes into the front of the buffer; the rest of the buffer keeps what it held. */
  method Pread(sys: System, device: array<byte>, buf: array<byte>, n: nat, pos: nat) returns (ok: bool)
    requires buf != device && n <= buf.Length && pos + n <= device.Length
    modifies sys, buf
    ensures sys.failed == old(sys.failed) + if ok then 0 else 1
    ensures ok ==> forall k :: 0 <= k < n ==> buf[k] == device[pos + k]
    ensures ok ==> forall k :: n <= k < buf.Length ==> buf[k] == old(buf[k])
  {
    var failed := sys.Fails();
    ok := !failed;
    if ok {
      forall k | 0 <= k < n {
        buf[k] := device[pos + k];
      }
    }
  }

  /** pwrite of zeros: fails, or writes a non-empty part. */
  method PwriteZeros(sys: System, device: array<byte>, n: nat, pos: nat) returns (r: int)
    requires 0 < n && pos + n <= device.Length
    modifies sys, device
    ensures sys.failed == old(sys.failed) + if r == -1 then 1 else 0
    ensures r == -1 || 1 <= r <= n
    ensures r > 0 ==> forall k :: 0 <= k < device.Length ==>
              device[k] == if pos <= k < pos + r then 0 else old(device[k])
    ensures r == -1 ==> forall k :: 0 <= k < device.Length ==> device[k] == old(device[k])
  {
    var failed := sys.Fails();
    if failed {
      return -1;
    }
    r :| 1 <= r <= n;
    forall k | pos <= k < pos + r {
      device[k] := 0;
    }
  }

  /**
   * It returns 0 iff no call failed, and then every byte is zero, whatever the device and the buffer
   * held before: the test covers the whole buffer, so stale bytes behind a short last block can only
   * cause a needless write.  On any return a byte is either what it was or zero.
   */
  method DoZeroDevice(sys: System, device: array<byte>, buf: array<byte>) returns (r: int)
    requires buf != device && buf.Length == BLOCK
    modifies sys, device, buf
    ensures r == 0 || r == -1
    ensures r == 0 <==> sys.failed == old(sys.failed)
    ensures r == 0 ==> forall k :: 0 <= k < device.Length ==> device[k] == 0
    ensures forall k :: 0 <= k < device.Length ==> device[k] == 0 || device[k] == old(device[k])
  {
    var failed := sys.Fails();             // the size of the device
    if failed {
      return -1;
    }
    failed := sys.Fails();                 // open
    if failed {
      return -1;
    }
    var pos, size := 0, device.Length;
    while pos < size
      invariant 0 <= pos <= size && sys.failed == old(sys.failed)
      invariant forall k :: 0 <= k < pos ==> device[k] == 0
      invariant forall k :: 0 <= k < size ==> device[k] == 0 || device[k] == old(device[k])
    {
      var n := if size - pos > BLOCK then BLOCK else size - pos;
      var ok := Pread(sys, device, buf, n, pos);
      if !ok {
        return -1;
      }
      var zero := IsZero(buf[..], BLOCK);
      if !zero {
        var w := PwriteZeros(sys, device, n, pos);
        if w == -1 {
          return -1;
        }
        pos := pos + w;
      } else {
        forall k | pos <= k < pos + n ensures device[k] == 0 {
          assert buf[..][..BLOCK][k - pos] == 0 && device[pos + (k - pos)] == buf[k - pos];
        }
        pos := pos + n;
      }
    }
    failed := sys.Fails();                 // close
    return if failed then -1 else 0;
  }
}
