/**
 * Reading and extending a raw evidence file through its descriptor: each call moves as many bytes
 * as it likes, and the loops make up for it.
 */
module EvidenceFile {

  class File {
    var bytes: seq<bv8>
    /** Some read gave nothing although bytes were left. */
    var stalled: bool
    /** How many more writes may make no progress. */
    var patience: nat
    var tick: nat
    const oracle: nat -> nat

    constructor (bytes: seq<bv8>, oracle: nat -> nat, patience: nat)
      ensures this.bytes == bytes && !stalled && this.oracle == oracle
    {
      this.bytes, stalled, tick, this.oracle, this.patience := bytes, false, 0, oracle, patience;
    }

    /** A positioned read into the buffer: any number of bytes up to those asked for and there. */
    method ReadSync(buf: array<bv8>, off: nat, len: nat, pos: nat) returns (n: nat)
      requires off + len <= buf.Length && pos + len <= |bytes|
      modifies buf, `tick, `stalled
      ensures n <= len
      ensures buf[..off] == old(buf[..off]) && buf[off..off + n] == bytes[pos..pos + n]
      ensures n == 0 && len > 0 ==> stalled
      ensures n > 0 ==> stalled == old(stalled)
    {
      n := oracle(tick) % (len + 1);
      tick := tick + 1;
      if n == 0 {
        stalled := stalled || len > 0;
      }
      forall i | 0 <= i < n {
        buf[off + i] := bytes[pos + i];
      }
    }

    /** A positioned write of at most the bytes given; it may write none, though not for ever. */
    method WriteSync(data: seq<bv8>, pos: nat) returns (n: nat)
      requires data != [] && pos <= |bytes|
      modifies `bytes, `tick, `patience
      ensures n <= |data|
      ensures bytes == old(bytes)[..pos] + data[..n] + if pos + n < |old(bytes)| then old(bytes)[pos + n..] else []
      ensures if n == 0 then patience < old(patience) else patience == old(patience)
    {
      n := oracle(tick) % (|data| + 1);
      tick := tick + 1;
      if n == 0 {
        if patience == 0 {
          n := 1;
        } else {
          patience := patience - 1;
        }
      }
      bytes := bytes[..pos] + data[..n] + if pos + n < |bytes| then bytes[pos + n..] else [];
    }
  }

  /** All bytes of the file, unless a read gave none; always a beginning of it. */
  method BytesOf(file: File) returns (r: seq<bv8>)
    modifies file`tick, file`stalled
    ensures r <= file.bytes
    ensures !file.stalled ==> r == file.bytes
  {
    var size := |file.bytes|;
    var buf := new bv8[size];
    var off := 0;
    while off < size
      invariant off <= size && buf.Length == size && fresh(buf)
      invariant buf[..off] == file.bytes[..off]
      decreases size - off
    {
      ghost var before := buf[..off];
      var n := file.ReadSync(buf, off, size - off, off);
      if n == 0 {
        break;
      }
      assert buf[..off + n] == buf[..off] + buf[off..off + n];
      off := off + n;
    }
    assert off < size ==> file.stalled;
    r := buf[..off];
  }

  /** The bytes are added after the last, all of them, and nothing else changes. */
  method AppendTo(file: File, data: seq<bv8>)
    modifies file`bytes, file`tick, file`patience
    ensures file.bytes == old(file.bytes) + data
  {
    var at := |file.bytes|;
    var off := 0;
    while off < |data|
      invariant off <= |data|
      invariant file.bytes == old(file.bytes) + data[..off]
      decreases |data| - off, file.patience
    {
      var n := file.WriteSync(data[off..], at + off);
      assert data[..off] + data[off..][..n] == data[..off + n];
      off := off + n;
    }
    assert data[..off] == data;
  }

  /** What is appended is read back after what was there. */
  method AppendThenRead(file: File, data: seq<bv8>) returns (r: seq<bv8>)
    modifies file
    ensures r <= old(file.bytes) + data
    ensures !file.stalled ==> r == old(file.bytes) + data
  {
    AppendTo(file, data);
    r := BytesOf(file);
  }
}
