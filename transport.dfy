/** The outside world `main` talks to: the FTDI USB link (libftdi) and the ROM file
    read with `fread`. The link replays a script of device answers and records
    every write it is asked to make. */
module Transport {
  import opened Bytes

  /** What the link observes, in order: a write call with the bytes handed to it,
      the one-second pause after the fill command, the close of the device. */
  datatype Event = Sent(bytes: seq<byte>) | Slept | Closed

  /** The device's side of a session: the result of opening it, the bytes each read
      returns in turn, the result of each write in turn (a write past the end of
      the list transfers everything), and the result of closing it. */
  datatype Script = Script(openResult: int, replies: seq<seq<byte>>, writeResults: seq<int>, closeResult: int)

  /** The answer to the `i`-th read; past the end of the script a read times out empty. */
  function Reply(s: Script, i: nat): (r: seq<byte>)
    ensures i >= |s.replies| ==> r == []
  {
    if i < |s.replies| then s.replies[i] else []
  }

  /** Whether the `i`-th write returns a negative count. */
  predicate Rejected(s: Script, i: nat)
  {
    i < |s.writeResults| && s.writeResults[i] < 0
  }

  /** The FTDI device handle, with `ftdi_write_data`, `ftdi_read_data`, `sleep` and `ftdi_usb_close`. */
  class Link {
    const script: Script
    /** Everything sent so far. */
    var log: seq<Event>
    /** Number of reads and writes made so far. */
    var readCount: nat
    var writeCount: nat

    constructor (script: Script)
      ensures this.script == script
      ensures log == [] && readCount == 0 && writeCount == 0
    {
      this.script := script;
      log, readCount, writeCount := [], 0, 0;
    }

    /** `ftdi_usb_open`: negative on failure. */
    method Open() returns (r: int)
      ensures r == script.openResult
    {
      r := script.openResult;
    }

    /** `ftdi_write_data(buf, len)`: records the first `len` bytes of `buf` and returns
      the scripted count. */
    method Write(buf: array<byte>, len: nat) returns (r: int)
      requires len <= buf.Length
      modifies this`log, this`writeCount
      ensures log == old(log) + [Sent(buf[..len])]
      ensures writeCount == old(writeCount) + 1
      ensures r < 0 <==> Rejected(script, old(writeCount))
      ensures old(writeCount) >= |script.writeResults| ==> r == len
    {
      r := if writeCount < |script.writeResults| then script.writeResults[writeCount] else len;
      log := log + [Sent(buf[..len])];
      writeCount := writeCount + 1;
    }

    /** `ftdi_read_data(buf, max)`: stores at most `max` bytes of the next reply at the
      start of `buf`, leaving the rest of `buf` as it was. */
    method Read(buf: array<byte>, max: nat) returns (r: nat)
      requires max <= buf.Length
      modifies this`readCount, buf
      ensures readCount == old(readCount) + 1
      ensures buf[..] == Put(old(buf[..]), 0, Take(Reply(script, old(readCount)), max))
      ensures r == Min(|Reply(script, old(readCount))|, max)
    {
      var got := Take(Reply(script, readCount), max);
      forall i | 0 <= i < |got| {
        buf[i] := got[i];
      }
      r := |got|;
      readCount := readCount + 1;
    }

    /** `sleep(1)`: no logical effect, only a marker in the log. */
    method Sleep()
      modifies this`log
      ensures log == old(log) + [Slept]
    {
      log := log + [Slept];
    }

    /** `ftdi_usb_close`: negative on failure. */
    method Close() returns (r: int)
      modifies this`log
      ensures log == old(log) + [Closed]
      ensures r == script.closeResult
    {
      log := log + [Closed];
      r := script.closeResult;
    }
  }

  /** The ROM file opened with `fopen(filename, "rb")`: its bytes and the read position. */
  class RomFile {
    const data: seq<byte>
    var pos: nat

    constructor (data: seq<byte>)
      ensures this.data == data && pos == 0
    {
      this.data := data;
      pos := 0;
    }

    /** `fread(buf, 1, buf.Length, fp)`: copies the next bytes of the file, as many as
      fit and remain, to the start of `buf`; the rest of `buf` keeps its old bytes. */
    method Read(buf: array<byte>) returns (n: nat)
      requires pos <= |data|
      modifies this`pos, buf
      ensures n == Min(buf.Length, |data| - old(pos))
      ensures pos == old(pos) + n && pos <= |data|
      ensures buf[..] == Put(old(buf[..]), 0, data[old(pos)..pos])
    {
      n := Min(buf.Length, |data| - pos);
      var got := data[pos..pos + n];
      forall i | 0 <= i < n {
        buf[i] := got[i];
      }
      pos := pos + n;
    }
  }
}
