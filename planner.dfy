/** Transfer planning: the arithmetic `main` in loader64.c does on the ROM's
    size before anything is streamed. */
module Planner {

  // Sizes are written as literals, as the source does: the upload length is a whole
  // number of 0x10000-byte granules, every data write is `FILE_CHUNK` = 0x8000 bytes,
  // and command frames count lengths in 512-byte blocks.

  /** `crclen`: the size of the CRC-checked region at the start of the cartridge
      space, which has to be filled first when the ROM does not cover it. */
  const CrcLen: nat := 0x100000 + 4096
  /** The largest file size whose padded length still fits the C `int` that holds it. */
  const MaxFileSize: nat := 0x7FFF_0000

  /** The upload length: the file size rounded up to the next multiple of
      0x10000, or the size itself when it already is one. */
  function PaddedLength(fsize: nat): (length: nat)
    ensures length % 0x10000 == 0 && length % 0x8000 == 0
    ensures fsize <= length < fsize + 0x10000
  {
    var length := if (fsize / 0x10000) * 0x10000 != fsize then (fsize / 0x10000) * 0x10000 + 0x10000 else fsize;
    GranulesAreChunks(length);
    length
  }

  /** A whole number of 0x10000-byte granules is a whole number of 0x8000-byte chunks. */
  lemma GranulesAreChunks(m: nat)
    ensures m % 0x10000 == 0 ==> m % 0x8000 == 0
  {
    if m % 0x10000 == 0 {
      var q := m / 0x10000;
      assert m == (2 * q) * 0x8000;
    }
  }

  /** No multiple of 0x10000 that holds the file is shorter than the padded length. */
  lemma PaddedLengthIsLeast(fsize: nat, m: nat)
    requires m % 0x10000 == 0 && fsize <= m
    ensures PaddedLength(fsize) <= m
  {
  }

  /** The padded length equals the size exactly when the size is already aligned;
      in particular an empty file gives 0. */
  lemma PaddedLengthKeepsAligned(fsize: nat)
    ensures PaddedLength(fsize) == fsize <==> fsize % 0x10000 == 0
    ensures PaddedLength(0) == 0
  {
  }

  /** For the file sizes the source handles, the padded length still fits a C `int`. */
  lemma PaddedLengthFitsInt(fsize: nat)
    requires fsize <= MaxFileSize
    ensures PaddedLength(fsize) < 0x8000_0000
  {
    PaddedLengthIsLeast(fsize, MaxFileSize);
  }

  /** The fill step is needed when the upload stops short of the CRC region's end.
      On a whole number of 0x10000-byte granules the 4096 bytes `crclen` adds to
      1 MiB never matter: the test is the same as `length <= 0x100000`. */
  function NeedsFill(length: nat): (b: bool)
    ensures length % 0x10000 == 0 ==> (b <==> length <= 0x100000)
  {
    AlignedPastOneMiB(length);
    length < CrcLen
  }

  /** The next granule boundary after 1 MiB is 0x110000. */
  lemma AlignedPastOneMiB(length: nat)
    ensures length % 0x10000 == 0 && length > 0x100000 ==> length >= 0x110000
  {
    if length % 0x10000 == 0 && length > 0x100000 {
      var q := length / 0x10000;
      assert length == q * 0x10000;
      assert q > 16;
    }
  }

  /** In terms of the file size: the fill step runs exactly for files of at most 1 MiB. */
  lemma NeedsFillIff(fsize: nat)
    ensures NeedsFill(PaddedLength(fsize)) <==> fsize <= 0x100000
  {
    if fsize <= 0x100000 {
      PaddedLengthIsLeast(fsize, 0x100000);
    }
  }

  /** Number of data writes: the loop `for (s = 0; s < length; s += 0x8000)`, on a
      length that is a whole number of chunks, as every padded length is. */
  function ChunkCount(length: nat): (n: nat)
    requires length % 0x8000 == 0
    ensures n * 0x8000 == length
  {
    length / 0x8000
  }

  /** On a padded length the chunks cover it exactly, with no partial chunk, and
      the length is a whole number of 512-byte blocks. */
  lemma ChunksCoverLength(length: nat)
    requires length % 0x10000 == 0
    ensures length % 0x8000 == 0 && ChunkCount(length) * 0x8000 == length
    ensures (length / 512) * 512 == length
  {
    var q := length / 0x10000;
    assert length == 0x10000 * q;
    assert length / 0x8000 == 2 * q;
    assert length / 512 == 128 * q;
  }

  /** The fill command covers the CRC region in whole 512-byte blocks: 0x808 of them. */
  lemma FillBlocksExact()
    ensures CrcLen / 512 == 0x808
    ensures (CrcLen / 512) * 512 == CrcLen
  {
  }

  /** A file of exactly 1 MiB is already aligned: it is sent unpadded as 0x800
      blocks, and it is short of the CRC region, so it is preceded by the fill step. */
  lemma OneMiBScenario()
    ensures PaddedLength(0x100000) == 0x100000
    ensures NeedsFill(PaddedLength(0x100000))
    ensures PaddedLength(0x100000) / 512 == 0x800
  {
  }

  /** A 0x500-byte file is padded to one granule, two chunks, and needs the fill step;
      one byte past 1 MiB already skips it, and so does a file the size of the CRC region. */
  lemma SmallFileScenarios()
    ensures PaddedLength(0x500) == 0x10000 && ChunkCount(0x10000) == 2
    ensures NeedsFill(PaddedLength(0x500))
    ensures PaddedLength(0x100001) == 0x110000 && !NeedsFill(PaddedLength(0x100001))
    ensures PaddedLength(0x100FFF) == 0x110000 && !NeedsFill(PaddedLength(0x100FFF))
    ensures PaddedLength(0x101000) == 0x110000 && !NeedsFill(PaddedLength(0x101000))
    ensures ChunkCount(0x8000) == 1
  {
  }
}
