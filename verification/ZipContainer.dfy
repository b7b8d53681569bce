/**
 * The preflight of an uploaded ZIP file: only a bounded tail of the file is read before a ZIP library
 * may touch its central directory. Record layouts are those of sections 4.3.14 to 4.3.16 of APPNOTE.TXT,
 * the ZIP file format specification of PKWARE. Machine integers are newtypes, so that every sum below
 * carries the proof that it does not wrap.
 */
module ZipContainer {
  import opened Wrappers

  newtype Uint64 = x: int | 0 <= x <= U64_MAX
  newtype Int64 = x: int | -I64_MAX - 1 <= x <= I64_MAX

  const END_SIGNATURE := 0x06054b50
  const END64_SIGNATURE := 0x06064b50
  const LOCATOR_SIGNATURE := 0x07064b50
  const END_BYTES := 22
  const SEARCH_BYTES := END_BYTES + 65535
  const MAX_ENTRIES := 10_000
  const MAX_DIRECTORY_BYTES := 64 * 0x10_0000
  const MAX_END64_BYTES := 0x10_0000

  // ---------- little-endian fields ----------

  function Le16(s: Bytes, at: int): (n: nat)
    requires 0 <= at && at + 2 <= |s|
    ensures n <= 0xFFFF
  {
    (s[at] as int) + 256 * (s[at + 1] as int)
  }

  function Le32(s: Bytes, at: int): (n: nat)
    requires 0 <= at && at + 4 <= |s|
    ensures n <= 0xFFFF_FFFF
  {
    Le16(s, at) + 0x1_0000 * Le16(s, at + 2)
  }

  function Le64(s: Bytes, at: int): (n: nat)
    requires 0 <= at && at + 8 <= |s|
    ensures n <= U64_MAX
  {
    Le32(s, at) + 0x1_0000_0000 * Le32(s, at + 4)
  }

  lemma SliceFields(s: Bytes, lo: int, hi: int, at: int)
    requires 0 <= lo <= hi <= |s| && 0 <= at
    ensures at + 2 <= hi - lo ==> Le16(s[lo..hi], at) == Le16(s, lo + at)
    ensures at + 4 <= hi - lo ==> Le32(s[lo..hi], at) == Le32(s, lo + at)
    ensures at + 8 <= hi - lo ==> Le64(s[lo..hi], at) == Le64(s, lo + at)
  {
  }

  // ---------- what an acceptable file looks like ----------

  /** An end record whose comment runs exactly to the end of the file. */
  predicate IsEnd(file: Bytes, at: int)
  {
    0 <= at && at + END_BYTES <= |file| && Le32(file, at) == END_SIGNATURE &&
    at + END_BYTES + Le16(file, at + 20) == |file|
  }

  predicate IsLastEnd(file: Bytes, at: int)
  {
    IsEnd(file, at) && forall later :: at < later < |file| ==> !IsEnd(file, later)
  }

  predicate SaysZip64(file: Bytes, at: int)
    requires IsEnd(file, at)
  {
    Le16(file, at + 8) == 0xFFFF || Le16(file, at + 10) == 0xFFFF ||
    Le32(file, at + 12) == 0xFFFF_FFFF || Le32(file, at + 16) == 0xFFFF_FFFF
  }

  /** A single-disk ZIP64 end record at `z` that fills the space up to its locator, next to the end record. */
  predicate IsEnd64(file: Bytes, at: int, z: int)
    requires IsEnd(file, at)
  {
    var locator := at - 20;
    0 <= z && z + 56 <= locator &&
    Le32(file, locator) == LOCATOR_SIGNATURE && Le32(file, locator + 4) == 0 &&
    Le64(file, locator + 8) == z && Le32(file, locator + 16) == 1 &&
    Le32(file, z) == END64_SIGNATURE && Le64(file, z + 4) <= MAX_END64_BYTES &&
    z + 12 + Le64(file, z + 4) == locator &&
    Le32(file, z + 16) == 0 && Le32(file, z + 20) == 0
  }

  /** A directory within the limits that ends at or before `boundary`, in unbounded arithmetic. */
  predicate FitsBefore(onDisk: int, entries: int, bytes: int, offset: int, boundary: int)
  {
    onDisk == entries <= 10_000 && bytes <= 64 * 1024 * 1024 && offset + bytes <= boundary
  }

  predicate DescribesDirectory(file: Bytes, at: int)
    requires IsEnd(file, at)
  {
    Le16(file, at + 4) == 0 && Le16(file, at + 6) == 0 &&
    if SaysZip64(file, at) then
      at >= 20 && var z := Le64(file, at - 12);
      IsEnd64(file, at, z) &&
      FitsBefore(Le64(file, z + 24), Le64(file, z + 32), Le64(file, z + 40), Le64(file, z + 48), z)
    else
      FitsBefore(Le16(file, at + 8), Le16(file, at + 10), Le32(file, at + 12), Le32(file, at + 16), at)
  }

  predicate Acceptable(file: Bytes)
  {
    exists at :: 0 <= at < |file| && IsLastEnd(file, at) && DescribesDirectory(file, at)
  }

  // ---------- the preflight ----------

  function CheckedEnd(offset: Uint64, size: Uint64): (end: Option<Uint64>)
    ensures end.Some? <==> offset as int + size as int <= U64_MAX
    ensures end.Some? ==> end.value as int == offset as int + size as int
  {
    if size > U64_MAX as Uint64 - offset then None else Some(offset + size)
  }

  /** Exactly `n` bytes at `offset`; a short read is an error. */
  function ReadAt(file: Bytes, offset: int, n: nat): (bytes: Option<Bytes>)
    ensures bytes.Some? <==> 0 <= offset && offset + n <= |file|
    ensures bytes.Some? ==> bytes.value == file[offset..offset + n]
  {
    if 0 <= offset && offset + n <= |file| then Some(file[offset..offset + n]) else None
  }

  /** The scan for the last end record. */
  method FindEnd(tail: Bytes) returns (index: int)
    requires END_BYTES <= |tail| <= SEARCH_BYTES
    ensures index >= 0 ==> IsLastEnd(tail, index)
    ensures index < 0 ==> forall at :: 0 <= at < |tail| ==> !IsEnd(tail, at)
  {
    var i := |tail| - END_BYTES;
    while i >= 0
      invariant -1 <= i <= |tail| - END_BYTES
      invariant forall at :: i < at < |tail| ==> !IsEnd(tail, at)
    {
      if Le32(tail, i) == END_SIGNATURE && i + END_BYTES + Le16(tail, i + 20) == |tail| {
        return i;
      }
      i := i - 1;
    }
    return -1;
  }

  /** The checks on a ZIP64 record, read from a file of which the first `size` bytes count. */
  method ReadZip64(file: Bytes, size: Int64, endOffset: Uint64) returns (record: Option<(Uint64, Bytes)>)
    requires 0 <= size as int <= |file| && IsEnd(file[..size], endOffset as int)
    ensures record.Some? <==>
              endOffset >= 20 && IsEnd64(file[..size], endOffset as int, Le64(file[..size], endOffset as int - 12))
    ensures record.Some? ==>
              var z := Le64(file[..size], endOffset as int - 12);
              record.value.0 as int == z && record.value.1 == file[..size][z..z + 56]
  {
    hide Le16, Le32, Le64;
    if endOffset < 20 { return None; }
    var locatorOffset := endOffset - 20;
    var locator :- ReadAt(file, locatorOffset as int, 20);
    ghost var (whole, l) := (file[..size], locatorOffset as int);
    PrefixSlice(file, size as int, l, l + 20);
    SliceFields(whole, l, l + 20, 0);
    SliceFields(whole, l, l + 20, 4);
    SliceFields(whole, l, l + 20, 8);
    SliceFields(whole, l, l + 20, 16);
    if Le32(locator, 0) != LOCATOR_SIGNATURE || Le32(locator, 4) != 0 || Le32(locator, 16) != 1 { return None; }
    var z := Le64(locator, 8) as Uint64;
    if z as int > I64_MAX || z >= locatorOffset { return None; }
    var record64 := ReadAt(file, z as int, 56);
    if record64.None? { return None; }
    ghost var r := z as int;
    SliceFields(file, r, r + 56, 0);
    SliceFields(file, r, r + 56, 4);
    SliceFields(file, r, r + 56, 16);
    SliceFields(file, r, r + 56, 20);
    PrefixFields(file, size as int, r);
    var recordBytes := Le64(record64.value, 4) as Uint64;
    if Le32(record64.value, 0) != END64_SIGNATURE || recordBytes < 44 || recordBytes as int > MAX_END64_BYTES {
      return None;
    }
    var recordEnd := CheckedEnd(z, 12 + recordBytes);
    if recordEnd != Some(locatorOffset) || Le32(record64.value, 16) != 0 || Le32(record64.value, 20) != 0 {
      return None;
    }
    assert r + 56 <= size as int;
    PrefixSlice(file, size as int, r, r + 56);
    return Some((z, record64.value));
  }

  lemma PrefixSlice(file: Bytes, size: int, lo: int, hi: int)
    requires 0 <= lo <= hi <= size <= |file|
    ensures file[..size][lo..hi] == file[lo..hi]
  {
  }

  lemma PrefixFields(file: Bytes, size: int, z: int)
    requires 0 <= size <= |file| && 0 <= z
    ensures z + 56 <= size ==>
              Le32(file[..size], z) == Le32(file, z) && Le64(file[..size], z + 4) == Le64(file, z + 4) &&
              Le32(file[..size], z + 16) == Le32(file, z + 16) && Le32(file[..size], z + 20) == Le32(file, z + 20)
  {
    hide Le32, Le64;
    if z + 56 <= size {
      SliceFields(file, 0, size, z);
      SliceFields(file, 0, size, z + 4);
      SliceFields(file, 0, size, z + 16);
      SliceFields(file, 0, size, z + 20);
      assert file[0..size] == file[..size];
    }
  }

  /** The checks on the end record `end`, which stands at `endOffset` of the first `size` bytes. */
  method CheckDirectory(file: Bytes, size: Int64, end: Bytes, endOffset: Uint64) returns (ok: bool)
    requires 0 <= size as int <= |file| && IsEnd(file[..size], endOffset as int)
    requires end == file[..size][endOffset as int..endOffset as int + END_BYTES]
    ensures ok <==> DescribesDirectory(file[..size], endOffset as int)
  {
    hide Le16, Le32, Le64, IsEnd64, IsEnd;
    ghost var (whole, e) := (file[..size], endOffset as int);
    assert e + END_BYTES <= |whole| by { EndFits(whole, e); }
    SliceFields(whole, e, e + END_BYTES, 4);
    SliceFields(whole, e, e + END_BYTES, 6);
    SliceFields(whole, e, e + END_BYTES, 8);
    SliceFields(whole, e, e + END_BYTES, 10);
    SliceFields(whole, e, e + END_BYTES, 12);
    SliceFields(whole, e, e + END_BYTES, 16);
    if Le16(end, 4) != 0 || Le16(end, 6) != 0 { return false; }
    var onDisk, entries := Le16(end, 8) as Uint64, Le16(end, 10) as Uint64;
    var bytes, offset := Le32(end, 12) as Uint64, Le32(end, 16) as Uint64;
    var boundary := endOffset;
    if onDisk == 0xFFFF || entries == 0xFFFF || bytes == 0xFFFF_FFFF || offset == 0xFFFF_FFFF {
      assert SaysZip64(whole, e);
      var record := ReadZip64(file, size, endOffset);
      if record.None? { return false; }
      var (z, record64) := record.value;
      ghost var r := z as int;
      End64Fits(whole, e, r);
      SliceFields(whole, r, r + 56, 24);
      SliceFields(whole, r, r + 56, 32);
      SliceFields(whole, r, r + 56, 40);
      SliceFields(whole, r, r + 56, 48);
      onDisk, entries := Le64(record64, 24) as Uint64, Le64(record64, 32) as Uint64;
      bytes, offset := Le64(record64, 40) as Uint64, Le64(record64, 48) as Uint64;
      boundary := z;
    } else {
      assert !SaysZip64(whole, e);
    }
    if onDisk != entries || entries as int > MAX_ENTRIES { return false; }
    if bytes as int > MAX_DIRECTORY_BYTES { return false; }
    var directoryEnd := CheckedEnd(offset, bytes);
    return directoryEnd.Some? && directoryEnd.value <= boundary && directoryEnd.value <= size as Uint64;
  }

  lemma EndFits(file: Bytes, at: int)
    requires IsEnd(file, at)
    ensures 0 <= at && at + END_BYTES <= |file|
  {
  }

  lemma End64Fits(file: Bytes, at: int, z: int)
    requires IsEnd(file, at) && IsEnd64(file, at, z)
    ensures 0 <= z && z + 56 <= |file|
  {
  }

  /** No end record can start before the searched tail, so searching the tail searches the file. */
  lemma EndsAreInTheTail(file: Bytes, tail: int, at: int)
    requires END_BYTES <= tail <= |file| && (tail == |file| || tail == SEARCH_BYTES)
    ensures IsEnd(file, at) <==> IsEnd(file[|file| - tail..], at - (|file| - tail))
  {
    var lo := |file| - tail;
    if 0 <= at && at + END_BYTES <= |file| {
      if lo <= at {
        assert file[lo..] == file[lo..|file|];
        SliceFields(file, lo, |file|, at - lo);
        SliceFields(file, lo, |file|, at - lo + 20);
      } else {
        assert Le16(file, at + 20) <= 0xFFFF;
      }
    }
  }

  /**
   * Accepts exactly the acceptable files, although only a tail of the file and at most two records are
   * read. `size` comes from a separate look at the file, which may since have been cut or extended.
   */
  method Preflight(file: Bytes, size: Int64) returns (ok: bool)
    ensures ok <==> 0 <= size as int <= |file| && Acceptable(file[..size])
  {
    hide Le16, Le32, Le64, IsEnd, DescribesDirectory;
    if size as int < END_BYTES {
      if 0 <= size as int <= |file| { ShortIsUnacceptable(file[..size]); }
      return false;
    }
    var tailSize: Int64 := SEARCH_BYTES as Int64;
    if size < tailSize { tailSize := size; }
    var tail := ReadAt(file, (size - tailSize) as int, tailSize as int);
    if tail.None? { return false; }
    ghost var whole := file[..size];
    ghost var lo := (size - tailSize) as int;
    assert tail.value == whole[lo..];
    var index := FindEnd(tail.value);
    if index < 0 {
      NoEndAnywhere(whole, tailSize as int, tail.value);
      return false;
    }
    EndFits(tail.value, index);
    var endOffset := (size - tailSize) as Uint64 + index as Uint64;
    ghost var e := endOffset as int;
    LastEndOfTail(whole, tailSize as int, index);
    OneLastEnd(whole, e);
    ok := CheckDirectory(file, size, tail.value[index..index + END_BYTES], endOffset);
  }

  lemma LastEndOfTail(file: Bytes, tail: int, index: int)
    requires END_BYTES <= tail <= |file| && (tail == |file| || tail == SEARCH_BYTES)
    requires IsLastEnd(file[|file| - tail..], index)
    ensures IsLastEnd(file, |file| - tail + index)
  {
    hide IsEnd;
    var at := |file| - tail + index;
    EndsAreInTheTail(file, tail, at);
    forall later | at < later < |file| ensures !IsEnd(file, later) {
      EndsAreInTheTail(file, tail, later);
      if index < 0 { OutsideIsNoEnd(file[|file| - tail..], index); }
    }
  }

  lemma NoEndAnywhere(file: Bytes, tail: int, window: Bytes)
    requires END_BYTES <= tail <= |file| && (tail == |file| || tail == SEARCH_BYTES)
    requires window == file[|file| - tail..] && forall at :: 0 <= at < |window| ==> !IsEnd(window, at)
    ensures !Acceptable(file)
  {
    hide IsEnd, DescribesDirectory;
    forall at | 0 <= at < |file| ensures !IsEnd(file, at) {
      EndsAreInTheTail(file, tail, at);
      if at < |file| - tail { OutsideIsNoEnd(window, at - (|file| - tail)); }
    }
  }

  lemma ShortIsUnacceptable(file: Bytes)
    requires |file| < END_BYTES
    ensures !Acceptable(file)
  {
  }

  lemma OutsideIsNoEnd(file: Bytes, at: int)
    requires at < 0
    ensures !IsEnd(file, at)
  {
  }

  lemma OneLastEnd(file: Bytes, at: int)
    requires IsLastEnd(file, at)
    ensures Acceptable(file) <==> DescribesDirectory(file, at)
  {
    assert forall other :: 0 <= other < |file| && IsLastEnd(file, other) ==> other == at;
  }

  // ---------- the same, byte by byte ----------

  /** The number that the bytes write, the least significant first. */
  function Little(bytes: Bytes): nat
  {
    if bytes == [] then 0 else (bytes[0] as int) + 256 * Little(bytes[1..])
  }

  /** The number in `n` bytes at `at`. */
  function Field(file: Bytes, at: int, n: nat): nat
    requires 0 <= at && at + n <= |file|
  {
    Little(file[at..at + n])
  }

  lemma {:induction false} LittleSplits(bytes: Bytes, n: nat)
    requires n <= |bytes|
    ensures Little(bytes) == Little(bytes[..n]) + Power256(n) * Little(bytes[n..])
  {
    if n == 0 {
      assert bytes[0..] == bytes;
    } else {
      assert bytes[..n][1..] == bytes[1..][..n - 1] && bytes[1..][n - 1..] == bytes[n..];
      LittleSplits(bytes[1..], n - 1);
      Distribute(Little(bytes[1..][..n - 1]), Power256(n - 1), Little(bytes[n..]));
    }
  }

  function Power256(n: nat): nat
  {
    if n == 0 then 1 else 256 * Power256(n - 1)
  }

  lemma Distribute(a: int, p: int, b: int)
    ensures 256 * (a + p * b) == 256 * a + (256 * p) * b
  {
  }

  lemma Fields(file: Bytes, at: int)
    requires 0 <= at
    ensures at + 2 <= |file| ==> Le16(file, at) == Field(file, at, 2)
    ensures at + 4 <= |file| ==> Le32(file, at) == Field(file, at, 4)
    ensures at + 8 <= |file| ==> Le64(file, at) == Field(file, at, 8)
  {
    if at + 2 <= |file| { TwoBytes(file, at); }
    if at + 4 <= |file| { FourBytes(file, at); }
    if at + 8 <= |file| {
      FourBytes(file, at);
      FourBytes(file, at + 4);
      LittleSplits(file[at..at + 8], 4);
      assert file[at..at + 8][..4] == file[at..at + 4] && file[at..at + 8][4..] == file[at + 4..at + 8];
      assert Power256(4) == 0x1_0000_0000;
    }
  }

  lemma TwoBytes(file: Bytes, at: int)
    requires 0 <= at && at + 2 <= |file|
    ensures Le16(file, at) == Field(file, at, 2)
  {
    var bytes := file[at..at + 2];
    assert bytes[0] == file[at] && bytes[1..][0] == file[at + 1] && bytes[1..][1..] == [];
    assert Little(bytes[1..]) == (file[at + 1] as int) + 256 * Little([]);
  }

  lemma FourBytes(file: Bytes, at: int)
    requires 0 <= at && at + 4 <= |file|
    ensures Le32(file, at) == Field(file, at, 4)
  {
    TwoBytes(file, at);
    TwoBytes(file, at + 2);
    LittleSplits(file[at..at + 4], 2);
    assert file[at..at + 4][..2] == file[at..at + 2] && file[at..at + 4][2..] == file[at + 2..at + 4];
    assert Power256(2) == 0x1_0000;
  }

  /** Four bytes have the number of their signature exactly when they are the signature. */
  lemma SignatureMeans(file: Bytes, at: int)
    requires 0 <= at && at + 4 <= |file|
    ensures Le32(file, at) == END_SIGNATURE <==> file[at..at + 4] == [0x50, 0x4b, 0x05, 0x06]
    ensures Le32(file, at) == END64_SIGNATURE <==> file[at..at + 4] == [0x50, 0x4b, 0x06, 0x06]
    ensures Le32(file, at) == LOCATOR_SIGNATURE <==> file[at..at + 4] == [0x50, 0x4b, 0x06, 0x07]
  {
    var b := file[at..at + 4];
    assert b == [file[at], file[at + 1], file[at + 2], file[at + 3]];
  }

  /** An end record starts with its signature and ends, with its comment, at the end of the file. */
  lemma EndMeans(file: Bytes, at: int)
    ensures IsEnd(file, at) <==>
            0 <= at && at + 22 <= |file| && file[at..at + 4] == [0x50, 0x4b, 0x05, 0x06] &&
            at + 22 + Field(file, at + 20, 2) == |file|
  {
    hide Le16, Le32;
    if 0 <= at && at + 22 <= |file| {
      SignatureMeans(file, at);
      Fields(file, at + 20);
    }
  }

  /** The ZIP64 records, by the offsets of section 4.3.14 and 4.3.15. */
  predicate Zip64Records(file: Bytes, at: int, z: int)
    requires 20 <= at <= |file|
  {
    0 <= z && z + 56 <= at - 20 &&
    file[at - 20..at - 16] == [0x50, 0x4b, 0x06, 0x07] && Field(file, at - 16, 4) == 0 &&
    Field(file, at - 12, 8) == z && Field(file, at - 4, 4) == 1 &&
    file[z..z + 4] == [0x50, 0x4b, 0x06, 0x06] && Field(file, z + 4, 8) <= 1024 * 1024 &&
    z + 12 + Field(file, z + 4, 8) == at - 20 && Field(file, z + 16, 4) == 0 && Field(file, z + 20, 4) == 0
  }

  lemma Zip64Means(file: Bytes, at: int, z: int)
    requires IsEnd(file, at)
    ensures IsEnd64(file, at, z) <==> 20 <= at && Zip64Records(file, at, z)
  {
    hide Le16, Le32, Le64;
    EndFits(file, at);
    if 0 <= z && z + 56 <= at - 20 {
      SignatureMeans(file, at - 20);
      SignatureMeans(file, z);
      Fields(file, at - 16);
      Fields(file, at - 12);
      Fields(file, at - 4);
      Fields(file, z + 4);
      Fields(file, z + 16);
      Fields(file, z + 20);
    }
  }

  /** The directory that an end record describes, by the offsets of section 4.3.16, or by its ZIP64 record. */
  lemma DirectoryMeans(file: Bytes, at: int)
    requires IsEnd(file, at)
    ensures 0 <= at && at + 22 <= |file|
    ensures DescribesDirectory(file, at) <==>
            Field(file, at + 4, 2) == 0 && Field(file, at + 6, 2) == 0 &&
            if Field(file, at + 8, 2) == 0xFFFF || Field(file, at + 10, 2) == 0xFFFF ||
               Field(file, at + 12, 4) == 0xFFFF_FFFF || Field(file, at + 16, 4) == 0xFFFF_FFFF then
              20 <= at && var z := Field(file, at - 12, 8);
              Zip64Records(file, at, z) &&
              FitsBefore(Field(file, z + 24, 8), Field(file, z + 32, 8), Field(file, z + 40, 8),
                         Field(file, z + 48, 8), z)
            else
              FitsBefore(Field(file, at + 8, 2), Field(file, at + 10, 2), Field(file, at + 12, 4),
                         Field(file, at + 16, 4), at)
  {
    hide Le16, Le32, Le64, IsEnd64, Zip64Records, Field;
    EndFits(file, at);
    Fields(file, at + 4);
    Fields(file, at + 6);
    Fields(file, at + 8);
    Fields(file, at + 10);
    Fields(file, at + 12);
    Fields(file, at + 16);
    if 20 <= at {
      Fields(file, at - 12);
      var z := Field(file, at - 12, 8);
      Zip64Means(file, at, z);
      if Zip64Records(file, at, z) {
        End64Fits(file, at, z);
        Fields(file, z + 24);
        Fields(file, z + 32);
        Fields(file, z + 40);
        Fields(file, z + 48);
      }
    }
  }
}
