/**
 * `AP_ROMFS`: a read-only file store linked into the firmware image.  A
 * generated table of `{filename, contents, size, crc}` entries is searched
 * by exact name (`find_file`), unpacked on demand (`find_decompress`) and
 * listed by directory (`dir_list`).
 *
 * Strings are the characters of a C string without its terminating NUL.
 * The inflate engine and `crc32_small` are not visible to this model; they
 * are taken as parameters.  The allocator's answer (whether `malloc`
 * succeeds) is a parameter too, and a ghost set of live allocations records
 * which buffers the caller owns.
 */
module RomFs {
  import opened Base
  import ArmThumb

  /**
   * `HAL_ROMFS_UNCOMPRESSED`: whether the table holds files as they are
   * (passthrough) rather than compressed.  It is fixed when the firmware is
   * built, so it is a constant of unknown value; every contract covers both.
   */
  const Uncompressed: bool

  /** `TINF_OK`, the inflate engine's success code. */
  const TinfOk := 0

  /** The code the model reports for a failed inflate (`TINF_DATA_ERROR`). */
  const TinfDataError := -3

  /**
   * One `embedded_file` of the table.  In compressed mode `contents` holds
   * a raw deflate stream followed by a four-byte little-endian trailer with
   * the length of the unpacked file, `size` is the length of all that, and
   * `crc` is the CRC-32 of the unpacked, unfiltered file.
   */
  datatype Entry = Entry(filename: string, contents: seq<byte>, size: uint32, crc: uint32)

  /**
   * What the table generator guarantees: the loops count entries in a
   * `uint16_t`, every blob holds the `size` bytes it declares, and in
   * compressed mode every blob is long enough to hold its trailer.
   */
  predicate ValidTable(files: seq<Entry>)
  {
    |files| < 0x1_0000 &&
    forall i | 0 <= i < |files| :: files[i].size <= |files[i].contents| && (!Uncompressed ==> 4 <= files[i].size)
  }

  /** A pointer returned to the caller: none, one into the table, or one it owns. */
  datatype Data = Null | Borrowed(bytes: seq<byte>) | Owned(buf: array<byte>)

  // ---------------------------------------------------------------------
  // find_file

  /** The index of the first entry at or after `i` named `name`. */
  function FirstNamed(files: seq<Entry>, name: string, i: nat): (r: Option<nat>)
    ensures r.Some? ==> i <= r.value < |files| && files[r.value].filename == name
    ensures r.Some? ==> forall k | i <= k < r.value :: files[k].filename != name
    ensures r.None? ==> forall k | i <= k < |files| :: files[k].filename != name
    decreases |files| - i
  {
    if i >= |files| then None
    else if files[i].filename == name then Some(i)
    else FirstNamed(files, name, i + 1)
  }

  /**
   * `find_file`: the contents, size and crc of the first entry named
   * `name`; on a miss, nothing, and `size` and `crc` keep the values the
   * caller had in them.
   */
  method FindFile(files: seq<Entry>, name: string, size: uint32, crc: uint32)
    returns (data: Data, size': uint32, crc': uint32)
    requires |files| < 0x1_0000
    ensures match FirstNamed(files, name, 0)
      case Some(k) => data == Borrowed(files[k].contents) && size' == files[k].size && crc' == files[k].crc
      case None => data == Null && size' == size && crc' == crc
  {
    var i: uint16 := 0;
    while i < |files|
      invariant i <= |files|
      invariant FirstNamed(files, name, i) == FirstNamed(files, name, 0)
      decreases |files| - i
    {
      if name == files[i].filename {
        return Borrowed(files[i].contents), files[i].size, files[i].crc;
      }
      i := i + 1;
    }
    return Null, size, crc;
  }

  // ---------------------------------------------------------------------
  // dir_list

  /**
   * `path` lies in directory `dirname`: it starts with `dirname` and has a
   * `'/'` right after it.  `strncmp` stops at the end of a shorter `path`,
   * so `path` must be longer than `dirname`.
   */
  predicate InDir(path: string, dirname: string)
  {
    |path| > |dirname| && path[..|dirname|] == dirname && path[|dirname|] == '/'
  }

  /** `path` is in `dirname` exactly when `dirname + "/"` is a prefix of it. */
  lemma InDirIsPrefix(path: string, dirname: string)
    ensures InDir(path, dirname) <==> dirname + ['/'] <= path
  {
    if dirname + ['/'] <= path {
      assert path[..|dirname|] == (dirname + ['/'])[..|dirname|];
    }
    if InDir(path, dirname) {
      assert path[..|dirname| + 1] == dirname + ['/'];
    }
  }

  /** The index of the first entry at or after `ofs` that lies in `dirname`. */
  function NextInDir(files: seq<Entry>, dirname: string, ofs: nat): (r: Option<nat>)
    ensures r.Some? ==> ofs <= r.value < |files| && InDir(files[r.value].filename, dirname)
    ensures r.Some? ==> forall k | ofs <= k < r.value :: !InDir(files[k].filename, dirname)
    ensures r.None? ==> forall k | ofs <= k < |files| :: !InDir(files[k].filename, dirname)
    decreases |files| - ofs
  {
    if ofs >= |files| then None
    else if InDir(files[ofs].filename, dirname) then Some(ofs)
    else NextInDir(files, dirname, ofs + 1)
  }

  /**
   * `dir_list`: the name of the first entry at or after the cursor `ofs`
   * that lies in `dirname`, with the cursor moved one past it; or nothing,
   * with the cursor moved to the end of the table (or left where it was if
   * it was already past the end).
   */
  method DirList(files: seq<Entry>, dirname: string, ofs: uint16) returns (path: Option<string>, ofs': uint16)
    requires |files| < 0x1_0000
    ensures match NextInDir(files, dirname, ofs)
      case Some(k) => path == Some(files[k].filename) && ofs' == k + 1
      case None => path == None && ofs' == if ofs < |files| then |files| else ofs
    ensures ofs <= ofs'
  {
    ofs' := ofs;
    while ofs' < |files|
      invariant ofs <= ofs' && (if ofs < |files| then ofs' <= |files| else ofs' == ofs)
      invariant NextInDir(files, dirname, ofs') == NextInDir(files, dirname, ofs)
      decreases |files| - ofs'
    {
      var filename := files[ofs'].filename;
      if |filename| > |dirname| && filename[..|dirname|] == dirname && filename[|dirname|] == '/' {
        return Some(filename), ofs' + 1;
      }
      ofs' := ofs' + 1;
    }
    assert NextInDir(files, dirname, ofs') == None;
    return None, ofs';
  }

  /**
   * The names a caller gets by calling `dir_list` again and again from
   * cursor `ofs` until it answers nothing.
   */
  function Listing(files: seq<Entry>, dirname: string, ofs: nat): seq<string>
    decreases |files| - ofs
  {
    match NextInDir(files, dirname, ofs)
    case None => []
    case Some(k) => [files[k].filename] + Listing(files, dirname, k + 1)
  }

  /** The names in `entries` that lie in `dirname`, in table order. */
  function NamesInDir(entries: seq<Entry>, dirname: string): seq<string>
  {
    if entries == [] then []
    else (if InDir(entries[0].filename, dirname) then [entries[0].filename] else [])
         + NamesInDir(entries[1..], dirname)
  }

  /**
   * Listing a directory from cursor `ofs` yields exactly the names of the
   * entries from `ofs` on that lie in it, each once, in table order.
   */
  lemma {:induction false} ListingIsFilter(files: seq<Entry>, dirname: string, ofs: nat)
    requires ofs <= |files|
    ensures Listing(files, dirname, ofs) == NamesInDir(files[ofs..], dirname)
    decreases |files| - ofs
  {
    if ofs < |files| {
      var rest := files[ofs..];
      assert rest[1..] == files[ofs + 1..];
      ListingIsFilter(files, dirname, ofs + 1);
      if InDir(files[ofs].filename, dirname) {
        assert NextInDir(files, dirname, ofs) == Some(ofs);
      } else {
        assert NextInDir(files, dirname, ofs) == NextInDir(files, dirname, ofs + 1);
      }
    }
  }

  /** Once `dir_list` has answered nothing, it answers nothing again and keeps the cursor. */
  lemma ListingExhausted(files: seq<Entry>, dirname: string, ofs: nat)
    requires NextInDir(files, dirname, ofs).None?
    ensures var end := if ofs < |files| then |files| else ofs;
            NextInDir(files, dirname, end).None? && Listing(files, dirname, end) == []
  {
  }

  // ---------------------------------------------------------------------
  // Memory and the inflate engine

  /**
   * The C heap as far as ownership goes: the blocks `malloc` has handed out
   * and `free` has not taken back.  Whether an allocation succeeds is the
   * allocator's business; it comes in as a parameter.
   */
  class Heap {
    ghost var live: set<object>

    constructor ()
      ensures live == {}
    {
      live := {};
    }

    /** `malloc(n)` for a byte buffer; the contents are not initialised. */
    method MallocBytes(n: nat, succeeds: bool) returns (a: array?<byte>)
      modifies this
      ensures succeeds ==> a != null && fresh(a) && a.Length == n && live == old(live) + {a}
      ensures !succeeds ==> a == null && live == old(live)
    {
      if succeeds {
        a := new byte[n];
        live := live + {a};
      } else {
        a := null;
      }
    }

    /** `malloc(sizeof(TINF_DATA))`. */
    method MallocState(succeeds: bool) returns (d: TinfData?)
      modifies this
      ensures succeeds ==> d != null && fresh(d) && live == old(live) + {d}
      ensures !succeeds ==> d == null && live == old(live)
    {
      if succeeds {
        d := new TinfData;
        live := live + {d};
      } else {
        d := null;
      }
    }

    /** `::free(p)`: the block goes back to the heap. */
    method Release(p: object)
      requires p in live
      modifies this
      ensures live == old(live) - {p}
    {
      live := live - {p};
    }
  }

  /**
   * The inflate engine as the model sees it: given the compressed stream
   * and the size of the destination, either it fails or it reports
   * `TINF_OK` having produced exactly that many bytes.
   */
  type Decoder = f: (seq<byte>, uint32) -> Option<seq<byte>>
    | forall src, n :: f(src, n).Some? ==> |f(src, n).value| == n
    witness (src: seq<byte>, n: uint32) => None

  /**
   * `TINF_DATA`, the state of one inflate run: the compressed bytes between
   * `source` and `source_limit`, and the destination buffer with its size.
   */
  class TinfData {
    var source: seq<byte>
    var dest: array?<byte>
    var destSize: uint32

    /**
     * `uzlib_uncompress(d)`: inflate `source` into the first `destSize`
     * bytes of `dest`; bytes at or after `destSize` are not touched.
     */
    method Uncompress(inflate: Decoder) returns (res: int)
      requires dest != null && destSize <= dest.Length
      modifies dest
      ensures res == TinfOk <==> inflate(source, destSize).Some?
      ensures res == TinfOk ==> dest[..destSize] == inflate(source, destSize).value
      ensures forall k | destSize <= k < dest.Length :: dest[k] == old(dest[k])
    {
      match inflate(source, destSize) {
        case None =>
          res := TinfDataError;
        case Some(out) =>
          forall k | 0 <= k < destSize {
            dest[k] := out[k];
          }
          res := TinfOk;
      }
    }
  }

  // ---------------------------------------------------------------------
  // find_decompress

  /** The trailer of a compressed blob of `size` bytes, read little-endian: the unpacked length. */
  function UnpackedSize(contents: seq<byte>, size: uint32): uint32
    requires 4 <= size <= |contents|
  {
    Le32(contents[size - 4..size])
  }

  /**
   * The file a compressed blob unpacks to: the stream before the trailer
   * is inflated to the trailer's length and run through the filter in the
   * decode direction from position 0; the result counts only if its CRC-32
   * is the stored `crc`.
   */
  function Decompress(contents: seq<byte>, size: uint32, crc: uint32, inflate: Decoder, crc32: seq<byte> -> uint32)
    : (r: Option<seq<byte>>)
    requires 4 <= size <= |contents|
    ensures r.Some? ==> |r.value| == UnpackedSize(contents, size) && crc32(r.value) == crc
  {
    var n := UnpackedSize(contents, size);
    match inflate(contents[..size - 4], n)
    case None => None
    case Some(raw) =>
      var plain := ArmThumb.Scan(raw, n, 0, 0, false);
      if crc32(plain) == crc then Some(plain) else None
  }

  /**
   * The size of the output buffer: the unpacked length plus the zero that
   * follows it, computed without wrap-around.
   */
  function AllocSize(n: uint32): (r: nat)
    ensures n < r
  {
    n as int + 1
  }

  /**
   * The compressed-mode half of `find_decompress`, from the trailer on:
   * a fresh buffer one byte longer than the unpacked file, holding the file
   * and a zero, which the caller then owns; or, if an allocation, inflate
   * or the CRC fails, nothing, with every allocation given back.
   */
  method Unpack(compressed: seq<byte>, compressedSize: uint32, crc: uint32, heap: Heap,
                inflate: Decoder, crc32: seq<byte> -> uint32, bufferAllocates: bool, stateAllocates: bool)
    returns (buf: array?<byte>, n: uint32)
    requires 4 <= compressedSize <= |compressed|
    modifies heap
    ensures n == UnpackedSize(compressed, compressedSize)
    ensures var r := if bufferAllocates && stateAllocates then Decompress(compressed, compressedSize, crc, inflate, crc32) else None;
      if r.None? then buf == null && heap.live == old(heap.live)
      else
        buf != null && fresh(buf) && heap.live == old(heap.live) + {buf} &&
        buf.Length == n + 1 && buf[..n] == r.value && buf[n] == 0
  {
    n := Le32(compressed[compressedSize - 4..compressedSize]);
    buf := heap.MallocBytes(AllocSize(n), bufferAllocates);
    if buf == null {
      return;
    }
    buf[n] := 0;
    var d := heap.MallocState(stateAllocates);
    if d == null {
      heap.Release(buf);
      return null, n;
    }
    d.source := compressed[..compressedSize - 4];
    d.dest := buf;
    d.destSize := n;
    var res := d.Uncompress(inflate);
    heap.Release(d);
    if res != TinfOk {
      heap.Release(buf);
      return null, n;
    }
    ghost var raw := buf[..];
    var _ := ArmThumb.ArmThumbCode(0, false, buf, n);
    ArmThumb.ScanPrefix(raw, n, 0, 0, false);
    ArmThumb.ScanFrame(raw, n, 0, 0, false);
    if crc32(buf[..n]) != crc {
      heap.Release(buf);
      return null, n;
    }
  }

  /**
   * `find_decompress`.  A missing name gives nothing.  In passthrough mode
   * the entry's own bytes are lent out with the stored size.  In compressed
   * mode the result is that of `Unpack` on the entry; any failure leaves
   * `size` alone.
   */
  method FindDecompress(files: seq<Entry>, name: string, size: uint32, heap: Heap,
                        inflate: Decoder, crc32: seq<byte> -> uint32,
                        bufferAllocates: bool, stateAllocates: bool)
    returns (data: Data, size': uint32)
    requires ValidTable(files)
    modifies heap
    ensures FirstNamed(files, name, 0).None? ==> data == Null && size' == size && heap.live == old(heap.live)
    ensures Uncompressed && FirstNamed(files, name, 0).Some? ==>
      var e := files[FirstNamed(files, name, 0).value];
      data == Borrowed(e.contents) && size' == e.size && heap.live == old(heap.live)
    ensures !Uncompressed && FirstNamed(files, name, 0).Some? ==>
      var e := files[FirstNamed(files, name, 0).value];
      var r := if bufferAllocates && stateAllocates then Decompress(e.contents, e.size, e.crc, inflate, crc32) else None;
      if r.None? then data == Null && size' == size && heap.live == old(heap.live)
      else
        data.Owned? && fresh(data.buf) && heap.live == old(heap.live) + {data.buf} &&
        size' == UnpackedSize(e.contents, e.size) && data.buf.Length == size' + 1 &&
        data.buf[..size'] == r.value && data.buf[size'] == 0
  {
    var found, compressedSize, crc := FindFile(files, name, 0, 0);
    if found == Null {
      return Null, size;
    }
    if Uncompressed {
      return found, compressedSize;
    }
    var buf, n := Unpack(found.bytes, compressedSize, crc, heap, inflate, crc32, bufferAllocates, stateAllocates);
    if buf == null {
      return Null, size;
    }
    return Owned(buf), n;
  }

  /**
   * `AP_ROMFS::free`: in compressed mode the buffer goes back to the heap
   * (`free(nullptr)` does nothing); in passthrough mode the pointer is
   * borrowed from the table and nothing happens.
   */
  method Free(heap: Heap, data: Data)
    requires data.Owned? ==> data.buf in heap.live
    requires !Uncompressed ==> !data.Borrowed?
    modifies heap
    ensures heap.live == if !Uncompressed && data.Owned? then old(heap.live) - {data.buf} else old(heap.live)
  {
    if !Uncompressed && data.Owned? {
      heap.Release(data.buf);
    }
  }

  // ---------------------------------------------------------------------
  // What the table generator is expected to write

  /**
   * The entry the table generator writes for a file `plain`: the file is
   * run through the filter in the encode direction from position 0,
   * compressed by `deflate`, and followed by its length; the stored CRC-32
   * is that of `plain` itself.
   */
  function BuildEntry(filename: string, plain: seq<byte>, deflate: seq<byte> -> seq<byte>, crc32: seq<byte> -> uint32)
    : (e: Entry)
    requires |plain| < 0x1_0000_0000
    requires |deflate(ArmThumb.Scan(plain, |plain|, 0, 0, true))| + 4 < 0x1_0000_0000
    ensures 4 <= e.size <= |e.contents|
    ensures UnpackedSize(e.contents, e.size) == |plain|
  {
    var stream := deflate(ArmThumb.Scan(plain, |plain|, 0, 0, true));
    var blob := stream + Le32Bytes(|plain|);
    assert blob[|stream|..|stream| + 4] == Le32Bytes(|plain|);
    Le32Decode(|plain|);
    Entry(filename, blob, |stream| + 4, crc32(plain))
  }

  /**
   * An entry written by the generator unpacks to the original file, given
   * an inflate engine that undoes `deflate`.
   */
  lemma BuildThenDecompress(filename: string, plain: seq<byte>, deflate: seq<byte> -> seq<byte>,
                            inflate: Decoder, crc32: seq<byte> -> uint32)
    requires |plain| < 0x1_0000_0000
    requires |deflate(ArmThumb.Scan(plain, |plain|, 0, 0, true))| + 4 < 0x1_0000_0000
    requires var filtered := ArmThumb.Scan(plain, |plain|, 0, 0, true);
             inflate(deflate(filtered), |plain|) == Some(filtered)
    ensures var e := BuildEntry(filename, plain, deflate, crc32);
            Decompress(e.contents, e.size, e.crc, inflate, crc32) == Some(plain)
  {
    var filtered := ArmThumb.Scan(plain, |plain|, 0, 0, true);
    var e := BuildEntry(filename, plain, deflate, crc32);
    assert e.contents[..e.size - 4] == deflate(filtered);
    ArmThumb.ScanRoundTrip(plain, |plain|, 0, 0, true);
  }

  /** A blob that unpacks under one stored CRC fails under any other. */
  lemma OtherCrcFails(contents: seq<byte>, size: uint32, crc: uint32, other: uint32,
                      inflate: Decoder, crc32: seq<byte> -> uint32)
    requires 4 <= size <= |contents| && other != crc
    requires Decompress(contents, size, crc, inflate, crc32).Some?
    ensures Decompress(contents, size, other, inflate, crc32) == None
  {
  }

  // ---------------------------------------------------------------------
  // The output buffer size as the C code computes it

  /** `decompressed_size + 1` evaluated in `uint32_t`, as the C code does. */
  function AllocSizeAsWritten(n: uint32): uint32
  {
    Wrap32(n + 1)
  }

  /**
   * The buffer the C code allocates has room for the zero at index `n`
   * for every unpacked length but 0xFFFFFFFF, where it is empty.
   */
  lemma AllocSizeAsWrittenHoldsZero(n: uint32)
    ensures n < AllocSizeAsWritten(n) <==> n != 0xFFFF_FFFF
  {
  }

  /** A trailer of four 0xFF bytes makes the C code ask for an empty buffer. */
  lemma AllOnesTrailer()
    ensures UnpackedSize([0xFF, 0xFF, 0xFF, 0xFF], 4) == 0xFFFF_FFFF
    ensures AllocSizeAsWritten(UnpackedSize([0xFF, 0xFF, 0xFF, 0xFF], 4)) == 0
  {
  }
}
