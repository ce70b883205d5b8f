# AP_ROMFS in Dafny

ArduPilot's AP_ROMFS is a read-only file system compiled into the flight
firmware. It holds a generated table of embedded files. Each entry has a name,
a pointer to its bytes, a stored size and the CRC-32 of the file.

Files are stored in one of two ways, depending on a compile-time flag:

- **Passthrough** (`HAL_ROMFS_UNCOMPRESSED`): an entry's bytes are the file itself.
- **Compressed** (the default): an entry's bytes are a deflate stream followed by
  a 4-byte little-endian trailer, which gives the unpacked length.

Before compression, the build tool runs the file through the ARM Thumb BL
branch filter of the xz/LZMA SDK. The filter turns relative call targets into
absolute ones.

The library offers four operations:

- **Lookup by name** (`find_file`).
- **Lookup plus unpacking** (`find_decompress`). It inflates the stream into a
  fresh heap buffer one byte longer than the file and stores a zero in the
  last byte. It then undoes the branch filter and checks the CRC.
- **Release of such a buffer** (`free`).
- **Directory listing** (`dir_list`). It returns, one per call, the names that
  lie directly or indirectly under a directory, and advances a cursor.

The model is split into three modules:

- `Base` (base.dfy): the C scalar types as bounded integers, `uint32_t` wrap-around, and the little-endian trailer.
- `ArmThumb` (armthumb.dfy): the branch filter. It is an in-place loop over an `array`, proved equal to a recursive specification `Scan` on sequences. That specification is proved:
  - to keep the pattern bits and the set of rewritten windows;
  - to change nothing outside those windows or past `size`;
  - to be undone by the opposite direction.
- `RomFs` (romfs.dfy): the file table, `find_file`, `dir_list`, `find_decompress` and `free`.
  - The heap is a class whose ghost `live` set records which buffers the caller owns.
  - The inflate engine and CRC-32 are function parameters.
  - Whether each `malloc` succeeds is a boolean parameter.
  - The compile-time flag is the constant `Uncompressed`, which has no value, so every proof holds for both builds.

## Model

| member | source | states |
|---|---|---|
| Base.Le32Decode | libraries/AP_ROMFS/AP_ROMFS.cpp:103-105 | reading the four trailer bytes written for a length gives back that length |
| Base.Le32Encode | libraries/AP_ROMFS/AP_ROMFS.cpp:103-105 | every four-byte trailer is the encoding of the value the code reads from it, so the read loses nothing |
| ArmThumb.Offset | libraries/AP_ROMFS/AP_ROMFS.cpp:44-47 | the 22-bit branch field assembled from the four bytes of a BL pair is below 2^22 |
| ArmThumb.RewriteAt | libraries/AP_ROMFS/AP_ROMFS.cpp:58-61 | rewriting a pair keeps the buffer length, changes only the four bytes of the pair, and leaves them still a BL pair (0xF0 and 0xF8 prefixes) |
| ArmThumb.UnpackPack | libraries/AP_ROMFS/AP_ROMFS.cpp:44-61 | reading the field back from the bytes written for `dest` gives `dest` modulo 2^22 |
| ArmThumb.PackUnpack | libraries/AP_ROMFS/AP_ROMFS.cpp:44-61 | writing back the field read from a BL pair reproduces the pair's four bytes |
| ArmThumb.PackLow | libraries/AP_ROMFS/AP_ROMFS.cpp:58-61 | the bytes written depend only on the low 22 bits of `dest` |
| ArmThumb.ConvertMod | libraries/AP_ROMFS/AP_ROMFS.cpp:49-57 | for an even position, the converted field is the offset plus (encoder) or minus (decoder) half the position, modulo 2^22 |
| ArmThumb.EncodeThenDecode | libraries/AP_ROMFS/AP_ROMFS.cpp:49-57 | decoding the encoded field at the same position gives back the original field |
| ArmThumb.DecodeThenEncode | libraries/AP_ROMFS/AP_ROMFS.cpp:49-57 | encoding the decoded field at the same position gives back the original field |
| ArmThumb.ConvertInverse | libraries/AP_ROMFS/AP_ROMFS.cpp:49-57 | the two directions of the conversion undo each other at an even position, in either order |
| ArmThumb.PairInvolution | libraries/AP_ROMFS/AP_ROMFS.cpp:42-61 | rewriting a BL pair in one direction and then in the other at the same position restores the buffer |
| ArmThumb.HereEven | libraries/AP_ROMFS/AP_ROMFS.cpp:53-55 | the position `now_pos + i + 4` is even when `now_pos` and `i` are |
| ArmThumb.ConvertPair | libraries/AP_ROMFS/AP_ROMFS.cpp:44-61 | the four byte stores of one iteration leave the array equal to the pair rewrite of its old contents |
| ArmThumb.ArmThumbCode | libraries/AP_ROMFS/AP_ROMFS.cpp:35-67 | the loop leaves the buffer equal to the filter specification applied to its old contents; the returned index is even, at most `size`, and `i + 4 > size` |
| ArmThumb.ScanFrame | libraries/AP_ROMFS/AP_ROMFS.cpp:41-64 | the filter keeps the length and changes no byte before the start index or at or after `size` |
| ArmThumb.RewriteAtPrefix | libraries/AP_ROMFS/AP_ROMFS.cpp:58-61 | a pair rewrite inside the first `size` bytes commutes with cutting the buffer at `size` |
| ArmThumb.ScanPrefix | libraries/AP_ROMFS/AP_ROMFS.cpp:41-64 | filtering the first `size` bytes of a longer buffer gives the same bytes as filtering the whole buffer up to `size` |
| ArmThumb.RewriteAtReads | libraries/AP_ROMFS/AP_ROMFS.cpp:44-61 | a pair rewrite depends only on the four bytes of the pair |
| ArmThumb.ScanLocal | libraries/AP_ROMFS/AP_ROMFS.cpp:41-64 | the filter's output below `size` depends only on the input below `size` |
| ArmThumb.ScanKeepsHigh5 | libraries/AP_ROMFS/AP_ROMFS.cpp:42-43 | the filter keeps the top five bits of every odd byte it scans, which are the bits the match test reads |
| ArmThumb.ScanKeepsBranchAt | libraries/AP_ROMFS/AP_ROMFS.cpp:42-43 | a window that is a BL pair before filtering is one after, and the converse |
| ArmThumb.ScanRoundTrip | libraries/AP_ROMFS/AP_ROMFS.cpp:41-64 | from an even start and an even `now_pos`, filtering with the decoder undoes filtering with the encoder, and the converse |
| ArmThumb.RestoredPair | libraries/AP_ROMFS/AP_ROMFS.cpp:42-62 | after a rewrite, the next scan step in the opposite direction matches the same window and restores it |
| ArmThumb.MatchedIsBranch | libraries/AP_ROMFS/AP_ROMFS.cpp:41-43 | every window the loop matches is a BL pair that lies inside `size` |
| ArmThumb.MatchedLocal | libraries/AP_ROMFS/AP_ROMFS.cpp:41-43 | which windows the loop matches depends only on the pattern bits |
| ArmThumb.ScanKeepsWindows | libraries/AP_ROMFS/AP_ROMFS.cpp:41-63 | the windows the loop matches on the filtered buffer are exactly those it matched on the original |
| ArmThumb.ScanOutsideWindows | libraries/AP_ROMFS/AP_ROMFS.cpp:41-63 | a byte in no matched window comes out unchanged |
| RomFs.FirstNamed | libraries/AP_ROMFS/AP_ROMFS.cpp:74-81 | the index found names the file, and no earlier entry does; no index means no entry from the start on has the name |
| RomFs.FindFile | libraries/AP_ROMFS/AP_ROMFS.cpp:72-82 | on a hit, returns the first matching entry's bytes, size and crc; on a miss, returns null and leaves size and crc as they were |
| RomFs.InDirIsPrefix | libraries/AP_ROMFS/AP_ROMFS.cpp:168-169 | a name is listed under a directory exactly when the directory name followed by `/` is a prefix of it |
| RomFs.NextInDir | libraries/AP_ROMFS/AP_ROMFS.cpp:167-173 | the index found is at or after the cursor, lies under the directory, and no entry between them does; no index means no entry from the cursor on does |
| RomFs.DirList | libraries/AP_ROMFS/AP_ROMFS.cpp:164-175 | returns the first name at or after the cursor that lies under the directory, with the cursor just past it; otherwise null, with the cursor at the table size or left where it was if already past it; the cursor never decreases |
| RomFs.ListingIsFilter | libraries/AP_ROMFS/AP_ROMFS.cpp:159-175 | repeated calls from a cursor list exactly the names of the remaining entries that lie under the directory, in table order |
| RomFs.ListingExhausted | libraries/AP_ROMFS/AP_ROMFS.cpp:167-174 | once a call returns null, a call from the cursor it leaves behind returns null again and lists nothing more |
| RomFs.Heap.MallocBytes | libraries/AP_ROMFS/AP_ROMFS.cpp:107-110 | an allocation that succeeds gives a fresh array of the requested length, now owned; one that fails gives null and changes nothing |
| RomFs.Heap.MallocState | libraries/AP_ROMFS/AP_ROMFS.cpp:115-119 | the same for the inflate state block |
| RomFs.Heap.Release | libraries/AP_ROMFS/AP_ROMFS.cpp:132-135 | releasing removes exactly that object from the owned set |
| RomFs.TinfData.Uncompress | libraries/AP_ROMFS/AP_ROMFS.cpp:120-130 | reports OK exactly when inflate yields `destSize` bytes, which then fill the start of the destination; bytes past `destSize` are untouched |
| RomFs.Decompress | libraries/AP_ROMFS/AP_ROMFS.cpp:103-144 | a result is accepted only if it has the trailer's length and its CRC-32 equals the stored CRC |
| RomFs.AllocSize | libraries/AP_ROMFS/AP_ROMFS.cpp:107-113 | the output buffer is strictly longer than the unpacked length, so the terminating zero at index `n` fits |
| RomFs.Unpack | libraries/AP_ROMFS/AP_ROMFS.cpp:103-147 | the size comes from the trailer. On success the buffer is fresh and owned, has length size + 1, holds the filtered inflate of the stream without its trailer, and ends in 0. On any allocation, inflate or CRC failure it returns null and everything allocated is released |
| RomFs.FindDecompress | libraries/AP_ROMFS/AP_ROMFS.cpp:90-149 | an absent name gives null and leaves size alone. Passthrough lends the entry's bytes with the stored size. Compressed mode gives an owned, zero-terminated buffer holding the checked file and sets size to its length, or gives null with size untouched and nothing leaked |
| RomFs.Free | libraries/AP_ROMFS/AP_ROMFS.cpp:152-157 | in compressed mode, gives an owned buffer back to the heap; in passthrough mode, does nothing |
| RomFs.BuildEntry | libraries/AP_ROMFS/AP_ROMFS.cpp:103-105 | an entry in the expected build format has at least its 4-byte trailer, and the trailer reads back as the plain file's length |
| RomFs.BuildThenDecompress | libraries/AP_ROMFS/AP_ROMFS.cpp:103-147 | an entry built from a file unpacks back to exactly that file, given an inflate that undoes the build's deflate |
| RomFs.OtherCrcFails | libraries/AP_ROMFS/AP_ROMFS.cpp:141-144 | a blob that unpacks under its stored CRC is rejected under any other CRC |
| RomFs.AllocSizeAsWrittenHoldsZero | libraries/AP_ROMFS/AP_ROMFS.cpp:107-113 | the buffer size as computed in `uint32_t` has room for the zero at index `n` exactly when `n` is not 0xFFFFFFFF |
| RomFs.AllOnesTrailer | libraries/AP_ROMFS/AP_ROMFS.cpp:104-113 | a trailer of four 0xFF bytes gives length 0xFFFFFFFF and a zero-byte allocation |

## Left out

- The inner workings of uzlib, the inflate library (`uzlib_uncompress_init`, `uzlib_uncompress`).
  - The engine is a function parameter: it either yields exactly `destSize` bytes or fails.
  - On failure the model promises nothing about the first `destSize` bytes of the destination, which the C engine may have partly written. The buffer is released either way.
  - The C code treats any status other than `TINF_OK` as failure. The model does the same, so the exact error codes (other than `TinfOk`) are not modelled.
- The inner workings of `crc32_small`: CRC-32 is a function parameter.
- How `malloc` works: whether each allocation succeeds is a boolean parameter, and the byte size of `TINF_DATA` is not modelled.
- The generated table `files[]` and the tool that builds it.
  - `BuildEntry` states the format `find_decompress` expects.
  - The table is a sequence of `Entry` values. `ValidTable` requires fewer than 65536 entries (the loops count with `uint16_t`).
  - `ValidTable` also requires that a compressed entry holds at least its 4-byte trailer and that its stored size does not exceed its bytes. The C code assumes both and does not check them.
- The unused `simple` argument of `armthumb_code`.
- RomFs.FindDecompress, passthrough mode: returns the entry's byte sequence as a borrowed value with the stored size. It does not model a pointer into read-only flash.
- C strings: names are NUL-free character sequences.
  - `strcmp` becomes sequence equality.
  - For `dir_list`, the check on the character at `filename[dlen]` is guarded by `|path| > |dirname|`. In C the prefix match makes that index safe, because it is at most the terminating NUL, which is not `/`.
- The `p[3] << 24` in the trailer read shifts a promoted `int`. For bytes of 0x80 and up this overflows signed arithmetic. The model takes the value the conversion to `uint32_t` then yields, as compilers do.

## Findings

| source | as written | input that shows it | evidently intended | confidence | as-written member | corrected member |
|---|---|---|---|---|---|---|
| libraries/AP_ROMFS/AP_ROMFS.cpp:107-113 | the buffer size `decompressed_size + 1` is computed in `uint32_t`, then the zero is stored at index `decompressed_size` | a compressed entry whose trailer is FF FF FF FF: the size wraps to 0, `malloc(0)` may return a non-null pointer, and the store at index 0xFFFFFFFF is out of bounds | a buffer of `decompressed_size + 1` bytes, with no wrap-around, or a rejection of lengths that do not fit | not executed | RomFs.AllOnesTrailer | RomFs.AllocSize |
