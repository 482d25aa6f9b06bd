# ROMFS driver model

A Dafny model of the read-only ROM file system of `src/romfs.c`. A ROMFS
image is a flat byte array of records. Each record has a 12-byte
little-endian header (file hash, body length, directory hash), then a
NUL-terminated name, then the file content. A header whose file hash or body
length is zero ends the image. The scan loops test the file hash and then the
body length, so of that sentinel they read four bytes when its file hash is
zero and eight otherwise, and never its directory hash. The driver finds files and directory entries
by scanning this chain. It keeps three global tables: the open-file slots
(`romfs_fds`), one directory snapshot table (`romfs_dirent`, `DIR_LEN`
entries, each with a `FILE_NAME_LEN`-byte name buffer, both 128 in
`include/romfs.h`) and the directory slots (`romfs_dirs`).

- `rom_image.dfy` (module `RomImage`) covers the pure part:
  - little-endian words and their round trip;
  - the record walk (`RecordsFrom`, `Records`) and its shape;
  - names and contents of records;
  - the file lookup (`FindFile`);
  - the names listed for a directory hash (`DirNames`).
- `romfs.dfy` (module `RomFs`) covers the driver state:
  - the `FileSlot` class with `Read` and `Seek`;
  - the snapshot entries and the `DirSlot` class;
  - the `Mount` class, which owns the three tables and has `Open`,
    `GetAllFilenameByHash`, `OpenDir`, `DirNext` and `DirClose`.

  Each loop of the C code is a `while` loop here. Each loop is proved against
  a specification function with lemmas about it: `ScanFrom` and `Filled` for
  the directory scan, `ClosedTo` for `romfs_dir_close`, and `FindFile` for the
  file lookup.

Pointers into the image are offsets into the image sequence. The opaque
pointer that the C code hands to read/seek/readdir/closedir is the slot
object itself.

Quirks of the C code are modelled as written, or excluded by a precondition.
None is silently corrected:

- `romfs_dir_next` stops only once `start + cur_off > end`. `romfs_opendir`
  sets `end = matched`, so a listing serves the entry one past the last name
  it copied.
- `romfs_dir_next` copies up to `bufsize` bytes of the name and then writes a
  NUL after them. That can be one byte past `bufsize`, and two bytes when
  `bufsize` is 0.
- `romfs_dir_close` clears the entries `start..end`, both included. It zeroes
  `d_ino` and `d_name[1..]` and keeps `d_name[0]`.
- The inner loop of `romfs_dir_close` also writes `d_name[FILE_NAME_LEN]`. In
  the model this write clears the low byte of the `d_ino` of the next entry,
  since the structs are contiguous and little-endian.
- `romfs_dir_next` returns 0 once the listing is over, and also for a name of
  length 0 or a `bufsize` of 0 or 1, so 0 does not mark the end by itself.
- `romfs_get_all_filename_by_hash` has no capacity check. `strcpy` can
  overflow a name buffer, and the scan index can run past `DIR_LEN`. Both are
  excluded by preconditions. The ghost `ScanFrom` returns `None` on those
  paths.
- `romfs_opendir` of a directory with no names returns handle 0 and sets up
  no slot; it reports no error.

## Model

| member | source | states |
|---|---|---|
| RomImage.GetUnalignedDigits | src/romfs.c:38-40 | the four bytes at `p` are the base-256 digits of the decoded word, lowest first (little-endian) |
| RomImage.DecodeEncode | src/romfs.c:38-40 | decoding the four little-endian bytes of any 32-bit word gives back that word |
| RomImage.EncodeDecode | src/romfs.c:38-40 | encoding the decoded word gives back the four bytes it was read from |
| RomImage.RecordsFrom | src/romfs.c:153 | when the walk stays inside the image, the bytes the loop test reads at its first header lie inside the image too, and the walk is empty exactly when that header is a sentinel |
| RomImage.RecordsFromIsWalk | src/romfs.c:153 | the offsets the scan loop visits start at the given offset, step by `body_len + 12` through non-sentinel headers, end at a sentinel inside the image, and each record ends before the next one and before the sentinel |
| RomImage.WalkIsRecordsFrom | src/romfs.c:153 | conversely, any such chain of headers is exactly what the loop visits, so the walk is determined by the headers |
| RomImage.RecordsShape | src/romfs.c:153 | the walk from the image start begins at offset 0, ends at the sentinel header, and keeps every record body before it |
| RomImage.RecordsIncreasing | src/romfs.c:153 | the loop visits strictly increasing offsets, so it never visits a record twice |
| RomImage.TailIgnored | src/romfs.c:153 | bytes after those the loop test reads at the sentinel are never examined: two images that agree up to there have the same records |
| RomImage.CutAfterSentinel | src/romfs.c:153 | any walkable image cut right after the bytes the loop test reads at its sentinel is still walked completely, with the same records, since the sentinel's directory hash and anything after it are never read |
| RomImage.ShortSentinels | src/romfs.c:153 | an example: the one-record image with file hash 1, body length 3, name "a" and content "x", followed by four zero bytes, or by a non-zero file hash and a zero body length, is walked completely |
| RomImage.WalkStep | src/romfs.c:121 | at each loop head, the loop condition fails exactly at the sentinel; otherwise the current header is the next record and `meta += body_len + 12` continues the same walk |
| RomImage.RecordFits | src/romfs.c:153 | every visited record's header and body end before the sentinel, whose tested bytes lie inside the image |
| RomImage.NameLen | src/romfs.c:178 | the length found ends at a NUL inside the image |
| RomImage.NameLenFirst | src/romfs.c:178 | the length found is the distance to the first NUL, and no NUL means none is found before the end of the image |
| RomImage.NameLenAt | src/romfs.c:178 | a NUL at `p + n` with none before it makes the length exactly `n` |
| RomImage.Name | src/romfs.c:123 | the name read from a record holds no NUL and is followed by one in the image |
| RomImage.Content | src/romfs.c:176-180 | a record's body is its name, its NUL and then the content, and the content has length `body_len` less the name and its NUL |
| RomImage.ContentAt | src/romfs.c:176-183 | for a visited record, the content is the image slice from just after the name's NUL to the next header |
| RomImage.FirstFileMatch | src/romfs.c:153-159 | the index found is of a record with the file hash, and no earlier record has it; none is found only when no record has it |
| RomImage.FindFile | src/romfs.c:150-163 | the header found is a visited record with the file hash; when none is found, no visited record has that hash |
| RomImage.FindFileIsFirst | src/romfs.c:153-154 | every record at a lower offset than the one found has a different file hash (the first match wins) |
| RomImage.DirMatches | src/romfs.c:121-122 | the records picked are no more than the records visited; the three lemmas below pin down which |
| RomImage.DirMatchesSound | src/romfs.c:121-122 | every record picked for directory `h` is a visited record whose directory hash is `h` |
| RomImage.DirMatchesComplete | src/romfs.c:121-122 | every visited record whose directory hash is `h` is picked |
| RomImage.DirMatchesIncreasing | src/romfs.c:121-122 | the picked records keep image order |
| RomImage.NamesOfAt | src/romfs.c:123 | the `k`-th name listed is the name of the `k`-th record |
| RomImage.DirNamesOfMatches | src/romfs.c:121-123 | the names listed for directory `h` are the names of the picked records, one for one and in order |
| RomImage.DirNames | src/romfs.c:121-123 | one name is listed per record of the directory, and none holds a NUL |
| RomImage.DirNamesAt | src/romfs.c:121-123 | the `k`-th listed name of directory `h` is the name of the `k`-th picked record, a visited record of that directory; the name ends inside the image, and inside the record's body in a well-formed image |
| RomImage.WellFormedRecord | src/romfs.c:176-179 | in a well-formed image, every visited record has its name NUL-terminated inside its body |
| RomFs.ReadCount | src/romfs.c:46-47 | a read delivers the request or what is left of the file, whichever is less, and never goes past the end |
| RomFs.ReadsCompose | src/romfs.c:42-53 | two reads in a row deliver as many bytes as one read of both counts |
| RomFs.SeekTarget | src/romfs.c:55-84 | a seek fails exactly for an unknown `whence` or a target before 0; otherwise it lands on the target, or on the end of the file when the target lies beyond it |
| RomFs.SeekSetLands | src/romfs.c:60-80 | seeking from the start to any position inside the file lands exactly there |
| RomFs.FileSlot.Read | src/romfs.c:42-53 | the buffer receives the next clamped count of file bytes from the cursor, the rest of the buffer is untouched, and the cursor advances by that count |
| RomFs.FileSlot.Seek | src/romfs.c:55-84 | the cursor moves to the seek target and that target is returned; on failure -1 is returned and the cursor stays |
| RomFs.StrcpySpec | src/romfs.c:123 | after strcpy the buffer holds the name and its NUL, so its string length is the name's, and the bytes after the NUL are as before |
| RomFs.SkipName | src/romfs.c:177-179 | the pointer is moved past the name and exactly onto the byte after its NUL |
| RomFs.FileScanStep | src/romfs.c:153-158 | at each pass of the lookup loop, reaching the sentinel means no record has the file hash, and a hash match there is the first one |
| RomFs.GetFileByHash | src/romfs.c:150-163 | returns the name position of the first record with the file hash and, when asked, its body length; returns none and leaves `*len` alone when no record has it |
| RomFs.FileBounds | src/romfs.c:176-180 | the open file starts right after the name's NUL, its size is `body_len` less the name and its NUL, and those bytes are exactly the record's content |
| RomFs.Mount.constructor | src/romfs.c:33-36 | the static tables start zeroed: `DIR_LEN` empty entries, file and directory slots at 0, each slot a distinct object; the tables and slots are new storage that belongs to the driver alone |
| RomFs.Mount.Open | src/romfs.c:165-188 | -1 when no record has the path hash; otherwise the handle is returned, and a positive handle's slot holds the record's content with the cursor at 0; no slot changes otherwise |
| RomFs.Filled | src/romfs.c:121-126 | the table after copying names keeps its size |
| RomFs.FilledSpec | src/romfs.c:121-126 | after the copies, entry `start + k` has ordinal `k + 1` and the `k`-th name strcpy'd over its old buffer, and every other entry is unchanged |
| RomFs.FilledKeepsTerminated | src/romfs.c:123 | copying names keeps every name buffer of the table NUL-terminated |
| RomFs.NamesFit | src/romfs.c:122-123 | names shorter than `FILE_NAME_LEN` fit, with their NUL, into the entries from `start` on |
| RomFs.ScanLoopStep | src/romfs.c:121-126 | at each pass of the scan loop, the loop stops exactly at the sentinel with the final table reached; a record of the directory gets the next entry, with ordinal `i - start + 1` and its name copied in |
| RomFs.ScanMatchStep | src/romfs.c:122-126 | at a record of the directory, the scan copies the next listed name into the next entry |
| RomFs.ScanFromFills | src/romfs.c:121-128 | from any point of the walk, the scan copies the remaining names of the directory and ends with all of them in the table |
| RomFs.ScanFromStartFills | src/romfs.c:121-128 | the scan from the first header copies every name of the directory in image order |
| RomFs.ScanFillsTable | src/romfs.c:118-129 | when the names fit, the scan from the image start copies exactly the names of the directory, in order, from `start` on, and leaves every name buffer terminated |
| RomFs.Mount.GetAllFilenameByHash | src/romfs.c:118-129 | needs only the names it copies to end inside the image; returns the number of records in the directory and leaves the table holding their names, in image order, from `start` on, with ordinals 1, 2, …; other entries are unchanged |
| RomFs.Mount.OpenDir | src/romfs.c:131-148 | snapshots the directory's names from index 0; with at least one name, the slot gets range `[0, matched]` with cursor 0 and is returned; otherwise 0 is returned and no slot changes |
| RomFs.CopyLen | src/romfs.c:94-98 | the returned count is the name length, or `bufsize - 1` when the name is longer, or 0 when `bufsize` is 0 |
| RomFs.CopyName | src/romfs.c:92-98 | the buffer receives the first count + 1 bytes of the name (the last of them its NUL when the name is not truncated), then a NUL; nothing after that changes |
| RomFs.Mount.DirNext | src/romfs.c:86-101 | 0 with nothing changed once `start + cur_off > end`; otherwise the entry at `start + cur_off` is copied as CopyName states, the count is returned and `cur_off` advances |
| RomFs.Cleared | src/romfs.c:107-111 | a cleared entry has ordinal 0, its first name byte kept, all other name bytes zero, and stays terminated |
| RomFs.ClearEntry | src/romfs.c:106-111 | one pass of the outer close loop turns an entry into its cleared form |
| RomFs.ClearLowByte | src/romfs.c:109-110 | the stray write of `d_name[FILE_NAME_LEN]` zeroes the lowest byte of the next entry's ordinal and keeps the others |
| RomFs.ClosedTo | src/romfs.c:105-113 | closing entries keeps every name buffer of the table terminated |
| RomFs.ClosedToSpec | src/romfs.c:105-113 | after passes `start..i-1`, those entries are cleared, entry `i` has its low ordinal byte zeroed, and every other entry is as before |
| RomFs.Mount.DirClose | src/romfs.c:103-116 | entries `start..end` (both included) are cleared, entry `end + 1` loses the low byte of its ordinal when that range is not empty, nothing else changes, and 0 is returned |

## Left out

- `hash_djb2` is not modelled. Callers pass the path hash (`pathHash`) directly.
- `fio_open`, `dir_open`, `fio_set_opaque` and `dir_set_opaque` belong to the VFS layer. The handle they return (`r`, `dird`) is a parameter, and the slot object stands for the opaque pointer.
- `register_romfs` / `register_fs` (mount registration with the VFS) is not modelled.
- FreeRTOS, semaphores and concurrency are absent. Every operation is one sequential call.
- `MAX_FDS` and `MAX_DIRS` are defined outside the files modelled here. They are parameters of `Mount.constructor`.
- The `flags` and `mode` arguments of `romfs_open` are ignored by the C code and do not appear.
- RomImage.GetUnaligned: it has no contract of its own. The round-trip lemmas state what it computes.
- RomFs.FileSlot.Seek: C integer widths are not modelled. The sum of the `uint32_t` origin and the `off_t` offset is exact here, with no conversion or wrap-around.
- RomFs.FileSlot.Read: `cursor + count` is not wrapped at 32 bits. The model assumes a read never sees the cursor past the size.
- RomFs.Mount.GetAllFilenameByHash: requires every listed name to be shorter than `FILE_NAME_LEN` and the names to fit in the table. It does not model the overflowing `strcpy` or the index running past `DIR_LEN`. It requires each name it copies to end inside the image (`Listable`); names of other directories are not read and need not. The well-formed images `Mount.Open` requires are all listable (`RomImage.WellFormedListable`).
- RomFs.Mount.OpenDir: inherits the preconditions of GetAllFilenameByHash.
- RomFs.Mount.DirNext: requires the entry it reads to lie inside the table. With `end == DIR_LEN`, the C code reads one entry past it.
- RomFs.Mount.DirNext: requires the buffer to have room for the copied bytes and the NUL after them.
- RomFs.Mount.DirClose: requires `end + 1 < DIR_LEN` when the range is non-empty. It does not model the writes past the table.
- RomFs.Mount.Open: requires a well-formed image, in which every name ends inside its record body. With a longer name, the C size computation wraps.
- The scans also require the walk to reach a sentinel inside the image (`Walkable`). The C loops have no bound. Without such a sentinel the directory scan reads past the image. The file lookup reads past it only when no record with the hash comes first.
- RomImage.RecordsFrom: the step `get_unaligned(meta + 4) + 12` is exact arithmetic here. In the C code the sum is a `uint32_t`, so a `body_len` from 0xFFFFFFF4 to 0xFFFFFFFF gives a step of 0 to 11 bytes. A step of 0 (at 0xFFFFFFF4) never advances, and that loop never ends. A wrapped step can also land on a sentinel inside the image, which the model calls a walk leaving the image. Exact steps always move forward, so the walk terminates in the model.
- RomImage.RecordsFrom: a record whose header is cut short by the end of the image, after a loop test that passes, ends the walk as leaving the image. The directory scan would read its directory hash past the end. The file lookup would return it on a hash match without reading further.
- RomFs.GetFileByHash: inherits the line above, so a match at such a cut-short header is not modelled. More generally it requires the whole walk to stay inside the image (`Walkable`). A match that comes before the point where the walk would leave the image is found by the C loop, which reads nothing after it, but is not modelled. This carries over to RomFs.Mount.Open.
- RomFs.ScanFrom: a ghost specification function with no contract of its own. ScanLoopStep states one pass of it, and ScanFillsTable states what the whole scan leaves.
