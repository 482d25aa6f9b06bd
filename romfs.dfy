/**
 * The ROMFS driver state: the file-descriptor slots with their read and seek
 * operations, the directory snapshot table with its directory slots, and the
 * scans that fill them from a mounted image.
 *
 * The three C tables are global; here they belong to one `Mount` object. A
 * slot pointer handed to read/seek/readdir/closedir is the slot object itself.
 */
module RomFs {
  import opened RomImage

  const SEEK_SET: int := 0
  const SEEK_CUR: int := 1
  const SEEK_END: int := 2

  // ---------------------------------------------------------------------------
  // Cursor arithmetic of read and seek

  /** How many bytes romfs_read delivers: the request, clamped to what is left. */
  function ReadCount(cursor: nat, size: nat, count: nat): (n: nat)
    requires cursor <= size
    ensures n <= count && cursor + n <= size
    ensures n == count || cursor + n == size
  {
    if cursor + count > size then size - cursor else count
  }

  /** Two reads in a row deliver what one read of both counts would. */
  lemma ReadsCompose(cursor: nat, size: nat, a: nat, b: nat)
    requires cursor <= size
    ensures ReadCount(cursor, size, a) + ReadCount(cursor + ReadCount(cursor, size, a), size, b)
         == ReadCount(cursor, size, a + b)
  {
  }

  predicate KnownWhence(whence: int)
  {
    whence == SEEK_SET || whence == SEEK_CUR || whence == SEEK_END
  }

  /** The position a seek counts from: 0, the cursor or the end of the file. */
  function Origin(cursor: nat, size: nat, whence: int): nat
    requires KnownWhence(whence)
  {
    if whence == SEEK_SET then 0 else if whence == SEEK_CUR then cursor else size
  }

  /** Where romfs_seek moves the cursor; None when it returns -1. */
  function SeekTarget(cursor: nat, size: nat, offset: int, whence: int): (r: Option<nat>)
    ensures r.None? <==> !KnownWhence(whence) || Origin(cursor, size, whence) + offset < 0
    ensures r.Some? ==> r.value <= size
    ensures r.Some? ==> var target := Origin(cursor, size, whence) + offset;
      r.value == target || (target > size && r.value == size)
  {
    if !KnownWhence(whence) then None
    else
      var target := Origin(cursor, size, whence) + offset;
      if target < 0 then None
      else if target > size then Some(size)
      else Some(target)
  }

  /** Seeking from the start to any position inside the file lands exactly there. */
  lemma SeekSetLands(cursor: nat, size: nat, k: nat)
    requires k <= size
    ensures SeekTarget(cursor, size, k, SEEK_SET) == Some(k)
  {
  }

  // ---------------------------------------------------------------------------
  // File slots (romfs_fds)

  class FileSlot {
    /** The image that `file` points into. */
    var rom: seq<byte>
    var file: nat
    var cursor: nat
    var size: nat

    constructor ()
      ensures rom == [] && file == 0 && cursor == 0 && size == 0
    {
      rom, file, cursor, size := [], 0, 0, 0;
    }

    ghost predicate Valid()
      reads this
    {
      cursor <= size && file + size <= |rom|
    }

    /** The bytes of the open file. */
    ghost function Data(): seq<byte>
      reads this`rom, this`file, this`size
      requires file + size <= |rom|
    {
      rom[file .. file + size]
    }

    /** romfs_read: copy the next bytes of the file into `buf` and advance. */
    method Read(buf: array<byte>, count: nat) returns (n: nat)
      requires Valid()
      requires ReadCount(cursor, size, count) <= buf.Length
      modifies this`cursor, buf
      ensures Valid()
      ensures n == ReadCount(old(cursor), size, count)
      ensures buf[..n] == Data()[old(cursor) .. old(cursor) + n]
      ensures buf[n..] == old(buf[n..])
      ensures cursor == old(cursor) + n
    {
      ghost var data := Data();
      n := count;
      if cursor + n > size {
        n := size - cursor;
      }
      forall i | 0 <= i < n {
        buf[i] := rom[file + cursor + i];
      }
      assert forall i :: 0 <= i < n ==> buf[i] == data[cursor + i];
      assert buf[..n] == data[cursor .. cursor + n];
      assert buf[n..] == old(buf[n..]);
      cursor := cursor + n;
    }

    /** romfs_seek: move the cursor, clamped to the end of the file. */
    method Seek(offset: int, whence: int) returns (r: int)
      requires Valid()
      modifies this`cursor
      ensures Valid()
      ensures SeekTarget(old(cursor), size, offset, whence).None? ==> r == -1 && cursor == old(cursor)
      ensures SeekTarget(old(cursor), size, offset, whence).Some? ==>
        r == cursor == SeekTarget(old(cursor), size, offset, whence).value
    {
      var origin: nat;
      if whence == SEEK_SET {
        origin := 0;
      } else if whence == SEEK_CUR {
        origin := cursor;
      } else if whence == SEEK_END {
        origin := size;
      } else {
        return -1;
      }
      var target := origin + offset;
      if target < 0 {
        return -1;
      }
      if target > size {
        target := size;
      }
      cursor := target;
      r := target;
    }
  }

  // ---------------------------------------------------------------------------
  // Directory snapshot entries (romfs_dirent) and directory slots (romfs_dirs)

  /** One snapshot entry: an ordinal and a fixed FILE_NAME_LEN-byte name buffer. */
  datatype Dirent = Dirent(ino: u32, name: seq<byte>)

  /** A snapshot table: `DIR_LEN` entries, each name buffer NUL-terminated. */
  ghost predicate TableOk(t: seq<Dirent>)
  {
    |t| == DIR_LEN && forall i :: 0 <= i < |t| ==> Terminated(t[i])
  }

  /** The name buffer has its fixed size and holds a NUL somewhere. */
  predicate Terminated(e: Dirent)
  {
    |e.name| == FILE_NAME_LEN && NameLen(e.name, 0).Some?
  }

  function Zeros(n: nat): (z: seq<byte>)
    ensures |z| == n && forall i :: 0 <= i < n ==> z[i] == 0
  {
    seq(n, _ => 0)
  }

  /** strcpy of `src` into the buffer `dst`: the bytes after the NUL stay as they were. */
  function Strcpy(dst: seq<byte>, src: seq<byte>): (r: seq<byte>)
    requires |src| < |dst| && 0 !in src
    ensures |r| == |dst|
  {
    src + [0] + dst[|src| + 1..]
  }

  /** The copy holds `src`, then its NUL, so strlen of the result is |src|; the rest of `dst` stays. */
  lemma StrcpySpec(dst: seq<byte>, src: seq<byte>)
    requires |src| < |dst| && 0 !in src
    ensures Strcpy(dst, src)[..|src|] == src && Strcpy(dst, src)[|src|] == 0
    ensures Strcpy(dst, src)[|src| + 1..] == dst[|src| + 1..]
    ensures NameLen(Strcpy(dst, src), 0) == Some(|src|)
  {
    var r := Strcpy(dst, src);
    assert forall q :: 0 <= q < |src| ==> r[q] == src[q];
    NameLenAt(r, 0, |src|);
  }

  /** Every name fits, with its NUL, into the entry it is copied to, from `start` on. */
  ghost predicate Fits(t: seq<Dirent>, start: nat, names: seq<seq<byte>>)
  {
    && start + |names| <= |t| <= DIR_LEN
    && forall k :: 0 <= k < |names| ==> |names[k]| < |t[start + k].name| && 0 !in names[k]
  }

  /**
   * The table `t` after romfs_get_all_filename_by_hash copied the first `m`
   * of `names` into the entries from `start` on, one after the other.
   */
  ghost function Filled(t: seq<Dirent>, start: nat, names: seq<seq<byte>>, m: nat): (r: seq<Dirent>)
    requires Fits(t, start, names) && m <= |names|
    ensures |r| == |t|
  {
    if m == 0 then t
    else Filled(t, start, names, m - 1)[start + m - 1 := Dirent(m, Strcpy(t[start + m - 1].name, names[m - 1]))]
  }

  /**
   * What the scan loop of romfs_get_all_filename_by_hash does from the header
   * at `meta` on, with entry `i` next: the table and the entry index it ends
   * with, or None when a strcpy would run past its name buffer or past the
   * end of the table.
   */
  ghost function ScanFrom(img: seq<byte>, h: u32, start: nat, meta: nat, i: nat, tbl: seq<Dirent>): (r: Option<(seq<Dirent>, nat)>)
    requires RecordsFrom(img, meta).Some? && start <= i && |tbl| <= DIR_LEN
    decreases |img| - meta
  {
    if IsSentinel(img, meta) then Some((tbl, i))
    else if DirHash(img, meta) != h then ScanFrom(img, h, start, NextOffset(img, meta), i, tbl)
    else if i < |tbl| && NameLen(img, meta + HEADER_LEN).Some? && |Name(img, meta)| < |tbl[i].name| then
      var e := Dirent((i - start + 1) as u32, Strcpy(tbl[i].name, Name(img, meta)));
      ScanFrom(img, h, start, NextOffset(img, meta), i + 1, tbl[i := e])
    else None
  }

  /** romfs_dir_close on one entry: the ordinal is zeroed, the name from index 1 on. */
  function Cleared(e: Dirent): (c: Dirent)
    requires |e.name| == FILE_NAME_LEN
    ensures c.ino == 0 && |c.name| == FILE_NAME_LEN && c.name[0] == e.name[0]
    ensures forall i :: 1 <= i < FILE_NAME_LEN ==> c.name[i] == 0
    ensures Terminated(c)
  {
    var c := Dirent(0, [e.name[0]] + Zeros(FILE_NAME_LEN - 1));
    assert c.name[1] == 0;
    c
  }

  /**
   * The table `t` after romfs_dir_close has run its outer loop from `start`
   * up to, not including, `i`: each pass clears its entry and then zeroes the
   * lowest byte of the next entry's ordinal.
   */
  ghost function ClosedTo(t: seq<Dirent>, start: nat, i: nat): (r: seq<Dirent>)
    requires TableOk(t) && start <= i < DIR_LEN
    ensures TableOk(r)
    decreases i - start
  {
    if i == start then t
    else
      var p := ClosedTo(t, start, i - 1);
      var q := p[i - 1 := Cleared(p[i - 1])];
      q[i := q[i].(ino := ClearLowByte(q[i].ino))]
  }

  /** A 32-bit word whose lowest (first, little-endian) byte is overwritten with 0. */
  function ClearLowByte(w: u32): (r: u32)
    ensures r % 256 == 0 && r / 256 == w / 256
  {
    w - w % 256
  }

  /** The length of the name dir_next copies and the count it returns, for a name of strlen `len`. */
  function CopyLen(len: nat, bufsize: nat): (c: nat)
    ensures c <= len && (bufsize == 0 ==> c == 0) && (bufsize > 0 ==> c < bufsize)
    ensures c == len || c + 1 == bufsize || bufsize == 0
  {
    if bufsize == 0 then 0 else if len < bufsize - 1 then len else bufsize - 1
  }

  class DirSlot {
    var start: nat
    var curOff: nat
    var end: nat

    constructor ()
      ensures start == 0 && curOff == 0 && end == 0
    {
      start, curOff, end := 0, 0, 0;
    }
  }

  // ---------------------------------------------------------------------------
  // Lookup by file hash

  /** The loop in romfs_open that steps past a NUL-terminated name and its NUL. */
  method SkipName(img: seq<byte>, p: nat) returns (q: nat)
    requires NameLen(img, p).Some?
    ensures q == p + NameLen(img, p).value + 1 && q <= |img| && img[q - 1] == 0
    ensures forall i :: p <= i < q - 1 ==> img[i] != 0
  {
    NameLenFirst(img, p);
    q := p;
    while img[q] != 0
      invariant p <= q <= p + NameLen(img, p).value
      decreases p + NameLen(img, p).value - q
    {
      q := q + 1;
    }
    q := q + 1;
  }

  /**
   * romfs_get_file_by_hash: the position of the name of the first record whose
   * file hash is `h`. `len` is the optional out-cell (None for a NULL pointer);
   * `lenAfter` is what it holds afterwards.
   */
  method GetFileByHash(romfs: seq<byte>, h: u32, len: Option<u32>) returns (file: Option<nat>, lenAfter: Option<u32>)
    requires Walkable(romfs)
    ensures FindFile(romfs, h).None? ==> file.None? && lenAfter == len
    ensures FindFile(romfs, h).Some? ==>
      var off := FindFile(romfs, h).value;
      file == Some(off + HEADER_LEN) &&
      lenAfter == (if len.Some? then Some(BodyLen(romfs, off)) else None)
  {
    ghost var rs := Records(romfs);
    ghost var k := 0;
    var meta := 0;
    while GetUnaligned(romfs, meta) != 0 && GetUnaligned(romfs, meta + 4) != 0
      invariant 0 <= k <= |rs|
      invariant RecordsFrom(romfs, meta) == Some(rs[k..])
      invariant forall j :: 0 <= j < k ==> HeaderIn(romfs, rs[j]) && FileHash(romfs, rs[j]) != h
      decreases |romfs| - meta
    {
      FileScanStep(romfs, rs, k, meta, h);
      if GetUnaligned(romfs, meta) == h {
        lenAfter := if len.Some? then Some(GetUnaligned(romfs, meta + 4)) else None;
        return Some(meta + HEADER_LEN), lenAfter;
      }
      meta := meta + GetUnaligned(romfs, meta + 4) + HEADER_LEN;
      k := k + 1;
    }
    FileScanStep(romfs, rs, k, meta, h);
    return None, len;
  }

  /**
   * One step of the loop of romfs_get_file_by_hash at `meta`, the `k`-th
   * record of the walk `rs`, with no file hash `h` before it: the loop stops
   * at the sentinel only when no record has hash `h`, and a record with hash
   * `h` there is the first one.
   */
  lemma FileScanStep(img: seq<byte>, rs: seq<nat>, k: nat, meta: nat, h: u32)
    requires Walkable(img) && rs == Records(img)
    requires k <= |rs| && RecordsFrom(img, meta) == Some(rs[k..])
    requires forall j :: 0 <= j < k ==> HeaderIn(img, rs[j]) && FileHash(img, rs[j]) != h
    ensures TestIn(img, meta)
    ensures IsSentinel(img, meta) <==> GetUnaligned(img, meta) == 0 || GetUnaligned(img, meta + 4) == 0
    ensures IsSentinel(img, meta) ==> FindFile(img, h).None?
    ensures !IsSentinel(img, meta) ==>
      && HeaderIn(img, meta) && k < |rs| && rs[k] == meta
      && RecordsFrom(img, NextOffset(img, meta)) == Some(rs[k + 1..])
      && NextOffset(img, meta) == meta + GetUnaligned(img, meta + 4) + HEADER_LEN
    ensures !IsSentinel(img, meta) && FileHash(img, meta) == h ==> FindFile(img, h) == Some(meta)
  {
    RecordHeadersIn(img);
    WalkStep(img, meta, rs[k..]);
    if !IsSentinel(img, meta) {
      assert rs[k..][1..] == rs[k + 1..];
      if FileHash(img, meta) == h {
        var m := FirstFileMatch(img, rs, h);
        assert m.Some? && m.value == k;
      }
    }
  }

  /**
   * The part of romfs_open that finds the content of the record whose name
   * starts at `p`: the record size from its header, less the name and its NUL,
   * starting right after the NUL.
   */
  method FileBounds(img: seq<byte>, p: nat) returns (filestart: nat, size: nat)
    requires WellFormed(img) && p >= HEADER_LEN && p - HEADER_LEN in Records(img)
    ensures var off := p - HEADER_LEN;
      && HeaderIn(img, off) && NameInBody(img, off) && NextOffset(img, off) <= |img|
      && filestart == p + |Name(img, off)| + 1
      && size == BodyLen(img, off) - (|Name(img, off)| + 1)
      && filestart + size == NextOffset(img, off)
      && img[filestart .. filestart + size] == Content(img, off)
  {
    ContentAt(img, p - HEADER_LEN);
    var total := GetUnaligned(img, p - 8);
    filestart := SkipName(img, p);
    size := total - (filestart - p);
  }

  /**
   * The copy loop of romfs_dir_next: bytes of `name` go to `buf` up to and
   * including its NUL, or until `bufsize` of them are copied, and a NUL follows
   * them. Returns bufsize less what is left of the countdown.
   */
  method CopyName(name: seq<byte>, buf: array<byte>, bufsize: nat) returns (n: nat)
    requires NameLen(name, 0).Some?
    requires CopyLen(NameLen(name, 0).value, bufsize) + 2 <= buf.Length
    modifies buf
    ensures n == CopyLen(NameLen(name, 0).value, bufsize)
    ensures buf[..n + 2] == name[..n + 1] + [0]
    ensures buf[n + 2..] == old(buf[n + 2..])
  {
    ghost var stop := CopyLen(NameLen(name, 0).value, bufsize);
    NameLenFirst(name, 0);
    var i := bufsize;
    var c := 0;
    buf[0] := name[0];
    while name[c] != 0 && i > 1
      invariant c <= stop && i == bufsize - c
      invariant forall q :: 0 <= q <= c ==> buf[q] == name[q]
      invariant forall q :: c < q < buf.Length ==> buf[q] == old(buf[q])
      decreases i
    {
      i := i - 1;
      c := c + 1;
      buf[c] := name[c];
    }
    assert c == stop;
    buf[c + 1] := 0;
    assert buf[..c + 2] == name[..c + 1] + [0];
    assert buf[c + 2..] == old(buf[c + 2..]);
    n := bufsize - i;
  }

  /**
   * One pass of the outer loop of romfs_dir_close on entry `e`: d_ino is
   * zeroed, then the inner loop zeroes d_name[1] onwards. Its last write, to
   * d_name[FILE_NAME_LEN], falls outside the entry and is left to the caller.
   */
  method ClearEntry(e: Dirent) returns (c: Dirent)
    requires |e.name| == FILE_NAME_LEN
    ensures c == Cleared(e)
  {
    c := e.(ino := 0);
    var name := c.name;
    var j := 0;
    while j < FILE_NAME_LEN - 1
      invariant 0 <= j <= FILE_NAME_LEN - 1 && |name| == FILE_NAME_LEN
      invariant name[0] == e.name[0]
      invariant forall q :: 1 <= q <= j ==> name[q] == 0
    {
      j := j + 1;
      name := name[j := 0];
    }
    c := c.(name := name);
    assert c.name == Cleared(e).name;
  }

  // ---------------------------------------------------------------------------
  // The driver's global tables over one mounted image

  class Mount {
    /** The mounted image (the opaque pointer registered with the VFS). */
    const image: seq<byte>
    /** romfs_fds: MAX_FDS file slots. */
    const fds: array<FileSlot>
    /** romfs_dirent: the shared directory snapshot table. */
    const dirent: array<Dirent>
    /** romfs_dirs: MAX_DIRS directory slots. */
    const dirs: array<DirSlot>

    ghost predicate Valid()
      reads this, dirent
    {
      TableOk(dirent[..])
    }

    /** The zero-initialised static tables, with `maxFds` file and `maxDirs` directory slots. */
    constructor (image: seq<byte>, maxFds: nat, maxDirs: nat)
      ensures Valid() && this.image == image
      ensures fds.Length == maxFds && dirs.Length == maxDirs
      ensures fresh(fds) && fresh(dirent) && fresh(dirs)
      ensures forall i :: 0 <= i < maxFds ==> fresh(fds[i])
      ensures forall i :: 0 <= i < maxDirs ==> fresh(dirs[i])
      ensures forall i :: 0 <= i < DIR_LEN ==> dirent[i] == Dirent(0, Zeros(FILE_NAME_LEN))
      ensures forall i :: 0 <= i < maxFds ==> fds[i].cursor == 0 && fds[i].size == 0 && fds[i].file == 0
      ensures forall i, j :: 0 <= i < j < maxFds ==> fds[i] != fds[j]
      ensures forall i :: 0 <= i < maxDirs ==> dirs[i].start == 0 && dirs[i].curOff == 0 && dirs[i].end == 0
      ensures forall i, j :: 0 <= i < j < maxDirs ==> dirs[i] != dirs[j]
    {
      this.image := image;
      var fs: seq<FileSlot> := [];
      while |fs| < maxFds
        invariant |fs| <= maxFds
        invariant forall i :: 0 <= i < |fs| ==> fs[i].cursor == 0 && fs[i].size == 0 && fs[i].file == 0
        invariant forall i, j :: 0 <= i < j < |fs| ==> fs[i] != fs[j]
        invariant forall i :: 0 <= i < |fs| ==> fresh(fs[i])
      {
        var f := new FileSlot();
        fs := fs + [f];
      }
      var ds: seq<DirSlot> := [];
      while |ds| < maxDirs
        invariant |ds| <= maxDirs
        invariant forall i :: 0 <= i < |ds| ==> ds[i].start == 0 && ds[i].curOff == 0 && ds[i].end == 0
        invariant forall i, j :: 0 <= i < j < |ds| ==> ds[i] != ds[j]
        invariant forall i :: 0 <= i < |fs| ==> fs[i].cursor == 0 && fs[i].size == 0 && fs[i].file == 0
        invariant forall i :: 0 <= i < |ds| ==> fresh(ds[i])
        invariant forall i :: 0 <= i < |fs| ==> fresh(fs[i])
      {
        var d := new DirSlot();
        ds := ds + [d];
      }
      fds := new FileSlot[maxFds](i requires 0 <= i < maxFds => fs[i]);
      dirs := new DirSlot[maxDirs](i requires 0 <= i < maxDirs => ds[i]);
      dirent := new Dirent[DIR_LEN](_ => Dirent(0, Zeros(FILE_NAME_LEN)));
      assert Zeros(FILE_NAME_LEN)[0] == 0;
    }

    /**
     * romfs_open: find the record whose file hash is `pathHash` and, when the
     * descriptor allocator handed out a positive handle `r`, set that slot to
     * the record's content with the cursor at 0.
     */
    method Open(pathHash: u32, r: int) returns (res: int)
      requires WellFormed(image)
      requires FindFile(image, pathHash).Some? && r > 0 ==> r < fds.Length
      modifies set j | 0 <= j < fds.Length && j == r :: fds[j]
      ensures FindFile(image, pathHash).None? ==> res == -1
      ensures FindFile(image, pathHash).Some? ==> res == r
      ensures FindFile(image, pathHash).Some? && r > 0 ==>
        var off := FindFile(image, pathHash).value;
        && NameInBody(image, off) && NextOffset(image, off) <= |image|
        && fds[r].rom == image && fds[r].cursor == 0
        && fds[r].file == off + HEADER_LEN + |Name(image, off)| + 1
        && fds[r].size == BodyLen(image, off) - (|Name(image, off)| + 1)
        && fds[r].file + fds[r].size == NextOffset(image, off)
        && fds[r].Valid() && fds[r].Data() == Content(image, off)
      ensures !(FindFile(image, pathHash).Some? && r > 0) ==>
        forall j :: 0 <= j < fds.Length ==> unchanged(fds[j])
    {
      var file, _ := GetFileByHash(image, pathHash, None);
      res := -1;
      if file.Some? {
        res := r;
        if r > 0 {
          var filestart, size := FileBounds(image, file.value);
          var slot := fds[r];
          slot.rom, slot.file, slot.cursor, slot.size := image, filestart, 0, size;
        }
      }
    }

    /**
     * romfs_get_all_filename_by_hash: copy the name of every record whose
     * directory hash is `h` into the snapshot table from index `start` on and
     * return how many there were.
     */
    method GetAllFilenameByHash(romfs: seq<byte>, h: u32, start: nat) returns (count: nat)
      requires Valid() && Listable(romfs, h)
      requires start + |DirNames(romfs, h)| <= DIR_LEN
      requires forall k :: 0 <= k < |DirNames(romfs, h)| ==> |DirNames(romfs, h)[k]| < FILE_NAME_LEN
      modifies dirent
      ensures Valid()
      ensures count == |DirNames(romfs, h)|
      ensures Fits(old(dirent[..]), start, DirNames(romfs, h))
      ensures dirent[..] == Filled(old(dirent[..]), start, DirNames(romfs, h), count)
    {
      ScanFillsTable(romfs, h, start, dirent[..]);
      ghost var final := ScanFrom(romfs, h, start, 0, start, dirent[..]);
      var meta := 0;
      var i := start;
      while GetUnaligned(romfs, meta) != 0 && GetUnaligned(romfs, meta + 4) != 0
        invariant RecordsFrom(romfs, meta).Some? && start <= i
        invariant ScanFrom(romfs, h, start, meta, i, dirent[..]) == final
        decreases |romfs| - meta
      {
        ScanLoopStep(romfs, h, start, meta, i, dirent[..], final);
        if GetUnaligned(romfs, meta + 8) == h {
          dirent[i] := Dirent(i - start + 1, Strcpy(dirent[i].name, Name(romfs, meta)));
          i := i + 1;
        }
        meta := meta + GetUnaligned(romfs, meta + 4) + HEADER_LEN;
      }
      ScanLoopStep(romfs, h, start, meta, i, dirent[..], final);
      count := i - start;
    }

    /**
     * romfs_opendir: snapshot the names in the directory whose hash is
     * `pathHash` from index 0 on; when there is at least one, set up the
     * directory slot `dird` the allocator handed out and return it, else 0.
     */
    method OpenDir(pathHash: u32, dird: nat) returns (res: nat)
      requires Valid() && Listable(image, pathHash)
      requires |DirNames(image, pathHash)| <= DIR_LEN
      requires forall k :: 0 <= k < |DirNames(image, pathHash)| ==> |DirNames(image, pathHash)[k]| < FILE_NAME_LEN
      requires |DirNames(image, pathHash)| > 0 ==> dird < dirs.Length
      modifies dirent, set j | 0 <= j < dirs.Length && j == dird :: dirs[j]
      ensures Valid()
      ensures Fits(old(dirent[..]), 0, DirNames(image, pathHash))
      ensures dirent[..] == Filled(old(dirent[..]), 0, DirNames(image, pathHash), |DirNames(image, pathHash)|)
      ensures |DirNames(image, pathHash)| == 0 ==> res == 0 && forall j :: 0 <= j < dirs.Length ==> unchanged(dirs[j])
      ensures |DirNames(image, pathHash)| > 0 ==>
        res == dird && dirs[dird].start == 0 && dirs[dird].curOff == 0 && dirs[dird].end == |DirNames(image, pathHash)|
    {
      var start := 0;
      var matched := GetAllFilenameByHash(image, pathHash, start);
      res := 0;
      if matched > 0 {
        var end := start + matched;
        res := dird;
        var d := dirs[dird];
        d.start, d.curOff, d.end := start, 0, end;
      }
    }

    /**
     * romfs_dir_next: copy the name at `start + curOff` into `buf` (at most
     * `bufsize` characters, then a NUL) and step the slot on. Returns 0 without
     * touching anything once `start + curOff` has passed `end`.
     */
    method DirNext(d: DirSlot, buf: array<byte>, bufsize: nat) returns (n: int)
      requires Valid()
      requires d.start + d.curOff <= d.end ==>
        d.start + d.curOff < DIR_LEN &&
        CopyLen(NameLen(dirent[d.start + d.curOff].name, 0).value, bufsize) + 2 <= buf.Length
      modifies d`curOff, buf
      ensures old(d.start + d.curOff > d.end) ==> n == 0 && d.curOff == old(d.curOff) && buf[..] == old(buf[..])
      ensures old(d.start + d.curOff <= d.end) ==>
        var name := dirent[old(d.start + d.curOff)].name;
        var c := CopyLen(NameLen(name, 0).value, bufsize);
        && n == c
        && buf[..c + 2] == name[..c + 1] + [0]
        && buf[c + 2..] == old(buf[c + 2..])
        && d.curOff == old(d.curOff) + 1
    {
      if d.start + d.curOff > d.end {
        return 0;
      }
      var effOffset := d.start + d.curOff;
      n := CopyName(dirent[effOffset].name, buf, bufsize);
      d.curOff := d.curOff + 1;
    }

    /**
     * romfs_dir_close: clear the entries start..end, both included. Each keeps
     * its first name byte; the last pass of the inner loop writes
     * d_name[FILE_NAME_LEN], one byte past the name buffer, which is the lowest
     * byte of the next entry's d_ino.
     */
    method DirClose(d: DirSlot) returns (status: int)
      requires Valid()
      requires d.start <= d.end ==> d.end + 1 < DIR_LEN
      modifies dirent
      ensures Valid() && status == 0
      ensures forall j :: d.start <= j <= d.end ==> dirent[j] == Cleared(old(dirent[j]))
      ensures d.start <= d.end ==>
        dirent[d.end + 1] == old(dirent[d.end + 1]).(ino := ClearLowByte(old(dirent[d.end + 1].ino)))
      ensures forall j :: 0 <= j < DIR_LEN && !(d.start <= j <= d.end) && !(d.start <= d.end && j == d.end + 1) ==>
        dirent[j] == old(dirent[j])
    {
      ghost var t := dirent[..];
      var i := d.start;
      while i <= d.end
        invariant d.start <= i && (d.start <= d.end ==> i <= d.end + 1) && (d.start > d.end ==> i == d.start)
        invariant d.start <= d.end ==> dirent[..] == ClosedTo(t, d.start, i)
        invariant d.start > d.end ==> dirent[..] == t
      {
        dirent[i] := ClearEntry(dirent[i]);
        dirent[i + 1] := dirent[i + 1].(ino := ClearLowByte(dirent[i + 1].ino));
        i := i + 1;
      }
      if d.start <= d.end {
        ClosedToSpec(t, d.start, i);
      }
      status := 0;
    }
  }

  // ---------------------------------------------------------------------------
  // Lemmas the scans rely on

  /**
   * What romfs_dir_close leaves after the passes start..i-1: those entries
   * cleared, the lowest ordinal byte of entry `i` zeroed, everything else as
   * it was.
   */
  lemma {:induction false} ClosedToSpec(t: seq<Dirent>, start: nat, i: nat)
    requires TableOk(t) && start <= i < DIR_LEN
    ensures forall j :: start <= j < i ==> ClosedTo(t, start, i)[j] == Cleared(t[j])
    ensures start < i ==> ClosedTo(t, start, i)[i] == t[i].(ino := ClearLowByte(t[i].ino))
    ensures forall j :: 0 <= j < DIR_LEN && !(start <= j <= i) ==> ClosedTo(t, start, i)[j] == t[j]
    ensures i == start ==> ClosedTo(t, start, i) == t
    decreases i - start
  {
    if i > start {
      ClosedToSpec(t, start, i - 1);
    }
  }

  /**
   * What the filled table holds: entry start+k, for each of the first `m`
   * names, has ordinal k+1 and names[k] copied over its old name buffer; every
   * other entry is untouched.
   */
  lemma {:induction false} FilledSpec(t: seq<Dirent>, start: nat, names: seq<seq<byte>>, m: nat)
    requires Fits(t, start, names) && m <= |names|
    ensures forall k :: 0 <= k < m ==>
      Filled(t, start, names, m)[start + k] == Dirent(k + 1, Strcpy(t[start + k].name, names[k]))
    ensures forall j :: 0 <= j < |t| && !(start <= j < start + m) ==> Filled(t, start, names, m)[j] == t[j]
  {
    if m > 0 {
      FilledSpec(t, start, names, m - 1);
    }
  }

  /** Filling one more entry writes the next name over the entry's untouched old buffer. */
  lemma FillStep(t: seq<Dirent>, start: nat, names: seq<seq<byte>>, m: nat)
    requires Fits(t, start, names) && m < |names|
    ensures Filled(t, start, names, m)[start + m] == t[start + m]
    ensures Filled(t, start, names, m + 1) ==
      Filled(t, start, names, m)[start + m := Dirent(m + 1, Strcpy(t[start + m].name, names[m]))]
  {
    FilledSpec(t, start, names, m);
  }

  /** Filling entries keeps every name buffer of the table NUL-terminated. */
  lemma FilledKeepsTerminated(t: seq<Dirent>, start: nat, names: seq<seq<byte>>, m: nat)
    requires Fits(t, start, names) && m <= |names|
    requires TableOk(t)
    ensures TableOk(Filled(t, start, names, m))
  {
    FilledSpec(t, start, names, m);
    forall j | start <= j < start + m ensures Terminated(Filled(t, start, names, m)[j]) {
      StrcpySpec(t[j].name, names[j - start]);
    }
  }

  /** The names of directory `h` fit the table from `start` on when the caller leaves room. */
  lemma NamesFit(img: seq<byte>, h: u32, t: seq<Dirent>, start: nat)
    requires Listable(img, h) && TableOk(t)
    requires start + |DirNames(img, h)| <= DIR_LEN
    requires forall k :: 0 <= k < |DirNames(img, h)| ==> |DirNames(img, h)[k]| < FILE_NAME_LEN
    ensures Fits(t, start, DirNames(img, h))
  {
    var names := DirNames(img, h);
    forall k | 0 <= k < |names| ensures |names[k]| < |t[start + k].name| && 0 !in names[k] {
      DirNamesAt(img, h, k);
      assert Terminated(t[start + k]);
    }
  }

  /**
   * From any point `meta` of the walk, whose remaining records are `rest`, with
   * the first `m` of `names` already copied and the rest of them being the
   * names of directory `h` among `rest`, the scan copies those too and ends
   * with all of `names` in the table.
   */
  lemma {:induction false} ScanFromFills(img: seq<byte>, h: u32, start: nat, t: seq<Dirent>,
                                         names: seq<seq<byte>>, meta: nat, rest: seq<nat>, m: nat, tbl: seq<Dirent>, i: nat)
    requires Fits(t, start, names) && m <= |names| && tbl == Filled(t, start, names, m) && i == start + m
    requires RecordsFrom(img, meta) == Some(rest) && DirNamesIn(img, rest, h)
    requires DirNamesOf(img, rest, h) == names[m..]
    ensures ScanFrom(img, h, start, meta, i, tbl)
      == Some((Filled(t, start, names, |names|), start + |names|))
    decreases |rest|
  {
    WalkStep(img, meta, rest);
    if IsSentinel(img, meta) {
      assert |names[m..]| == 0;
    } else {
      DirNamesInTail(img, rest, h);
      assert HeaderIn(img, rest[0]) && (DirHash(img, rest[0]) == h ==> NameLen(img, rest[0] + HEADER_LEN).Some?);
      var tail := DirNamesOf(img, rest[1..], h);
      if DirHash(img, meta) == h {
        DropCons(names, m, Name(img, meta), tail);
        ScanMatchStep(img, h, start, t, names, meta, m, tbl, i);
        ScanFromFills(img, h, start, t, names, NextOffset(img, meta), rest[1..], m + 1, Filled(t, start, names, m + 1), i + 1);
      } else {
        ScanFromFills(img, h, start, t, names, NextOffset(img, meta), rest[1..], m, tbl, i);
      }
    }
  }

  /**
   * One pass of the scan loop of romfs_get_all_filename_by_hash at `meta`,
   * read off the header words the C code tests, when the scan from there
   * ends in `final`: the loop stops exactly at the sentinel, with `final`
   * reached, and otherwise a record of directory `h` has its name fit entry
   * `i` and the scan goes on from the next header.
   */
  lemma ScanLoopStep(img: seq<byte>, h: u32, start: nat, meta: nat, i: nat, tbl: seq<Dirent>,
                     final: Option<(seq<Dirent>, nat)>)
    requires RecordsFrom(img, meta).Some? && start <= i && |tbl| <= DIR_LEN
    requires ScanFrom(img, h, start, meta, i, tbl) == final && final.Some?
    ensures TestIn(img, meta)
    ensures IsSentinel(img, meta) <==> GetUnaligned(img, meta) == 0 || GetUnaligned(img, meta + 4) == 0
    ensures IsSentinel(img, meta) ==> final == Some((tbl, i))
    ensures !IsSentinel(img, meta) ==> HeaderIn(img, meta)
    ensures !IsSentinel(img, meta) ==>
      RecordsFrom(img, meta + GetUnaligned(img, meta + 4) + HEADER_LEN).Some?
    ensures !IsSentinel(img, meta) && GetUnaligned(img, meta + 8) != h ==>
      ScanFrom(img, h, start, meta + GetUnaligned(img, meta + 4) + HEADER_LEN, i, tbl) == final
    ensures !IsSentinel(img, meta) && GetUnaligned(img, meta + 8) == h ==>
      && i < |tbl| && NameLen(img, meta + HEADER_LEN).Some? && |Name(img, meta)| < |tbl[i].name|
      && ScanFrom(img, h, start, meta + GetUnaligned(img, meta + 4) + HEADER_LEN, i + 1,
                  tbl[i := Dirent((i - start + 1) as u32, Strcpy(tbl[i].name, Name(img, meta)))]) == final
  {
    WalkStep(img, meta, RecordsFrom(img, meta).value);
  }

  /** At a record of directory `h`, the scan copies the next name into the next entry. */
  lemma ScanMatchStep(img: seq<byte>, h: u32, start: nat, t: seq<Dirent>, names: seq<seq<byte>>,
                      meta: nat, m: nat, tbl: seq<Dirent>, i: nat)
    requires RecordsFrom(img, meta).Some? && HeaderIn(img, meta) && !IsSentinel(img, meta)
    requires RecordsFrom(img, NextOffset(img, meta)).Some?
    requires DirHash(img, meta) == h && NameLen(img, meta + HEADER_LEN).Some?
    requires Fits(t, start, names) && m < |names| && tbl == Filled(t, start, names, m) && i == start + m
    requires names[m] == Name(img, meta)
    ensures ScanFrom(img, h, start, meta, i, tbl)
      == ScanFrom(img, h, start, NextOffset(img, meta), i + 1, Filled(t, start, names, m + 1))
  {
    FillStep(t, start, names, m);
  }

  /** A suffix that starts with `x` has `x` at its first index and the rest after it. */
  lemma DropCons<T>(s: seq<T>, m: nat, x: T, tail: seq<T>)
    requires m <= |s| && s[m..] == [x] + tail
    ensures m < |s| && s[m] == x && s[m + 1..] == tail
  {
    assert s[m] == s[m..][0];
    assert s[m + 1..] == s[m..][1..];
  }

  /** The scan from the first header, whose walk is `rs`, copies all the names of directory `h` among `rs`. */
  lemma ScanFromStartFills(img: seq<byte>, h: u32, start: nat, t: seq<Dirent>, names: seq<seq<byte>>, rs: seq<nat>)
    requires Fits(t, start, names)
    requires RecordsFrom(img, 0) == Some(rs) && DirNamesIn(img, rs, h)
    requires DirNamesOf(img, rs, h) == names
    ensures ScanFrom(img, h, start, 0, start, t) == Some((Filled(t, start, names, |names|), start + |names|))
  {
    assert names[0..] == names;
    ScanFromFills(img, h, start, t, names, 0, rs, 0, t, start);
  }

  /**
   * The whole scan, from the first header, copies exactly the names of
   * directory `h` into the table from `start` on, when they fit.
   */
  lemma ScanFillsTable(img: seq<byte>, h: u32, start: nat, t: seq<Dirent>)
    requires Listable(img, h) && TableOk(t)
    requires start + |DirNames(img, h)| <= DIR_LEN
    requires forall k :: 0 <= k < |DirNames(img, h)| ==> |DirNames(img, h)[k]| < FILE_NAME_LEN
    ensures Fits(t, start, DirNames(img, h))
    ensures ScanFrom(img, h, start, 0, start, t)
      == Some((Filled(t, start, DirNames(img, h), |DirNames(img, h)|), start + |DirNames(img, h)|))
    ensures TableOk(Filled(t, start, DirNames(img, h), |DirNames(img, h)|))
  {
    var names := DirNames(img, h);
    NamesFit(img, h, t, start);
    ScanFromStartFills(img, h, start, t, names, Records(img));
    FilledKeepsTerminated(t, start, names, |names|);
  }
}
