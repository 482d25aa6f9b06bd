/**
 * The ROMFS image format: a flat byte image holding a run of records, each a
 * 12-byte little-endian header (file hash, body length, directory hash), a
 * NUL-terminated name and the file content, ended by a sentinel header whose
 * file hash or body length is zero.
 *
 * Everything here is pure: the image is immutable ROM. Offsets are natural
 * numbers into the image sequence; a C pointer `romfs + off` is the offset `off`.
 */
module RomImage {

  type byte = b: int | 0 <= b < 256
  type u32 = w: int | 0 <= w < 0x1_0000_0000

  datatype Option<T> = None | Some(value: T)

  /** Size of a record header: file_hash, body_len, dir_hash. */
  const HEADER_LEN: nat := 12
  /** Capacity of the directory snapshot table (include/romfs.h). */
  const DIR_LEN: nat := 128
  /** Size of the name buffer of one snapshot entry (include/romfs.h). */
  const FILE_NAME_LEN: nat := 128

  // ---------------------------------------------------------------------------
  // Little-endian words

  /**
   * The 32-bit little-endian word stored at `d[p..p+4]` (get_unaligned). The
   * four shifted bytes occupy disjoint bits, so the C `|` is a sum here; the
   * result type states that it is always below 2^32.
   */
  function GetUnaligned(d: seq<byte>, p: nat): (w: u32)
    requires p + 4 <= |d|
  {
    d[p] as int + 256 * (d[p + 1] as int + 256 * (d[p + 2] as int + 256 * d[p + 3] as int))
  }

  /** The base-256 digits of the decoded word are the four bytes, lowest first. */
  lemma GetUnalignedDigits(d: seq<byte>, p: nat)
    requires p + 4 <= |d|
    ensures GetUnaligned(d, p) % 256 == d[p]
    ensures GetUnaligned(d, p) / 256 % 256 == d[p + 1]
    ensures GetUnaligned(d, p) / 256 / 256 % 256 == d[p + 2]
    ensures GetUnaligned(d, p) / 256 / 256 / 256 == d[p + 3]
  {
    SplitDigit(d[p + 2], d[p + 3]);
    SplitDigit(d[p + 1], d[p + 2] as int + 256 * d[p + 3] as int);
    SplitDigit(d[p], d[p + 1] as int + 256 * (d[p + 2] as int + 256 * d[p + 3] as int));
  }

  /** Dividing `a + 256 * r` by 256 splits off the low digit `a`. */
  lemma SplitDigit(a: byte, r: nat)
    ensures (a + 256 * r) % 256 == a && (a + 256 * r) / 256 == r
  {
  }

  /** The four bytes that encode `w` little-endian: the inverse of GetUnaligned. */
  function PutUnaligned(w: u32): (b: seq<byte>)
    ensures |b| == 4
  {
    [w % 256, w / 256 % 256, w / 256 / 256 % 256, w / 256 / 256 / 256]
  }

  lemma DecodeEncode(w: u32)
    ensures GetUnaligned(PutUnaligned(w), 0) == w
  {
    GetUnalignedDigits(PutUnaligned(w), 0);
    var v := GetUnaligned(PutUnaligned(w), 0);
    assert v / 256 / 256 == w / 256 / 256 by {
      DigitsDetermine(v / 256 / 256, w / 256 / 256);
    }
    DigitsDetermine(v / 256, w / 256);
    DigitsDetermine(v, w);
  }

  /** Two numbers with the same low digit and the same quotient by 256 are equal. */
  lemma DigitsDetermine(x: nat, y: nat)
    requires x % 256 == y % 256 && x / 256 == y / 256
    ensures x == y
  {
  }

  lemma EncodeDecode(d: seq<byte>, p: nat)
    requires p + 4 <= |d|
    ensures PutUnaligned(GetUnaligned(d, p)) == d[p..p + 4]
  {
    GetUnalignedDigits(d, p);
  }

  // ---------------------------------------------------------------------------
  // Record headers

  predicate HeaderIn(img: seq<byte>, off: nat)
  {
    off + HEADER_LEN <= |img|
  }

  function FileHash(img: seq<byte>, off: nat): u32
    requires HeaderIn(img, off)
  {
    GetUnaligned(img, off)
  }

  function BodyLen(img: seq<byte>, off: nat): u32
    requires HeaderIn(img, off)
  {
    GetUnaligned(img, off + 4)
  }

  function DirHash(img: seq<byte>, off: nat): u32
    requires HeaderIn(img, off)
  {
    GetUnaligned(img, off + 8)
  }

  /**
   * How many bytes the loop test `get_unaligned(meta) && get_unaligned(meta + 4)`
   * reads at `off`: the file hash, and the body length only when the file hash
   * is not zero. The directory hash of a sentinel is never read. TestIn below
   * states the same bound without this function:
   * `TestIn(img, off) <==> off + 4 <= |img| && off + TestLen(img, off) <= |img|`,
   * as TestInLen proves.
   */
  function TestLen(img: seq<byte>, off: nat): (n: nat)
    requires off + 4 <= |img|
    ensures n == 4 <==> GetUnaligned(img, off) == 0
    ensures n == 4 || n == 8
  {
    if GetUnaligned(img, off) == 0 then 4 else 8
  }

  /** The bytes the loop test reads at `off` lie inside the image. */
  predicate TestIn(img: seq<byte>, off: nat)
  {
    off + 4 <= |img| && (GetUnaligned(img, off) != 0 ==> off + 8 <= |img|)
  }

  /** TestIn and TestLen describe the same bytes of the loop test. */
  lemma TestInLen(img: seq<byte>, off: nat)
    ensures TestIn(img, off) <==> off + 4 <= |img| && off + TestLen(img, off) <= |img|
  {
  }

  /** The scan loops stop at a header whose file hash or body length is zero. */
  predicate IsSentinel(img: seq<byte>, off: nat)
    requires TestIn(img, off)
  {
    GetUnaligned(img, off) == 0 || GetUnaligned(img, off + 4) == 0
  }

  /** Where the record after the one at `off` starts: `meta + body_len + 12`. */
  function NextOffset(img: seq<byte>, off: nat): nat
    requires HeaderIn(img, off)
  {
    off + BodyLen(img, off) + HEADER_LEN
  }

  // ---------------------------------------------------------------------------
  // The record walk

  /**
   * The offsets of the records the scan loops visit, starting at `off`, up to
   * (not including) the first sentinel header. None when the walk would read a
   * byte that is not inside the image: the C loop has no bound of its own. A
   * record that passes the loop test has its whole header read (its directory
   * hash by the directory scan) and is followed by another loop test, so its
   * header must lie inside the image.
   */
  function RecordsFrom(img: seq<byte>, off: nat): (r: Option<seq<nat>>)
    ensures r.Some? ==> TestIn(img, off) && (r.value == [] <==> IsSentinel(img, off))
    decreases |img| - off
  {
    if !TestIn(img, off) then None
    else if IsSentinel(img, off) then Some([])
    else if !HeaderIn(img, off) then None
    else match RecordsFrom(img, NextOffset(img, off))
      case None => None
      case Some(rest) => Some([off] + rest)
  }

  /** The walk from the start of the image reaches a sentinel inside the image. */
  predicate Walkable(img: seq<byte>)
  {
    RecordsFrom(img, 0).Some?
  }

  function Records(img: seq<byte>): seq<nat>
    requires Walkable(img)
  {
    RecordsFrom(img, 0).value
  }

  /** Where the walk over `rs`, started at `off`, meets the sentinel. */
  function WalkEnd(img: seq<byte>, off: nat, rs: seq<nat>): nat
    requires AllHeadersIn(img, rs)
  {
    if rs == [] then off else NextOffset(img, rs[|rs| - 1])
  }

  /**
   * `rs` is the chain of record offsets that starts at `off` and steps by
   * `body_len + 12` through non-sentinel headers to a sentinel, whose tested
   * bytes lie inside the image.
   */
  predicate IsWalk(img: seq<byte>, off: nat, rs: seq<nat>)
  {
    && (forall k :: 0 <= k < |rs| ==> HeaderIn(img, rs[k]) && !IsSentinel(img, rs[k]))
    && (|rs| > 0 ==> rs[0] == off)
    && (forall k :: 0 <= k < |rs| - 1 ==> rs[k + 1] == NextOffset(img, rs[k]))
    && TestIn(img, WalkEnd(img, off, rs))
    && IsSentinel(img, WalkEnd(img, off, rs))
  }

  /** Every record the walk visits lies before the sentinel, in increasing order. */
  predicate Ordered(img: seq<byte>, rs: seq<nat>, end: nat)
    requires AllHeadersIn(img, rs)
  {
    && (forall k :: 0 <= k < |rs| ==> NextOffset(img, rs[k]) <= end)
    && (forall i, j :: 0 <= i < j < |rs| ==> NextOffset(img, rs[i]) <= rs[j])
  }

  /** What RecordsFrom computes is exactly the walk described by IsWalk. */
  lemma {:induction false} RecordsFromIsWalk(img: seq<byte>, off: nat)
    requires RecordsFrom(img, off).Some?
    ensures IsWalk(img, off, RecordsFrom(img, off).value)
    ensures Ordered(img, RecordsFrom(img, off).value, WalkEnd(img, off, RecordsFrom(img, off).value))
    decreases |img| - off
  {
    if !IsSentinel(img, off) {
      var next := NextOffset(img, off);
      RecordsFromIsWalk(img, next);
      var rest := RecordsFrom(img, next).value;
      assert RecordsFrom(img, off).value == [off] + rest;
      ConsIsWalk(img, off, rest);
      ConsOrdered(img, off, rest, WalkEnd(img, next, rest));
    }
  }

  /** Putting a non-sentinel record in front of the walk from its successor. */
  lemma ConsIsWalk(img: seq<byte>, off: nat, rest: seq<nat>)
    requires HeaderIn(img, off) && !IsSentinel(img, off)
    requires IsWalk(img, NextOffset(img, off), rest)
    ensures IsWalk(img, off, [off] + rest)
    ensures WalkEnd(img, off, [off] + rest) == WalkEnd(img, NextOffset(img, off), rest)
  {
    var rs := [off] + rest;
    forall k | 0 <= k < |rs| - 1 ensures rs[k + 1] == NextOffset(img, rs[k]) {
      if k > 0 {
        assert rs[k] == rest[k - 1] && rs[k + 1] == rest[k];
      }
    }
  }

  lemma ConsOrdered(img: seq<byte>, off: nat, rest: seq<nat>, e: nat)
    requires HeaderIn(img, off) && AllHeadersIn(img, rest)
    requires rest != [] ==> rest[0] == NextOffset(img, off)
    requires rest == [] ==> NextOffset(img, off) == e
    requires Ordered(img, rest, e)
    ensures Ordered(img, [off] + rest, e)
  {
    var rs := [off] + rest;
    forall i, j | 0 <= i < j < |rs|
      ensures NextOffset(img, rs[i]) <= rs[j]
    {
      assert rs[j] == rest[j - 1];
      if i == 0 {
        if j > 1 {
          assert NextOffset(img, rest[0]) <= rest[j - 1];
        }
      } else {
        assert rs[i] == rest[i - 1];
      }
    }
    forall k | 0 <= k < |rs| ensures NextOffset(img, rs[k]) <= e {
      if k == 0 && rest != [] {
        assert NextOffset(img, rest[0]) <= e;
      } else if k > 0 {
        assert rs[k] == rest[k - 1];
      }
    }
  }

  /** Conversely, any chain that IsWalk describes is what RecordsFrom computes. */
  lemma {:induction false} WalkIsRecordsFrom(img: seq<byte>, off: nat, rs: seq<nat>)
    requires IsWalk(img, off, rs)
    ensures RecordsFrom(img, off) == Some(rs)
    decreases |rs|
  {
    if rs == [] {
      assert WalkEnd(img, off, rs) == off;
    } else {
      var next := NextOffset(img, off);
      var rest := rs[1..];
      assert WalkEnd(img, next, rest) == WalkEnd(img, off, rs);
      assert IsWalk(img, next, rest) by {
        forall k | 0 <= k < |rest| - 1 ensures rest[k + 1] == NextOffset(img, rest[k]) {
          assert rest[k] == rs[k + 1];
        }
      }
      WalkIsRecordsFrom(img, next, rest);
      assert rs == [off] + rest;
    }
  }

  /** The offset of the sentinel header that ends the walk from offset 0. */
  function SentinelOffset(img: seq<byte>): (e: nat)
    requires Walkable(img)
    ensures TestIn(img, e) && IsSentinel(img, e)
  {
    RecordsFromIsWalk(img, 0);
    WalkEnd(img, 0, Records(img))
  }

  /**
   * The walk visits offset 0 first, steps from each record to
   * `off + body_len + 12`, stops at the first sentinel, and every record body
   * lies in the image before that sentinel.
   */
  lemma RecordsShape(img: seq<byte>)
    requires Walkable(img)
    ensures IsWalk(img, 0, Records(img))
    ensures WalkEnd(img, 0, Records(img)) == SentinelOffset(img)
    ensures Ordered(img, Records(img), SentinelOffset(img))
  {
    RecordsFromIsWalk(img, 0);
  }

  /**
   * Nothing after the bytes of the sentinel that the loop test reads is
   * examined: any image that agrees with `a` up to there has the same records.
   */
  lemma TailIgnored(a: seq<byte>, b: seq<byte>)
    requires Walkable(a)
    requires SentinelOffset(a) + TestLen(a, SentinelOffset(a)) <= |b|
    requires a[..SentinelOffset(a) + TestLen(a, SentinelOffset(a))] == b[..SentinelOffset(a) + TestLen(a, SentinelOffset(a))]
    ensures Walkable(b) && Records(b) == Records(a)
  {
    var rs := Records(a);
    var e := SentinelOffset(a);
    var seen := e + TestLen(a, e);
    RecordsShape(a);
    assert forall p: nat :: p + 4 <= seen ==> GetUnaligned(a, p) == GetUnaligned(b, p) by {
      forall p: nat | p + 4 <= seen ensures GetUnaligned(a, p) == GetUnaligned(b, p) {
        assert a[p] == b[p] && a[p + 1] == b[p + 1] && a[p + 2] == b[p + 2] && a[p + 3] == b[p + 3] by {
          assert a[..seen][p] == b[..seen][p];
          assert a[..seen][p + 1] == b[..seen][p + 1];
          assert a[..seen][p + 2] == b[..seen][p + 2];
          assert a[..seen][p + 3] == b[..seen][p + 3];
        }
      }
    }
    forall k | 0 <= k < |rs|
      ensures HeaderIn(b, rs[k]) && NextOffset(b, rs[k]) == NextOffset(a, rs[k])
      ensures FileHash(b, rs[k]) == FileHash(a, rs[k])
    {
      assert NextOffset(a, rs[k]) <= e;
    }
    assert WalkEnd(b, 0, rs) == e;
    assert TestIn(b, e) && IsSentinel(b, e);
    assert IsWalk(b, 0, rs);
    WalkIsRecordsFrom(b, 0, rs);
  }

  /**
   * One record (file hash 1, body length 3, directory hash 7, name "a",
   * content "x") followed by a sentinel of which the loop test reads only what
   * it needs: four zero bytes, or a non-zero file hash and a zero body length,
   * with no directory hash after them. Each image is walked completely.
   */
  lemma ShortSentinels()
    ensures var img: seq<byte> := [1, 0, 0, 0, 3, 0, 0, 0, 7, 0, 0, 0, 97, 0, 120, 0, 0, 0, 0];
      Walkable(img) && Records(img) == [0] && SentinelOffset(img) == 15
    ensures var img: seq<byte> := [1, 0, 0, 0, 3, 0, 0, 0, 7, 0, 0, 0, 97, 0, 120, 5, 0, 0, 0, 0, 0, 0, 0];
      Walkable(img) && Records(img) == [0] && SentinelOffset(img) == 15
  {
    var a: seq<byte> := [1, 0, 0, 0, 3, 0, 0, 0, 7, 0, 0, 0, 97, 0, 120, 0, 0, 0, 0];
    assert GetUnaligned(a, 0) == 1 && GetUnaligned(a, 4) == 3 && GetUnaligned(a, 15) == 0;
    assert RecordsFrom(a, 15) == Some([]);
    var b: seq<byte> := [1, 0, 0, 0, 3, 0, 0, 0, 7, 0, 0, 0, 97, 0, 120, 5, 0, 0, 0, 0, 0, 0, 0];
    assert GetUnaligned(b, 0) == 1 && GetUnaligned(b, 4) == 3 && GetUnaligned(b, 15) == 5 && GetUnaligned(b, 19) == 0;
    assert RecordsFrom(b, 15) == Some([]);
  }

  /**
   * The image cut right after the bytes the loop test reads at the sentinel
   * is still walked completely, with the same records: a ROMFS image needs
   * no full sentinel header and nothing after it.
   */
  lemma CutAfterSentinel(a: seq<byte>)
    requires Walkable(a)
    ensures var cut := a[..SentinelOffset(a) + TestLen(a, SentinelOffset(a))];
      Walkable(cut) && Records(cut) == Records(a)
  {
    var seen := SentinelOffset(a) + TestLen(a, SentinelOffset(a));
    var cut := a[..seen];
    assert cut[..seen] == a[..seen];
    TailIgnored(a, cut);
  }

  // ---------------------------------------------------------------------------
  // Names

  /**
   * strlen of the NUL-terminated string at `p`: the distance to the first zero
   * byte, None when the image holds no zero byte from `p` on.
   */
  function NameLen(img: seq<byte>, p: nat): (n: Option<nat>)
    ensures n.Some? ==> p + n.value < |img| && img[p + n.value] == 0
    decreases |img| - p
  {
    if p >= |img| then None
    else if img[p] == 0 then Some(0)
    else match NameLen(img, p + 1)
      case None => None
      case Some(n) => Some(n + 1)
  }

  /** The zero byte NameLen finds is the first one from `p` on; None means there is none. */
  lemma {:induction false} NameLenFirst(img: seq<byte>, p: nat)
    ensures NameLen(img, p).Some? ==> forall q :: p <= q < p + NameLen(img, p).value ==> img[q] != 0
    ensures NameLen(img, p).None? ==> forall q :: p <= q < |img| ==> img[q] != 0
    decreases |img| - p
  {
    if p < |img| && img[p] != 0 {
      NameLenFirst(img, p + 1);
    }
  }

  /** Conversely, a zero byte at `p + n` with none before it makes NameLen exactly `n`. */
  lemma {:induction false} NameLenAt(img: seq<byte>, p: nat, n: nat)
    requires p + n < |img| && img[p + n] == 0
    requires forall q :: p <= q < p + n ==> img[q] != 0
    ensures NameLen(img, p) == Some(n)
    decreases n
  {
    if n > 0 {
      NameLenAt(img, p + 1, n - 1);
    }
  }

  /** The name of the record at `off` ends, with its NUL, inside the record body. */
  predicate NameInBody(img: seq<byte>, off: nat)
    requires HeaderIn(img, off)
  {
    NameLen(img, off + HEADER_LEN).Some? && NameLen(img, off + HEADER_LEN).value < BodyLen(img, off)
  }

  /**
   * A well-formed image: the walk reaches a sentinel inside the image and every
   * record's name is NUL-terminated inside its body.
   */
  predicate WellFormed(img: seq<byte>)
  {
    Walkable(img) && NamesInBodies(img, Records(img))
  }

  /** Every record of `rs` has its header in the image and its name NUL-terminated inside its body. */
  predicate NamesInBodies(img: seq<byte>, rs: seq<nat>)
  {
    forall k :: 0 <= k < |rs| ==> HeaderIn(img, rs[k]) && NameInBody(img, rs[k])
  }

  /** In a well-formed image, every record the walk visits has its name inside its body. */
  lemma WellFormedRecord(img: seq<byte>, off: nat)
    requires WellFormed(img) && off in Records(img)
    ensures HeaderIn(img, off) && NameInBody(img, off)
  {
    var k :| 0 <= k < |Records(img)| && Records(img)[k] == off;
  }

  /** The name of the record at `off`, without its NUL. */
  function Name(img: seq<byte>, off: nat): (s: seq<byte>)
    requires HeaderIn(img, off) && NameLen(img, off + HEADER_LEN).Some?
    ensures 0 !in s
    ensures off + HEADER_LEN + |s| < |img| && img[off + HEADER_LEN + |s|] == 0
  {
    NameLenFirst(img, off + HEADER_LEN);
    var n := NameLen(img, off + HEADER_LEN).value;
    var s := img[off + HEADER_LEN .. off + HEADER_LEN + n];
    assert forall i :: 0 <= i < |s| ==> s[i] == img[off + HEADER_LEN + i];
    s
  }

  /** Every record body ends before the sentinel, so it lies inside the image. */
  lemma RecordFits(img: seq<byte>, off: nat)
    requires Walkable(img) && off in Records(img)
    ensures HeaderIn(img, off) && NextOffset(img, off) <= SentinelOffset(img)
    ensures SentinelOffset(img) + TestLen(img, SentinelOffset(img)) <= |img|
  {
    RecordsShape(img);
  }

  /**
   * The content of the record at `off`: the body is its name, the NUL and then
   * exactly this content.
   */
  function Content(img: seq<byte>, off: nat): (c: seq<byte>)
    requires HeaderIn(img, off) && NameInBody(img, off) && NextOffset(img, off) <= |img|
    ensures Name(img, off) + [0] + c == img[off + HEADER_LEN .. NextOffset(img, off)]
    ensures |c| == BodyLen(img, off) - |Name(img, off)| - 1
  {
    var n := |Name(img, off)|;
    var body := img[off + HEADER_LEN .. NextOffset(img, off)];
    assert body[..n] == Name(img, off) && body[n] == 0;
    assert body == body[..n] + [body[n]] + body[n + 1..];
    body[n + 1..]
  }

  /**
   * Where the content of a record the walk visits lies: right after the NUL of
   * its name, up to the header of the next record.
   */
  lemma ContentAt(img: seq<byte>, off: nat)
    requires WellFormed(img) && off in Records(img)
    ensures HeaderIn(img, off) && NameInBody(img, off) && NextOffset(img, off) <= |img|
    ensures NameLen(img, off + HEADER_LEN).value == |Name(img, off)|
    ensures img[off + HEADER_LEN + |Name(img, off)| + 1 .. NextOffset(img, off)] == Content(img, off)
  {
    RecordFits(img, off);
    WellFormedRecord(img, off);
    var n := |Name(img, off)|;
    assert img[off + HEADER_LEN .. NextOffset(img, off)][n + 1..] == img[off + HEADER_LEN + n + 1 .. NextOffset(img, off)];
  }

  // ---------------------------------------------------------------------------
  // Lookups over the walk

  predicate AllHeadersIn(img: seq<byte>, rs: seq<nat>)
  {
    forall k :: 0 <= k < |rs| ==> HeaderIn(img, rs[k])
  }

  /** The index in `rs` of the first record whose file hash is `h`. */
  function FirstFileMatch(img: seq<byte>, rs: seq<nat>, h: u32): (k: Option<nat>)
    requires AllHeadersIn(img, rs)
    ensures k.Some? ==> k.value < |rs| && FileHash(img, rs[k.value]) == h
    ensures k.Some? ==> forall j :: 0 <= j < k.value ==> FileHash(img, rs[j]) != h
    ensures k.None? ==> forall j :: 0 <= j < |rs| ==> FileHash(img, rs[j]) != h
  {
    if rs == [] then None
    else if FileHash(img, rs[0]) == h then Some(0)
    else match FirstFileMatch(img, rs[1..], h)
      case None => None
      case Some(k) => Some(k + 1)
  }

  /** The header offset of the first record, in image order, whose file hash is `h`. */
  function FindFile(img: seq<byte>, h: u32): (r: Option<nat>)
    requires Walkable(img)
    ensures r.Some? ==> r.value in Records(img) && HeaderIn(img, r.value) && FileHash(img, r.value) == h
    ensures r.None? ==> forall off :: off in Records(img) ==> HeaderIn(img, off) && FileHash(img, off) != h
  {
    RecordsShape(img);
    match FirstFileMatch(img, Records(img), h)
    case None => None
    case Some(k) => Some(Records(img)[k])
  }

  /** FindFile picks the first match: no record before it has hash `h`. */
  lemma FindFileIsFirst(img: seq<byte>, h: u32, k: nat)
    requires Walkable(img) && FindFile(img, h).Some?
    requires k < |Records(img)| && Records(img)[k] < FindFile(img, h).value
    ensures HeaderIn(img, Records(img)[k]) && FileHash(img, Records(img)[k]) != h
  {
    var rs := Records(img);
    RecordsShape(img);
    var m := FirstFileMatch(img, rs, h).value;
    Monotone(img, rs, SentinelOffset(img), m, k);
  }

  /** Every record the walk visits has its whole header inside the image. */
  lemma RecordHeadersIn(img: seq<byte>)
    requires Walkable(img)
    ensures AllHeadersIn(img, Records(img))
  {
    RecordsFromIsWalk(img, 0);
  }

  /** The walk visits strictly increasing offsets, so no record is visited twice. */
  lemma RecordsIncreasing(img: seq<byte>)
    requires Walkable(img)
    ensures forall i, j :: 0 <= i < j < |Records(img)| ==> Records(img)[i] < Records(img)[j]
  {
    RecordsShape(img);
    var rs := Records(img);
    forall i, j | 0 <= i < j < |rs| ensures rs[i] < rs[j] {
      assert NextOffset(img, rs[i]) <= rs[j];
    }
  }

  /** Along the walk, a later record never starts before an earlier one. */
  lemma Monotone(img: seq<byte>, rs: seq<nat>, end: nat, i: nat, j: nat)
    requires AllHeadersIn(img, rs) && Ordered(img, rs, end)
    requires i < |rs| && j < |rs|
    ensures i <= j ==> rs[i] <= rs[j]
  {
    if i < j {
      assert NextOffset(img, rs[i]) <= rs[j];
    }
  }

  /**
   * One step of a scan loop positioned at `meta`, whose walk is `rest`: the
   * header there is a sentinel exactly when no records are left, and otherwise
   * `meta` is the first of them and the walk goes on from the next record.
   */
  lemma WalkStep(img: seq<byte>, meta: nat, rest: seq<nat>)
    requires RecordsFrom(img, meta) == Some(rest)
    ensures TestIn(img, meta)
    ensures IsSentinel(img, meta) <==> rest == []
    ensures IsSentinel(img, meta) <==> GetUnaligned(img, meta) == 0 || GetUnaligned(img, meta + 4) == 0
    ensures !IsSentinel(img, meta) ==>
      HeaderIn(img, meta) && rest[0] == meta && RecordsFrom(img, NextOffset(img, meta)) == Some(rest[1..]) &&
      NextOffset(img, meta) == meta + GetUnaligned(img, meta + 4) + HEADER_LEN
  {
    if !IsSentinel(img, meta) {
      var tail := RecordsFrom(img, NextOffset(img, meta)).value;
      assert rest == [meta] + tail;
      assert rest[1..] == tail;
    }
  }

  /** The record at `off` is listed in the directory whose hash is `h`. */
  predicate DirMatch(img: seq<byte>, off: nat, h: u32)
  {
    HeaderIn(img, off) && DirHash(img, off) == h
  }

  /** The records of `rs`, in order, whose directory hash is `h`. */
  function DirMatches(img: seq<byte>, rs: seq<nat>, h: u32): (ms: seq<nat>)
    ensures |ms| <= |rs|
    decreases |rs|
  {
    if rs == [] then []
    else (if DirMatch(img, rs[0], h) then [rs[0]] else []) + DirMatches(img, rs[1..], h)
  }

  /** DirMatches peels off the first record. */
  lemma DirMatchesUnfold(img: seq<byte>, rs: seq<nat>, h: u32)
    requires rs != []
    ensures DirMatches(img, rs, h) ==
      (if DirMatch(img, rs[0], h) then [rs[0]] else []) + DirMatches(img, rs[1..], h)
  {
  }

  /** Every match is one of the records of `rs` and has directory hash `h`. */
  lemma {:induction false} DirMatchesSound(img: seq<byte>, rs: seq<nat>, h: u32)
    ensures forall i :: 0 <= i < |DirMatches(img, rs, h)| ==>
      DirMatches(img, rs, h)[i] in rs && DirMatch(img, DirMatches(img, rs, h)[i], h)
    decreases |rs|
  {
    if rs != [] {
      var tail := rs[1..];
      DirMatchesSound(img, tail, h);
      var ms := DirMatches(img, rs, h);
      var head := if DirMatch(img, rs[0], h) then [rs[0]] else [];
      forall i | 0 <= i < |ms| ensures ms[i] in rs && DirMatch(img, ms[i], h) {
        if i < |head| {
          assert ms[i] == rs[0];
        } else {
          assert ms[i] == DirMatches(img, tail, h)[i - |head|];
          var j :| 0 <= j < |tail| && tail[j] == ms[i];
          assert rs[j + 1] == ms[i];
        }
      }
    }
  }

  /** Every record of `rs` with directory hash `h` is among the matches. */
  lemma {:induction false} DirMatchesComplete(img: seq<byte>, rs: seq<nat>, h: u32, off: nat)
    requires off in rs && DirMatch(img, off, h)
    ensures off in DirMatches(img, rs, h)
    decreases |rs|
  {
    if off != rs[0] {
      assert off in rs[1..] by {
        var i :| 0 <= i < |rs| && rs[i] == off;
        assert rs[1..][i - 1] == off;
      }
      DirMatchesComplete(img, rs[1..], h, off);
    }
  }

  /** A subsequence of an increasing sequence is increasing: the matches keep image order. */
  lemma {:induction false} DirMatchesIncreasing(img: seq<byte>, rs: seq<nat>, h: u32)
    requires forall i, j :: 0 <= i < j < |rs| ==> rs[i] < rs[j]
    ensures forall i, j :: 0 <= i < j < |DirMatches(img, rs, h)| ==>
      DirMatches(img, rs, h)[i] < DirMatches(img, rs, h)[j]
    decreases |rs|
  {
    if rs != [] {
      var tail := rs[1..];
      DirMatchesIncreasing(img, tail, h);
      DirMatchesSound(img, tail, h);
      var ms := DirMatches(img, tail, h);
      forall i | 0 <= i < |ms| ensures rs[0] < ms[i] {
        var j :| 0 <= j < |tail| && tail[j] == ms[i];
        assert rs[j + 1] == ms[i];
      }
    }
  }

  /** Every record of `ms` has its header in the image and its name NUL-terminated within the image. */
  predicate NamesTerminated(img: seq<byte>, ms: seq<nat>)
  {
    forall k :: 0 <= k < |ms| ==> HeaderIn(img, ms[k]) && NameLen(img, ms[k] + HEADER_LEN).Some?
  }

  /** The names of the records `ms`, in order. */
  function NamesOf(img: seq<byte>, ms: seq<nat>): (ns: seq<seq<byte>>)
    requires NamesTerminated(img, ms)
    ensures |ns| == |ms|
  {
    if ms == [] then [] else [Name(img, ms[0])] + NamesOf(img, ms[1..])
  }

  lemma {:induction false} NamesOfAt(img: seq<byte>, ms: seq<nat>, k: nat)
    requires NamesTerminated(img, ms) && k < |ms|
    ensures NamesOf(img, ms)[k] == Name(img, ms[k])
  {
    if k > 0 {
      assert NamesTerminated(img, ms[1..]) by {
        forall j | 0 <= j < |ms| - 1
          ensures HeaderIn(img, ms[1..][j]) && NameLen(img, ms[1..][j] + HEADER_LEN).Some?
        {
          assert ms[1..][j] == ms[j + 1];
        }
      }
      NamesOfAt(img, ms[1..], k - 1);
    }
  }

  /**
   * Every record of `rs` has its header in the image, and every one of them in
   * directory `h` has its name NUL-terminated within the image: the names the
   * directory scan hands to strcpy. Other names are never read.
   */
  predicate DirNamesIn(img: seq<byte>, rs: seq<nat>, h: u32)
  {
    forall k :: 0 <= k < |rs| ==>
      HeaderIn(img, rs[k]) && (DirHash(img, rs[k]) == h ==> NameLen(img, rs[k] + HEADER_LEN).Some?)
  }

  lemma DirNamesInTail(img: seq<byte>, rs: seq<nat>, h: u32)
    requires DirNamesIn(img, rs, h) && rs != []
    ensures DirNamesIn(img, rs[1..], h)
  {
    forall k | 0 <= k < |rs| - 1
      ensures HeaderIn(img, rs[1..][k]) && (DirHash(img, rs[1..][k]) == h ==> NameLen(img, rs[1..][k] + HEADER_LEN).Some?)
    {
      assert rs[1..][k] == rs[k + 1];
    }
  }

  /**
   * Directory `h` can be listed: the walk reaches its sentinel inside the image
   * and every name the scan copies ends inside the image.
   */
  predicate Listable(img: seq<byte>, h: u32)
  {
    Walkable(img) && DirNamesIn(img, Records(img), h)
  }

  /** Every directory of a well-formed image can be listed. */
  lemma WellFormedListable(img: seq<byte>, h: u32)
    requires WellFormed(img)
    ensures Listable(img, h)
  {
  }

  /** The names of the records of `rs`, in order, whose directory hash is `h`. */
  function DirNamesOf(img: seq<byte>, rs: seq<nat>, h: u32): (names: seq<seq<byte>>)
    requires DirNamesIn(img, rs, h)
    ensures |names| == |DirMatches(img, rs, h)|
    ensures forall k :: 0 <= k < |names| ==> 0 !in names[k]
    decreases |rs|
  {
    if rs == [] then []
    else
      DirNamesInTail(img, rs, h);
      (if DirHash(img, rs[0]) == h then [Name(img, rs[0])] else []) + DirNamesOf(img, rs[1..], h)
  }

  /**
   * The names listed for directory `h`: one for each record, in image order,
   * whose directory hash is `h`, none holding a NUL.
   */
  function DirNames(img: seq<byte>, h: u32): (names: seq<seq<byte>>)
    requires Listable(img, h)
    ensures |names| == |DirMatches(img, Records(img), h)|
    ensures forall k :: 0 <= k < |names| ==> 0 !in names[k]
  {
    DirNamesOf(img, Records(img), h)
  }

  /**
   * The names DirNamesOf collects are those of the records DirMatches picks,
   * one for one and in the same order.
   */
  lemma {:induction false} DirNamesOfMatches(img: seq<byte>, rs: seq<nat>, h: u32)
    requires DirNamesIn(img, rs, h)
    ensures NamesTerminated(img, DirMatches(img, rs, h))
    ensures DirNamesOf(img, rs, h) == NamesOf(img, DirMatches(img, rs, h))
    decreases |rs|
  {
    DirMatchesSound(img, rs, h);
    var ms := DirMatches(img, rs, h);
    assert NamesTerminated(img, ms) by {
      forall k | 0 <= k < |ms| ensures HeaderIn(img, ms[k]) && NameLen(img, ms[k] + HEADER_LEN).Some? {
        var j :| 0 <= j < |rs| && rs[j] == ms[k];
      }
    }
    if rs != [] {
      DirNamesInTail(img, rs, h);
      DirNamesOfMatches(img, rs[1..], h);
      DirMatchesUnfold(img, rs, h);
      var tail := DirMatches(img, rs[1..], h);
      if DirMatch(img, rs[0], h) {
        assert ms == [rs[0]] + tail;
        assert ms[1..] == tail;
      } else {
        assert ms == tail;
      }
    }
  }

  /**
   * The `k`-th name of directory `h` is the name of its `k`-th matching
   * record, a record of the walk; in a well-formed image that name lies
   * inside the record's body.
   */
  lemma DirNamesAt(img: seq<byte>, h: u32, k: nat)
    requires Listable(img, h) && k < |DirNames(img, h)|
    ensures k < |DirMatches(img, Records(img), h)|
    ensures DirMatches(img, Records(img), h)[k] in Records(img)
    ensures DirMatch(img, DirMatches(img, Records(img), h)[k], h)
    ensures NameLen(img, DirMatches(img, Records(img), h)[k] + HEADER_LEN).Some?
    ensures DirNames(img, h)[k] == Name(img, DirMatches(img, Records(img), h)[k])
    ensures WellFormed(img) ==> NameInBody(img, DirMatches(img, Records(img), h)[k])
  {
    var ms := DirMatches(img, Records(img), h);
    DirMatchesSound(img, Records(img), h);
    DirNamesOfMatches(img, Records(img), h);
    NamesOfAt(img, ms, k);
    if WellFormed(img) {
      WellFormedRecord(img, ms[k]);
    }
  }
}
