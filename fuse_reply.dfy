/**
 * The reply side of the FUSE request layer: the `fuse_out_header` every
 * handler fills, the `fuse_ll_reply_*` helpers that add the size of the
 * reply payload (which depends on the negotiated protocol minor), and the
 * open flags `fill_open` derives from a `fuse_file_info`.
 */
module FuseReply {
  import opened Common
  import Errno
  import FuseIov

  const OUT_HEADER_SIZE: nat := 16
  const ATTR_OUT_SIZE: nat := 104
  const COMPAT_ATTR_OUT_SIZE: nat := 96
  const ENTRY_OUT_SIZE: nat := 128
  const COMPAT_ENTRY_OUT_SIZE: nat := 120
  const OPEN_OUT_SIZE: nat := 16
  /** The bytes of `struct fuse_open_out` that `fill_open` writes: the handle and the flags. The
      four bytes of padding after them keep whatever the reply buffer held. */
  const OPEN_FILLED_SIZE: nat := 12
  const STATFS_OUT_SIZE: nat := 80
  const COMPAT_STATFS_SIZE: nat := 48
  const WRITE_OUT_SIZE: nat := 8

  /** `struct fuse_out_header`: total reply length, negated errno, request id. */
  datatype OutHeader = OutHeader(len: nat, error: int, unique: nat)

  /**
   * The header every handler starts its reply with: the request's id,
   * no error, and the length of the header alone.
   */
  function Begin(unique: nat): OutHeader
  {
    OutHeader(OUT_HEADER_SIZE, 0, unique)
  }

  /** `fuse_attr_out` is sent in its pre-7.9 size to older kernels. */
  function AttrOutSize(minor: nat): (n: nat)
    ensures COMPAT_ATTR_OUT_SIZE <= n <= ATTR_OUT_SIZE
    ensures n == ATTR_OUT_SIZE <==> minor >= 9
  {
    if minor < 9 then COMPAT_ATTR_OUT_SIZE else ATTR_OUT_SIZE
  }

  /** `fuse_entry_out` is sent in its pre-7.9 size to older kernels. */
  function EntryOutSize(minor: nat): (n: nat)
    ensures COMPAT_ENTRY_OUT_SIZE <= n <= ENTRY_OUT_SIZE
    ensures n == ENTRY_OUT_SIZE <==> minor >= 9
  {
    if minor < 9 then COMPAT_ENTRY_OUT_SIZE else ENTRY_OUT_SIZE
  }

  /** `fuse_statfs_out` is sent in its pre-7.4 size to older kernels. */
  function StatfsOutSize(minor: nat): (n: nat)
    ensures COMPAT_STATFS_SIZE <= n <= STATFS_OUT_SIZE
    ensures n == STATFS_OUT_SIZE <==> minor >= 4
  {
    if minor < 4 then COMPAT_STATFS_SIZE else STATFS_OUT_SIZE
  }

  /** `fuse_ll_reply_attr`: the attribute payload follows the header. */
  function ReplyAttr(h: OutHeader, minor: nat): (r: OutHeader)
    ensures r.unique == h.unique && r.error == h.error
    ensures r.len == h.len + AttrOutSize(minor)
    ensures h.len + COMPAT_ATTR_OUT_SIZE <= r.len <= h.len + ATTR_OUT_SIZE
  {
    h.(len := h.len + AttrOutSize(minor))
  }

  /**
   * `fuse_ll_reply_entry`: before ABI 7.4 a zero inode is not a negative
   * entry, so it becomes -ENOENT with no payload.
   */
  function ReplyEntry(h: OutHeader, minor: nat, ino: nat): (r: OutHeader)
    ensures r.unique == h.unique
    ensures ino == 0 && minor < 4 ==> r == h.(error := -Errno.ENOENT)
    ensures !(ino == 0 && minor < 4) ==> r.error == h.error && r.len == h.len + EntryOutSize(minor)
  {
    if ino == 0 && minor < 4 then h.(error := -Errno.ENOENT)
    else h.(len := h.len + EntryOutSize(minor))
  }

  /**
   * The part of `struct fuse_open_out` that `fill_open` writes: the file
   * handle and the open flags, in host (little-endian) order. The padding
   * after them is left as it was.
   */
  function OpenOut(fi: FileInfo): (b: seq<Byte>)
    ensures |b| == OPEN_FILLED_SIZE
    ensures LeValue(b[..8]) == fi.fh && LeValue(b[8..]) == FillOpen(fi).1 as int
  {
    var flags := FillOpen(fi).1 as int;
    Pow256Widths();
    LeRoundTrip(fi.fh, 8);
    LeRoundTrip(flags, 4);
    var b := LeBytes(fi.fh, 8) + LeBytes(flags, 4);
    assert b[..8] == LeBytes(fi.fh, 8) && b[8..] == LeBytes(flags, 4);
    b
  }

  /**
   * `fuse_ll_reply_open`: the open record follows the header and is
   * counted in its length in full; the bytes written give back the file
   * handle and the open flags of `fi`.
   */
  function ReplyOpen(h: OutHeader, fi: FileInfo): (r: (OutHeader, seq<Byte>))
    ensures r.0.unique == h.unique && r.0.error == h.error && r.0.len == h.len + OPEN_OUT_SIZE
    ensures |r.1| == OPEN_FILLED_SIZE && LeValue(r.1[..8]) == fi.fh && LeValue(r.1[8..]) == FillOpen(fi).1 as int
  {
    (h.(len := h.len + OPEN_OUT_SIZE), OpenOut(fi))
  }

  /** A `fuse_file_info` with nothing set: the bytes written of its open record are all zeros. */
  const NoFileInfo := FileInfo(0, false, false, false, false, false)

  lemma NoFileInfoZeros()
    ensures OpenOut(NoFileInfo) == Zeros(OPEN_FILLED_SIZE)
  {
    var b := OpenOut(NoFileInfo);
    assert FillOpen(NoFileInfo).1 == 0;
    LeBytesOfValue(b[..8]);
    LeBytesOfValue(b[8..12]);
    assert LeBytes(0, 8) == Zeros(8);
    assert LeBytes(0, 4) == Zeros(4);
    assert b == b[..8] + b[8..];
  }

  /**
   * `fuse_ll_reply_create`: an entry and an open reply back to back, both
   * counted in the header.
   */
  function ReplyCreate(h: OutHeader, minor: nat, fi: FileInfo): (r: (OutHeader, seq<Byte>))
    ensures r.0.unique == h.unique && r.0.error == h.error
    ensures r.0.len == h.len + EntryOutSize(minor) + OPEN_OUT_SIZE
    ensures r == ReplyOpen(h.(len := h.len + EntryOutSize(minor)), fi)
  {
    (h.(len := h.len + EntryOutSize(minor) + OPEN_OUT_SIZE), OpenOut(fi))
  }

  /** `fuse_ll_reply_statfs`. */
  function ReplyStatfs(h: OutHeader, minor: nat): (r: OutHeader)
    ensures r.unique == h.unique && r.error == h.error
    ensures r.len == h.len + StatfsOutSize(minor)
    ensures h.len + COMPAT_STATFS_SIZE <= r.len <= h.len + STATFS_OUT_SIZE
  {
    h.(len := h.len + StatfsOutSize(minor))
  }

  /**
   * `fuse_ll_reply_iov`: the header counts every byte before the cursor,
   * that is the whole of the output iovecs up to the current one and the
   * written part of that one.
   */
  function ReplyIov(h: OutHeader, cur: FuseIov.IovCursor): (r: OutHeader)
    reads cur
    requires cur.Valid()
    ensures r.unique == h.unique && r.error == h.error
    ensures r.len == h.len + Sum(FuseIov.Lens(cur.iovec)[..cur.iovIdx]) + cur.bufIdx
    ensures r.len <= h.len + |cur.Contents()|
  {
    h.(len := h.len + (cur.totalSize - cur.bytesUnused))
  }

  /** A cursor that wrote `bytes` from offset `p0` on replies with exactly those bytes after them. */
  lemma ReplyIovWrote(h: OutHeader, cur: FuseIov.IovCursor, lens0: seq<nat>, c0: seq<Byte>, p0: nat, bytes: seq<Byte>)
    requires FuseIov.Wrote(cur, lens0, c0, p0, bytes)
    ensures ReplyIov(h, cur).len == h.len + p0 + |bytes|
  {
  }

  /** The parts of `struct fuse_file_info` that `fill_open` reads. */
  datatype FileInfo = FileInfo(fh: Uint64, directIo: bool, keepCache: bool, cacheReaddir: bool,
                               nonseekable: bool, noflush: bool)

  const FOPEN_DIRECT_IO: bv32 := 1
  const FOPEN_KEEP_CACHE: bv32 := 2
  const FOPEN_NONSEEKABLE: bv32 := 4
  const FOPEN_CACHE_DIR: bv32 := 8
  const FOPEN_NOFLUSH: bv32 := 32

  /** `fill_open`: the file handle and the open flags. */
  function FillOpen(fi: FileInfo): (r: (Uint64, bv32))
  {
    (fi.fh,
     (if fi.directIo then FOPEN_DIRECT_IO else 0)
     | (if fi.keepCache then FOPEN_KEEP_CACHE else 0)
     | (if fi.cacheReaddir then FOPEN_CACHE_DIR else 0)
     | (if fi.nonseekable then FOPEN_NONSEEKABLE else 0))
  }

  /**
   * Each open flag is set exactly when its field is; `noflush` never
   * reaches the kernel (its line is disabled in the source).
   */
  lemma FillOpenFlags(fi: FileInfo)
    ensures FillOpen(fi).0 == fi.fh
    ensures (FillOpen(fi).1 & FOPEN_DIRECT_IO != 0) <==> fi.directIo
    ensures (FillOpen(fi).1 & FOPEN_KEEP_CACHE != 0) <==> fi.keepCache
    ensures (FillOpen(fi).1 & FOPEN_CACHE_DIR != 0) <==> fi.cacheReaddir
    ensures (FillOpen(fi).1 & FOPEN_NONSEEKABLE != 0) <==> fi.nonseekable
    ensures FillOpen(fi).1 & FOPEN_NOFLUSH == 0
  {
  }
}
