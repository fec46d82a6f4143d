/**
 * `fattr3_to_fuse_attr` of virtionfs: an NFSv3 `fattr3` (the attribute
 * record of RFC 1813) turned into the `struct fuse_attr` of a FUSE reply.
 *
 * The mapping copies the file id, size, the three times and the mode, link
 * count and owners, zeroes `blocks`, `rdev` and `blksize`, and drops the
 * NFS type, the space used, the device numbers and the file-system id.
 * Its partner is the inverse below: the `fattr3` is recovered from the
 * `fuse_attr` plus exactly the dropped fields.
 */
module Nfs3Attr {
  import opened Common
  import NfsXdr

  /** `nfstime3`: seconds and nanoseconds. */
  datatype NfsTime3 = NfsTime3(seconds: Uint32, nseconds: Uint32)

  /** `specdata3`: the major and minor device numbers. */
  datatype Specdata3 = Specdata3(major: Uint32, minor: Uint32)

  /** `fattr3`, field by field. */
  datatype Fattr3 = Fattr3(ftype: Uint32, mode: Uint32, nlink: Uint32, uid: Uint32, gid: Uint32,
                           size: Uint64, used: Uint64, rdev: Specdata3, fsid: Uint64, fileid: Uint64,
                           atime: NfsTime3, mtime: NfsTime3, ctime: NfsTime3)

  /** The `fattr3` fields that have no place in the FUSE attributes. */
  datatype Dropped = Dropped(ftype: Uint32, used: Uint64, rdev: Specdata3, fsid: Uint64)

  /** `fattr3_to_fuse_attr`. */
  function ToFuseAttr(a: Fattr3): (f: NfsXdr.FuseAttr)
    ensures f.blocks == 0 && f.rdev == 0 && f.blksize == 0
  {
    NfsXdr.FuseAttr(a.fileid, a.size, 0,
                    a.atime.seconds, a.mtime.seconds, a.ctime.seconds,
                    a.atime.nseconds, a.mtime.nseconds, a.ctime.nseconds,
                    a.mode as bv32, a.nlink, a.uid, a.gid, 0, 0)
  }

  /** What `ToFuseAttr` leaves behind. */
  function DroppedOf(a: Fattr3): Dropped
  {
    Dropped(a.ftype, a.used, a.rdev, a.fsid)
  }

  /**
   * The `fattr3` rebuilt from FUSE attributes and the dropped fields; the
   * mode is taken back from its 32-bit pattern.
   */
  function FromFuseAttr(f: NfsXdr.FuseAttr, d: Dropped): Fattr3
  {
    Fattr3(d.ftype, f.mode as int, f.nlink, f.uid, f.gid, f.size, d.used, d.rdev, d.fsid, f.ino,
           NfsTime3(f.atime % U32, f.atimensec), NfsTime3(f.mtime % U32, f.mtimensec),
           NfsTime3(f.ctime % U32, f.ctimensec))
  }

  /**
   * Nothing but the dropped fields is lost: the file id becomes `ino`, and
   * size, times, link count, uid and gid come through unchanged; the mode
   * is carried as the same 32-bit pattern.
   */
  lemma ToFuseAttrRoundTrip(a: Fattr3)
    ensures ToFuseAttr(a).mode == a.mode as bv32
    ensures var r := FromFuseAttr(ToFuseAttr(a), DroppedOf(a)); r == a.(mode := r.mode)
  {
    SecondsRoundTrip(a.atime.seconds);
    SecondsRoundTrip(a.mtime.seconds);
    SecondsRoundTrip(a.ctime.seconds);
  }

  lemma SecondsRoundTrip(s: Uint32)
    ensures s % U32 == s
  {
  }

  /**
   * Two records map to the same FUSE attributes exactly when their modes
   * have the same 32-bit pattern and they differ at most in the mode and
   * the dropped fields.
   */
  lemma ToFuseAttrSame(a: Fattr3, b: Fattr3)
    ensures ToFuseAttr(a) == ToFuseAttr(b) <==>
      a.mode as bv32 == b.mode as bv32 &&
      a.(ftype := b.ftype, used := b.used, rdev := b.rdev, fsid := b.fsid, mode := b.mode) == b
  {
    if ToFuseAttr(a) == ToFuseAttr(b) {
      ToFuseAttrRoundTrip(a);
      ToFuseAttrRoundTrip(b);
      assert FromFuseAttr(ToFuseAttr(a), DroppedOf(b)) == FromFuseAttr(ToFuseAttr(b), DroppedOf(b));
    }
  }
}
