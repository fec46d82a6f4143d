/**
 * FUSE opcodes as `linux/fuse.h` numbers them, and the opcode-to-name
 * switch of `fuse_ll_debug_print_in_hdr` (dpfs_fuse/debug.h). The printing
 * itself is I/O and not modelled; the name it prints is.
 */
module FuseOps {
  const FUSE_LOOKUP: nat := 1
  const FUSE_FORGET: nat := 2
  const FUSE_GETATTR: nat := 3
  const FUSE_SETATTR: nat := 4
  const FUSE_READLINK: nat := 5
  const FUSE_SYMLINK: nat := 6
  const FUSE_MKNOD: nat := 8
  const FUSE_MKDIR: nat := 9
  const FUSE_UNLINK: nat := 10
  const FUSE_RMDIR: nat := 11
  const FUSE_RENAME: nat := 12
  const FUSE_LINK: nat := 13
  const FUSE_OPEN: nat := 14
  const FUSE_READ: nat := 15
  const FUSE_WRITE: nat := 16
  const FUSE_STATFS: nat := 17
  const FUSE_RELEASE: nat := 18
  const FUSE_FSYNC: nat := 20
  const FUSE_SETXATTR: nat := 21
  const FUSE_GETXATTR: nat := 22
  const FUSE_LISTXATTR: nat := 23
  const FUSE_REMOVEXATTR: nat := 24
  const FUSE_FLUSH: nat := 25
  const FUSE_INIT: nat := 26
  const FUSE_OPENDIR: nat := 27
  const FUSE_READDIR: nat := 28
  const FUSE_RELEASEDIR: nat := 29
  const FUSE_FSYNCDIR: nat := 30
  const FUSE_GETLK: nat := 31
  const FUSE_SETLK: nat := 32
  const FUSE_SETLKW: nat := 33
  const FUSE_ACCESS: nat := 34
  const FUSE_CREATE: nat := 35
  const FUSE_INTERRUPT: nat := 36
  const FUSE_BMAP: nat := 37
  const FUSE_DESTROY: nat := 38
  const FUSE_IOCTL: nat := 39
  const FUSE_POLL: nat := 40
  const FUSE_NOTIFY_REPLY: nat := 41
  const FUSE_BATCH_FORGET: nat := 42
  const FUSE_FALLOCATE: nat := 43
  const FUSE_READDIRPLUS: nat := 44
  const FUSE_RENAME2: nat := 45
  const FUSE_LSEEK: nat := 46
  const FUSE_COPY_FILE_RANGE: nat := 47
  const FUSE_SETUPMAPPING: nat := 48
  const FUSE_REMOVEMAPPING: nat := 49
  const CUSE_INIT: nat := 4096

  /** Highest opcode the dispatchers accept (`FUSE_REMOVEMAPPING`). */
  const MAX_OPCODE: nat := FUSE_REMOVEMAPPING

  /** What the debug print shows for an opcode it does not list. */
  const UNKNOWN_NAME: string := "UNKNOWN FUSE operation!"

  /** The opcodes `linux/fuse.h` defines: 1 to 49 except 7 and 19, and `CUSE_INIT`. */
  predicate Listed(opcode: int)
  {
    (1 <= opcode <= MAX_OPCODE && opcode != 7 && opcode != 19) || opcode == CUSE_INIT
  }

  /**
   * The name `fuse_ll_debug_print_in_hdr` prints for an opcode: the
   * `linux/fuse.h` name of a listed opcode, the fixed unknown-operation
   * text for any other.
   */
  function OpName(opcode: int): (s: string)
    ensures Listed(opcode) <==> s != UNKNOWN_NAME
    ensures Listed(opcode) ==> |s| >= 9
  {
    match opcode
    case 1 => "FUSE_LOOKUP"
    case 2 => "FUSE_FORGET"
    case 3 => "FUSE_GETATTR"
    case 4 => "FUSE_SETATTR"
    case 5 => "FUSE_READLINK"
    case 6 => "FUSE_SYMLINK"
    case 8 => "FUSE_MKNOD"
    case 9 => "FUSE_MKDIR"
    case 10 => "FUSE_UNLINK"
    case 11 => "FUSE_RMDIR"
    case 12 => "FUSE_RENAME"
    case 13 => "FUSE_LINK"
    case 14 => "FUSE_OPEN"
    case 15 => "FUSE_READ"
    case 16 => "FUSE_WRITE"
    case 17 => "FUSE_STATFS"
    case 18 => "FUSE_RELEASE"
    case 20 => "FUSE_FSYNC"
    case 21 => "FUSE_SETXATTR"
    case 22 => "FUSE_GETXATTR"
    case 23 => "FUSE_LISTXATTR"
    case 24 => "FUSE_REMOVEXATTR"
    case 25 => "FUSE_FLUSH"
    case 26 => "FUSE_INIT"
    case 27 => "FUSE_OPENDIR"
    case 28 => "FUSE_READDIR"
    case 29 => "FUSE_RELEASEDIR"
    case 30 => "FUSE_FSYNCDIR"
    case 31 => "FUSE_GETLK"
    case 32 => "FUSE_SETLK"
    case 33 => "FUSE_SETLKW"
    case 34 => "FUSE_ACCESS"
    case 35 => "FUSE_CREATE"
    case 36 => "FUSE_INTERRUPT"
    case 37 => "FUSE_BMAP"
    case 38 => "FUSE_DESTROY"
    case 39 => "FUSE_IOCTL"
    case 40 => "FUSE_POLL"
    case 41 => "FUSE_NOTIFY_REPLY"
    case 42 => "FUSE_BATCH_FORGET"
    case 43 => "FUSE_FALLOCATE"
    case 44 => "FUSE_READDIRPLUS"
    case 45 => "FUSE_RENAME2"
    case 46 => "FUSE_LSEEK"
    case 47 => "FUSE_COPY_FILE_RANGE"
    case 48 => "FUSE_SETUPMAPPING"
    case 49 => "FUSE_REMOVEMAPPING"
    case 4096 => "CUSE_INIT"
    case _ => UNKNOWN_NAME
  }

  /**
   * Recovers the opcode from a name by its length and three characters,
   * which together tell every listed name apart; 0 for anything else.
   */
  function OpcodeOfName(s: string): (opcode: int)
    requires |s| >= 9
  {
    if |s| == 11 && s[0] == 'F' && s[5] == 'L' && s[7] == 'O' then FUSE_LOOKUP else
    if |s| == 11 && s[0] == 'F' && s[5] == 'F' && s[7] == 'R' then FUSE_FORGET else
    if |s| == 12 && s[0] == 'F' && s[5] == 'G' && s[7] == 'T' then FUSE_GETATTR else
    if |s| == 12 && s[0] == 'F' && s[5] == 'S' && s[7] == 'T' then FUSE_SETATTR else
    if |s| == 13 && s[0] == 'F' && s[5] == 'R' && s[7] == 'A' then FUSE_READLINK else
    if |s| == 12 && s[0] == 'F' && s[5] == 'S' && s[7] == 'M' then FUSE_SYMLINK else
    if |s| == 10 && s[0] == 'F' && s[5] == 'M' && s[7] == 'N' then FUSE_MKNOD else
    if |s| == 10 && s[0] == 'F' && s[5] == 'M' && s[7] == 'D' then FUSE_MKDIR else
    if |s| == 11 && s[0] == 'F' && s[5] == 'U' && s[7] == 'L' then FUSE_UNLINK else
    if |s| == 10 && s[0] == 'F' && s[5] == 'R' && s[7] == 'D' then FUSE_RMDIR else
    if |s| == 11 && s[0] == 'F' && s[5] == 'R' && s[7] == 'N' then FUSE_RENAME else
    if |s| == 9 && s[0] == 'F' && s[5] == 'L' && s[7] == 'N' then FUSE_LINK else
    if |s| == 9 && s[0] == 'F' && s[5] == 'O' && s[7] == 'E' then FUSE_OPEN else
    if |s| == 9 && s[0] == 'F' && s[5] == 'R' && s[7] == 'A' then FUSE_READ else
    if |s| == 10 && s[0] == 'F' && s[5] == 'W' && s[7] == 'I' then FUSE_WRITE else
    if |s| == 11 && s[0] == 'F' && s[5] == 'S' && s[7] == 'A' then FUSE_STATFS else
    if |s| == 12 && s[0] == 'F' && s[5] == 'R' && s[7] == 'L' then FUSE_RELEASE else
    if |s| == 10 && s[0] == 'F' && s[5] == 'F' && s[7] == 'Y' then FUSE_FSYNC else
    if |s| == 13 && s[0] == 'F' && s[5] == 'S' && s[7] == 'T' then FUSE_SETXATTR else
    if |s| == 13 && s[0] == 'F' && s[5] == 'G' && s[7] == 'T' then FUSE_GETXATTR else
    if |s| == 14 && s[0] == 'F' && s[5] == 'L' && s[7] == 'S' then FUSE_LISTXATTR else
    if |s| == 16 && s[0] == 'F' && s[5] == 'R' && s[7] == 'M' then FUSE_REMOVEXATTR else
    if |s| == 10 && s[0] == 'F' && s[5] == 'F' && s[7] == 'U' then FUSE_FLUSH else
    if |s| == 9 && s[0] == 'F' && s[5] == 'I' && s[7] == 'I' then FUSE_INIT else
    if |s| == 12 && s[0] == 'F' && s[5] == 'O' && s[7] == 'E' then FUSE_OPENDIR else
    if |s| == 12 && s[0] == 'F' && s[5] == 'R' && s[7] == 'A' then FUSE_READDIR else
    if |s| == 15 && s[0] == 'F' && s[5] == 'R' && s[7] == 'L' then FUSE_RELEASEDIR else
    if |s| == 13 && s[0] == 'F' && s[5] == 'F' && s[7] == 'Y' then FUSE_FSYNCDIR else
    if |s| == 10 && s[0] == 'F' && s[5] == 'G' && s[7] == 'T' then FUSE_GETLK else
    if |s| == 10 && s[0] == 'F' && s[5] == 'S' && s[7] == 'T' then FUSE_SETLK else
    if |s| == 11 && s[0] == 'F' && s[5] == 'S' && s[7] == 'T' then FUSE_SETLKW else
    if |s| == 11 && s[0] == 'F' && s[5] == 'A' && s[7] == 'C' then FUSE_ACCESS else
    if |s| == 11 && s[0] == 'F' && s[5] == 'C' && s[7] == 'E' then FUSE_CREATE else
    if |s| == 14 && s[0] == 'F' && s[5] == 'I' && s[7] == 'T' then FUSE_INTERRUPT else
    if |s| == 9 && s[0] == 'F' && s[5] == 'B' && s[7] == 'A' then FUSE_BMAP else
    if |s| == 12 && s[0] == 'F' && s[5] == 'D' && s[7] == 'S' then FUSE_DESTROY else
    if |s| == 10 && s[0] == 'F' && s[5] == 'I' && s[7] == 'C' then FUSE_IOCTL else
    if |s| == 9 && s[0] == 'F' && s[5] == 'P' && s[7] == 'L' then FUSE_POLL else
    if |s| == 17 && s[0] == 'F' && s[5] == 'N' && s[7] == 'T' then FUSE_NOTIFY_REPLY else
    if |s| == 17 && s[0] == 'F' && s[5] == 'B' && s[7] == 'T' then FUSE_BATCH_FORGET else
    if |s| == 14 && s[0] == 'F' && s[5] == 'F' && s[7] == 'L' then FUSE_FALLOCATE else
    if |s| == 16 && s[0] == 'F' && s[5] == 'R' && s[7] == 'A' then FUSE_READDIRPLUS else
    if |s| == 12 && s[0] == 'F' && s[5] == 'R' && s[7] == 'N' then FUSE_RENAME2 else
    if |s| == 10 && s[0] == 'F' && s[5] == 'L' && s[7] == 'E' then FUSE_LSEEK else
    if |s| == 20 && s[0] == 'F' && s[5] == 'C' && s[7] == 'P' then FUSE_COPY_FILE_RANGE else
    if |s| == 17 && s[0] == 'F' && s[5] == 'S' && s[7] == 'T' then FUSE_SETUPMAPPING else
    if |s| == 18 && s[0] == 'F' && s[5] == 'R' && s[7] == 'M' then FUSE_REMOVEMAPPING else
    if |s| == 9 && s[0] == 'C' && s[5] == 'I' && s[7] == 'I' then CUSE_INIT else
    0
  }

  /** Every listed opcode's name leads back to it, so no two listed opcodes share a name. */
  lemma NameDecodes(opcode: int)
    requires Listed(opcode)
    ensures |OpName(opcode)| >= 9 && OpcodeOfName(OpName(opcode)) == opcode
  {
    if opcode <= 12 {
      DecodesTo12(opcode);
    } else if opcode <= 24 {
      DecodesTo24(opcode);
    } else if opcode <= 36 {
      DecodesTo36(opcode);
    } else if opcode <= 43 {
      DecodesTo43(opcode);
    } else {
      DecodesFrom44(opcode);
    }
  }

  lemma DecodesTo12(opcode: int)
    requires Listed(opcode) && 1 <= opcode <= 12
    ensures |OpName(opcode)| >= 9 && OpcodeOfName(OpName(opcode)) == opcode
  {
  }

  lemma DecodesTo24(opcode: int)
    requires Listed(opcode) && 13 <= opcode <= 24
    ensures |OpName(opcode)| >= 9 && OpcodeOfName(OpName(opcode)) == opcode
  {
  }

  lemma DecodesTo36(opcode: int)
    requires Listed(opcode) && 25 <= opcode <= 36
    ensures |OpName(opcode)| >= 9 && OpcodeOfName(OpName(opcode)) == opcode
  {
  }

  lemma DecodesTo43(opcode: int)
    requires Listed(opcode) && 37 <= opcode <= 43
    ensures |OpName(opcode)| >= 9 && OpcodeOfName(OpName(opcode)) == opcode
  {
  }

  lemma DecodesFrom44(opcode: int)
    requires Listed(opcode) && opcode >= 44
    ensures |OpName(opcode)| >= 9 && OpcodeOfName(OpName(opcode)) == opcode
  {
  }

  /** Distinct listed opcodes print distinct names. */
  lemma NamesDistinct(a: int, b: int)
    requires Listed(a) && Listed(b) && a != b
    ensures OpName(a) != OpName(b)
  {
    NameDecodes(a);
    NameDecodes(b);
  }
}
