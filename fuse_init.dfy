/**
 * FUSE_INIT negotiation (`fuse_ll_init`) and FUSE_DESTROY on the session
 * state that every later request consults: protocol version, the
 * capabilities the kernel offers and the ones the file system wants, and the
 * buffer, write, read-ahead and background limits.
 *
 * Kernel INIT flags and library capabilities are two different bit spaces;
 * both are modelled as sets of named flags, so the bit positions play no role.
 */
module FuseInit {
  import opened Common
  import Errno
  import opened FuseReply

  /** Library capabilities (`FUSE_CAP_*`) that `fuse_ll_init` can record. */
  datatype Cap =
    | AsyncRead | PosixLocks | AtomicOTrunc | ExportSupport | DontMask
    | SpliceWrite | SpliceMove | SpliceRead | FlockLocks | IoctlDir
    | AutoInvalData | Readdirplus | ReaddirplusAuto | AsyncDio | WritebackCache
    | NoOpenSupport | ParallelDirops | PosixAcl | HandleKillpriv | CacheSymlinks
    | NoOpendirSupport | ExplicitInvalData

  /** Kernel INIT flags (`FUSE_*` in `fuse_init_in.flags` / `fuse_init_out.flags`). */
  datatype InitFlag =
    | FAsyncRead | FPosixLocks | FAtomicOTrunc | FExportSupport | FDontMask
    | FFlockLocks | FAutoInvalData | FDoReaddirplus | FReaddirplusAuto | FAsyncDio
    | FWritebackCache | FNoOpenSupport | FParallelDirops | FPosixAcl | FHandleKillpriv
    | FCacheSymlinks | FNoOpendirSupport | FExplicitInvalData | FBigWrites | FMaxPages

  const FUSE_KERNEL_VERSION: nat := 7
  const FUSE_MIN_READ_BUFFER: nat := 8192
  const FUSE_BUFFER_HEADER_SIZE: nat := 0x1000
  const FUSE_DEFAULT_MAX_PAGES_PER_REQ: nat := 32
  const FUSE_MAX_MAX_PAGES: nat := 256
  const DPFS_HAL_MAX_BACKGROUND: nat := 4096
  const INIT_OUT_SIZE: nat := 64
  const COMPAT_22_INIT_OUT_SIZE: nat := 24
  const COMPAT_INIT_OUT_SIZE: nat := 8

  /** The capability a kernel flag announces, if it announces one. */
  function CapOfFlag(f: InitFlag): (c: Option<Cap>)
    ensures c.Some? <==> f != FBigWrites && f != FMaxPages
  {
    match f
    case FAsyncRead => Some(AsyncRead)
    case FPosixLocks => Some(PosixLocks)
    case FAtomicOTrunc => Some(AtomicOTrunc)
    case FExportSupport => Some(ExportSupport)
    case FDontMask => Some(DontMask)
    case FFlockLocks => Some(FlockLocks)
    case FAutoInvalData => Some(AutoInvalData)
    case FDoReaddirplus => Some(Readdirplus)
    case FReaddirplusAuto => Some(ReaddirplusAuto)
    case FAsyncDio => Some(AsyncDio)
    case FWritebackCache => Some(WritebackCache)
    case FNoOpenSupport => Some(NoOpenSupport)
    case FParallelDirops => Some(ParallelDirops)
    case FPosixAcl => Some(PosixAcl)
    case FHandleKillpriv => Some(HandleKillpriv)
    case FCacheSymlinks => Some(CacheSymlinks)
    case FNoOpendirSupport => Some(NoOpendirSupport)
    case FExplicitInvalData => Some(ExplicitInvalData)
    case FBigWrites => None
    case FMaxPages => None
  }

  /** The reply flag a wanted capability is reported as, if any. */
  function FlagOfCap(c: Cap): (f: Option<InitFlag>)
  {
    match c
    case AsyncRead => Some(FAsyncRead)
    case PosixLocks => Some(FPosixLocks)
    case AtomicOTrunc => Some(FAtomicOTrunc)
    case ExportSupport => Some(FExportSupport)
    case DontMask => Some(FDontMask)
    case FlockLocks => Some(FFlockLocks)
    case AutoInvalData => Some(FAutoInvalData)
    case Readdirplus => Some(FDoReaddirplus)
    case ReaddirplusAuto => Some(FReaddirplusAuto)
    case AsyncDio => Some(FAsyncDio)
    case WritebackCache => Some(FWritebackCache)
    case PosixAcl => Some(FPosixAcl)
    case CacheSymlinks => Some(FCacheSymlinks)
    case ExplicitInvalData => Some(FExplicitInvalData)
    case _ => None
  }

  /** A reported capability goes back as the very flag that announced it. */
  lemma FlagOfCapInverts(c: Cap)
    ensures FlagOfCap(c).Some? ==> CapOfFlag(FlagOfCap(c).value) == Some(c)
    ensures FlagOfCap(c).Some? <==>
      c !in {IoctlDir, SpliceWrite, SpliceMove, SpliceRead, NoOpenSupport, ParallelDirops,
             HandleKillpriv, NoOpendirSupport}
  {
  }

  /** Capabilities enabled by default when the kernel offers them (the `LL_SET_DEFAULT` lines). */
  const DEFAULT_WANT: set<Cap> :=
    {AsyncRead, ParallelDirops, HandleKillpriv, AsyncDio, IoctlDir, AtomicOTrunc,
     FlockLocks, Readdirplus, ReaddirplusAuto}

  /** `struct fuse_init_in`. */
  datatype InitIn = InitIn(major: nat, minor: nat, maxReadahead: Uint32, flags: set<InitFlag>)

  /** `struct fuse_init_out`. */
  datatype InitOut = InitOut(major: nat, minor: nat, maxReadahead: Uint32, flags: set<InitFlag>,
                             maxBackground: nat, congestionThreshold: nat, maxWrite: Uint32,
                             timeGran: nat, maxPages: Uint16)

  /** The zeroed reply carrying only this side's version. */
  function VersionOnly(kernelMinor: nat): (o: InitOut)
    ensures o.major == FUSE_KERNEL_VERSION && o.minor == kernelMinor && o.flags == {}
    ensures o.maxReadahead == 0 && o.maxWrite == 0 && o.maxPages == 0 && o.timeGran == 0
    ensures o.maxBackground == 0 && o.congestionThreshold == 0
  {
    InitOut(FUSE_KERNEL_VERSION, kernelMinor, 0, {}, 0, 0, 0, 0, 0)
  }

  /** The capabilities the kernel's flags announce (read only from ABI 7.6 on). */
  function CapsOfFlags(flags: set<InitFlag>): (c: set<Cap>)
  {
    set f | f in flags && CapOfFlag(f).Some? :: CapOfFlag(f).value
  }

  /** Every announced capability comes from a flag the kernel set, and vice versa. */
  lemma CapsOfFlagsExact(flags: set<InitFlag>, c: Cap)
    ensures c in CapsOfFlags(flags) <==> exists f :: f in flags && CapOfFlag(f) == Some(c)
  {
  }

  /** The capabilities a 7.x kernel's INIT request offers. */
  function Offered(inarg: InitIn): (c: set<Cap>)
    ensures IoctlDir in c <==> inarg.minor >= 18
    ensures inarg.minor < 6 ==> c <= {IoctlDir}
  {
    CapsOfFlags(if inarg.minor >= 6 then inarg.flags else {})
    + (if inarg.minor >= 18 then {IoctlDir} else {})
  }

  /** The reply flags: what the kernel offered of `MAX_PAGES`, `BIG_WRITES`, and each wanted capability. */
  function ReplyFlags(inFlags: set<InitFlag>, want: set<Cap>): (r: set<InitFlag>)
  {
    (if FMaxPages in inFlags then {FMaxPages} else {}) + {FBigWrites}
    + (set c | c in want && FlagOfCap(c).Some? :: FlagOfCap(c).value)
  }

  /**
   * When the wanted capabilities are ones the kernel announced, the reply
   * claims no flag the kernel did not offer, except `BIG_WRITES`.
   */
  lemma {:induction false} ReplyFlagsOffered(inFlags: set<InitFlag>, want: set<Cap>)
    requires want <= CapsOfFlags(inFlags)
    ensures ReplyFlags(inFlags, want) <= inFlags + {FBigWrites}
    ensures FBigWrites in ReplyFlags(inFlags, want)
  {
    forall g | g in ReplyFlags(inFlags, want) && g != FBigWrites
      ensures g in inFlags
    {
      if g != FMaxPages {
        var c :| c in want && FlagOfCap(c).Some? && FlagOfCap(c).value == g;
        CapsOfFlagsExact(inFlags, c);
        var f :| f in inFlags && CapOfFlag(f) == Some(c);
        RoundTripFlag(c, f);
      }
    }
  }

  /** The flag a capability is reported as is the flag it was announced by. */
  lemma RoundTripFlag(c: Cap, f: InitFlag)
    requires CapOfFlag(f) == Some(c) && FlagOfCap(c).Some?
    ensures FlagOfCap(c).value == f
  {
  }

  /** The read buffer size INIT settles on. */
  function NegotiatedBufsize(bufsize: nat, inarg: InitIn, pagesize: nat): (b: nat)
    ensures b >= FUSE_MIN_READ_BUFFER
    ensures b <= if bufsize < FUSE_MIN_READ_BUFFER then FUSE_MIN_READ_BUFFER else bufsize
    ensures !(inarg.minor >= 6 && FMaxPages !in inarg.flags) ==>
      b == if bufsize < FUSE_MIN_READ_BUFFER then FUSE_MIN_READ_BUFFER else bufsize
    ensures inarg.minor >= 6 && FMaxPages !in inarg.flags ==>
      b <= if FUSE_DEFAULT_MAX_PAGES_PER_REQ * pagesize + FUSE_BUFFER_HEADER_SIZE < FUSE_MIN_READ_BUFFER
           then FUSE_MIN_READ_BUFFER else FUSE_DEFAULT_MAX_PAGES_PER_REQ * pagesize + FUSE_BUFFER_HEADER_SIZE
  {
    var maxBufsize := FUSE_DEFAULT_MAX_PAGES_PER_REQ * pagesize + FUSE_BUFFER_HEADER_SIZE;
    var b1 := if inarg.minor >= 6 && FMaxPages !in inarg.flags && bufsize > maxBufsize then maxBufsize else bufsize;
    if b1 < FUSE_MIN_READ_BUFFER then FUSE_MIN_READ_BUFFER else b1
  }

  /** `max_pages` as the C code computes it: unsigned arithmetic, truncated to 16 bits. */
  function MaxPages(maxWrite: Uint32, pagesize: nat): (p: Uint16)
    requires pagesize >= 1
  {
    ((((maxWrite - 1) % U32) / pagesize + 1) % U16) as Uint16
  }

  /** Without truncation, `max_pages` is the number of pages that hold `max_write` bytes. */
  lemma MaxPagesCovers(maxWrite: Uint32, pagesize: nat)
    requires pagesize >= 1 && maxWrite >= 1
    requires (maxWrite - 1) / pagesize + 1 < U16
    ensures (MaxPages(maxWrite, pagesize) - 1) * pagesize < maxWrite <= MaxPages(maxWrite, pagesize) * pagesize
  {
    var q := (maxWrite - 1) / pagesize;
    assert (maxWrite - 1) % U32 == maxWrite - 1;
    assert MaxPages(maxWrite, pagesize) == q + 1;
    assert q * pagesize <= maxWrite - 1 < (q + 1) * pagesize;
  }

  /** The background limits reported from ABI 7.13 on. */
  function ClampBackground(maxBackground: nat, congestion: nat): (r: (nat, nat))
    ensures r.0 < U16 && r.1 <= r.0
    ensures r.0 == Min(maxBackground, U16 - 1)
    ensures congestion == 0 ==> r.1 == r.0 * 3 / 4
    ensures 0 < congestion <= r.0 ==> r.1 == congestion
    ensures congestion > r.0 > 0 ==> r.1 == r.0
  {
    var bg := if maxBackground >= U16 then U16 - 1 else maxBackground;
    var c1 := if congestion > bg then bg else congestion;
    (bg, if c1 == 0 then bg * 3 / 4 else c1)
  }

  /** The size of the INIT reply payload for a kernel of the given minor. */
  function InitOutSize(minor: nat): (n: nat)
    ensures n == COMPAT_INIT_OUT_SIZE <==> minor < 5
    ensures n == COMPAT_22_INIT_OUT_SIZE <==> 5 <= minor < 23
    ensures n == INIT_OUT_SIZE <==> minor >= 23
  {
    if minor < 5 then COMPAT_INIT_OUT_SIZE
    else if minor < 23 then COMPAT_22_INIT_OUT_SIZE
    else INIT_OUT_SIZE
  }

  /**
   * What a backend's `init` operation does to the connection and the reply:
   * capabilities it adds when the kernel offers them, capabilities it clears,
   * the error it may store in the reply header, its return value, and whether
   * it marks the session ready.
   */
  datatype InitHook = InitHook(addIfCapable: set<Cap>, drop: set<Cap>, hdrError: int,
                               result: int, setsInitDone: bool)

  /** The `want` set after a backend hook. */
  function HookWant(h: InitHook, capable: set<Cap>, want: set<Cap>): (w: set<Cap>)
  {
    (want + h.addIfCapable * capable) - h.drop
  }

  /** A backend hook that only adds offered capabilities keeps `want` within `capable`. */
  lemma HookWantOffered(h: InitHook, capable: set<Cap>, want: set<Cap>)
    requires want <= capable
    ensures HookWant(h, capable, want) <= capable
    ensures h.drop !! HookWant(h, capable, want)
    ensures want - h.drop <= HookWant(h, capable, want)
  {
  }

  /** `struct fuse_session` with its `fuse_conn_info`. */
  class Session {
    const pagesize: nat
    /** `FUSE_KERNEL_MINOR_VERSION` of the headers this side was built against. */
    const kernelMinor: nat
    var gotInit: bool
    var gotDestroy: bool
    var initDone: bool
    var error: int
    var bufsize: nat
    var protoMajor: nat
    var protoMinor: nat
    var capable: set<Cap>
    var want: set<Cap>
    var maxReadahead: Uint32
    var maxWrite: Uint32
    var maxBackground: nat
    var congestionThreshold: nat
    var timeGran: nat

    /** The limits a successful INIT establishes. */
    predicate Negotiated()
      reads this
    {
      bufsize >= FUSE_MIN_READ_BUFFER && maxWrite <= bufsize - FUSE_BUFFER_HEADER_SIZE
      && want <= capable
      && (protoMinor >= 13 ==> maxBackground < U16 && congestionThreshold <= maxBackground)
    }

    /** The zeroed session `dpfs_fuse_main` allocates. */
    constructor (pagesize: nat, kernelMinor: nat)
      requires pagesize >= 1
      ensures this.pagesize == pagesize && this.kernelMinor == kernelMinor
      ensures !gotInit && !gotDestroy && !initDone && error == 0
      ensures maxWrite == U32 - 1 && maxReadahead == U32 - 1
      ensures bufsize == FUSE_MAX_MAX_PAGES * pagesize + FUSE_BUFFER_HEADER_SIZE
      ensures capable == {} && want == {} && maxBackground == 0 && congestionThreshold == 0
    {
      this.pagesize := pagesize;
      this.kernelMinor := kernelMinor;
      gotInit, gotDestroy, initDone, error := false, false, false, 0;
      maxWrite, maxReadahead := U32 - 1, U32 - 1;
      bufsize := FUSE_MAX_MAX_PAGES * pagesize + FUSE_BUFFER_HEADER_SIZE;
      protoMajor, protoMinor := 0, 0;
      capable, want := {}, {};
      maxBackground, congestionThreshold, timeGran := 0, 0, 0;
    }

    /**
     * `fuse_ll_init`. `hdr0`/`out0` are what the reply buffers held before;
     * `hook` is the backend's `init` operation, if it has one.
     */
    method Init(inIovcnt: int, outIovcnt: int, unique: nat, inarg: InitIn, hook: Option<InitHook>,
                hdr0: OutHeader, out0: InitOut)
      returns (ret: int, hdr: OutHeader, out: InitOut)
      requires pagesize >= 1
      modifies this
      // wrong iovec counts: rejected before anything is written
      ensures inIovcnt != 2 || outIovcnt != 2 ==>
        ret == -Errno.EINVAL && hdr == hdr0 && out == out0 && unchanged(this)
      // a second INIT on a live session
      ensures inIovcnt == 2 && outIovcnt == 2 && old(gotInit && !gotDestroy) ==>
        ret == 0 && hdr == Begin(unique).(error := -Errno.EISCONN) && out == out0 && unchanged(this)
      ensures inIovcnt == 2 && outIovcnt == 2 && !old(gotInit && !gotDestroy) ==>
        protoMajor == inarg.major && protoMinor == inarg.minor && hdr.unique == unique
        && out.major == FUSE_KERNEL_VERSION && out.minor == kernelMinor
      // unsupported major: error, version-only reply, session not initialised
      ensures inIovcnt == 2 && outIovcnt == 2 && !old(gotInit && !gotDestroy) && inarg.major < 7 ==>
        ret == 0 && hdr == Begin(unique).(error := -Errno.EPROTO) && out == VersionOnly(kernelMinor)
        && gotInit == old(gotInit) && capable == {} && want == {}
      // newer major: version-only reply so the kernel retries with 7.x
      ensures inIovcnt == 2 && outIovcnt == 2 && !old(gotInit && !gotDestroy) && inarg.major > 7 ==>
        ret == 0 && hdr == Begin(unique).(len := OUT_HEADER_SIZE + INIT_OUT_SIZE)
        && out == VersionOnly(kernelMinor) && gotInit == old(gotInit)
      // major 7: the negotiation proper
      ensures inIovcnt == 2 && outIovcnt == 2 && !old(gotInit && !gotDestroy) && inarg.major == 7 ==>
        gotInit
        && bufsize == NegotiatedBufsize(old(bufsize), inarg, pagesize)
        && maxWrite == Min(old(maxWrite), bufsize - FUSE_BUFFER_HEADER_SIZE)
        && maxReadahead == (if inarg.minor >= 6 then Min(inarg.maxReadahead, old(maxReadahead)) else 0)
        && capable == Offered(inarg)
        && want == (if hook.Some? then HookWant(hook.value, capable, capable * DEFAULT_WANT)
                    else capable * DEFAULT_WANT)
        && timeGran == 1
        && initDone == (old(initDone) || (hook.Some? && hook.value.setsInitDone))
      ensures inIovcnt == 2 && outIovcnt == 2 && !old(gotInit && !gotDestroy) && inarg.major == 7
              && hook.Some? && (hook.value.hdrError != 0 || hook.value.result != 0) ==>
        ret == hook.value.result && gotDestroy && error == -Errno.EPROTO
        && hdr == Begin(unique).(error := hook.value.hdrError) && out == VersionOnly(kernelMinor)
      ensures inIovcnt == 2 && outIovcnt == 2 && !old(gotInit && !gotDestroy) && inarg.major == 7
              && !(hook.Some? && (hook.value.hdrError != 0 || hook.value.result != 0)) && !(want <= capable) ==>
        ret == 0 && gotDestroy && error == -Errno.EPROTO
        && hdr == Begin(unique).(error := -Errno.EPROTO) && out == VersionOnly(kernelMinor)
      // success: the reply carries the negotiated values
      ensures inIovcnt == 2 && outIovcnt == 2 && !old(gotInit && !gotDestroy) && inarg.major == 7
              && !(hook.Some? && (hook.value.hdrError != 0 || hook.value.result != 0)) && want <= capable ==>
        ret == 0 && Negotiated()
        && hdr == Begin(unique).(len := OUT_HEADER_SIZE + InitOutSize(inarg.minor))
        && gotDestroy == old(gotDestroy) && error == old(error)
        && out.flags == ReplyFlags(inarg.flags, want)
        && out.maxPages == (if FMaxPages in inarg.flags then MaxPages(maxWrite, pagesize) else 0)
        && out.maxReadahead == maxReadahead && out.maxWrite == maxWrite
        && (inarg.minor >= 13 ==>
              (maxBackground, congestionThreshold)
                == ClampBackground(DPFS_HAL_MAX_BACKGROUND, old(congestionThreshold))
              && out.maxBackground == maxBackground && out.congestionThreshold == congestionThreshold)
        && (inarg.minor < 13 ==>
              maxBackground == DPFS_HAL_MAX_BACKGROUND && congestionThreshold == old(congestionThreshold)
              && out.maxBackground == 0 && out.congestionThreshold == 0)
        && out.timeGran == (if inarg.minor >= 23 then 1 else 0)
    {
      if inIovcnt != 2 || outIovcnt != 2 {
        return -Errno.EINVAL, hdr0, out0;
      }
      hdr := Begin(unique);
      if gotInit && !gotDestroy {
        hdr := hdr.(error := -Errno.EISCONN);
        return 0, hdr, out0;
      }
      protoMajor, protoMinor := inarg.major, inarg.minor;
      capable, want := {}, {};
      maxBackground := DPFS_HAL_MAX_BACKGROUND;
      out := VersionOnly(kernelMinor);
      if inarg.major < 7 {
        hdr := hdr.(error := -Errno.EPROTO);
        return 0, hdr, out;
      }
      if inarg.major > 7 {
        hdr := hdr.(len := hdr.len + INIT_OUT_SIZE);
        return 0, hdr, out;
      }
      ret, hdr, out := Negotiate(unique, inarg, hook);
    }

    /** A 7.x INIT after the version checks: limits, backend hook, capability check, reply. */
    method Negotiate(unique: nat, inarg: InitIn, hook: Option<InitHook>)
      returns (ret: int, hdr: OutHeader, out: InitOut)
      requires pagesize >= 1 && protoMinor == inarg.minor && capable == {} && want == {}
      modifies this
      ensures gotInit && timeGran == 1 && protoMajor == old(protoMajor) && protoMinor == old(protoMinor)
      ensures bufsize == NegotiatedBufsize(old(bufsize), inarg, pagesize)
      ensures maxWrite == Min(old(maxWrite), bufsize - FUSE_BUFFER_HEADER_SIZE)
      ensures maxReadahead == (if inarg.minor >= 6 then Min(inarg.maxReadahead, old(maxReadahead)) else 0)
      ensures capable == Offered(inarg)
      ensures want == (if hook.Some? then HookWant(hook.value, capable, capable * DEFAULT_WANT)
                       else capable * DEFAULT_WANT)
      ensures initDone == (old(initDone) || (hook.Some? && hook.value.setsInitDone))
      ensures hook.Some? && (hook.value.hdrError != 0 || hook.value.result != 0) ==>
        ret == hook.value.result && gotDestroy && error == -Errno.EPROTO
        && hdr == Begin(unique).(error := hook.value.hdrError) && out == VersionOnly(kernelMinor)
      ensures !(hook.Some? && (hook.value.hdrError != 0 || hook.value.result != 0)) && !(want <= capable) ==>
        ret == 0 && gotDestroy && error == -Errno.EPROTO
        && hdr == Begin(unique).(error := -Errno.EPROTO) && out == VersionOnly(kernelMinor)
      ensures !(hook.Some? && (hook.value.hdrError != 0 || hook.value.result != 0)) && want <= capable ==>
        ret == 0
        && hdr == Begin(unique).(len := OUT_HEADER_SIZE + InitOutSize(inarg.minor))
        && gotDestroy == old(gotDestroy) && error == old(error)
        && out.major == FUSE_KERNEL_VERSION && out.minor == kernelMinor
        && out.flags == ReplyFlags(inarg.flags, want)
        && out.maxPages == (if FMaxPages in inarg.flags then MaxPages(maxWrite, pagesize) else 0)
        && out.maxReadahead == maxReadahead && out.maxWrite == maxWrite
        && (inarg.minor >= 13 ==>
              (maxBackground, congestionThreshold) == ClampBackground(old(maxBackground), old(congestionThreshold))
              && out.maxBackground == maxBackground && out.congestionThreshold == congestionThreshold)
        && (inarg.minor < 13 ==>
              maxBackground == old(maxBackground) && congestionThreshold == old(congestionThreshold)
              && out.maxBackground == 0 && out.congestionThreshold == 0)
        && out.timeGran == (if inarg.minor >= 23 then 1 else 0)
    {
      hdr := Begin(unique);
      out := VersionOnly(kernelMinor);
      Settle(inarg);
      if hook.Some? {
        var h := hook.value;
        want := HookWant(h, capable, want);
        if h.setsInitDone {
          initDone := true;
        }
        if h.hdrError != 0 {
          hdr := hdr.(error := h.hdrError);
        }
        if hdr.error != 0 || h.result != 0 {
          error := -Errno.EPROTO;
          gotDestroy := true;
          return h.result, hdr, out;
        }
      }
      if !(want <= capable) {
        error := -Errno.EPROTO;
        gotDestroy := true;
        hdr := hdr.(error := -Errno.EPROTO);
        return 0, hdr, out;
      }
      out := Reply(inarg);
      hdr := hdr.(len := hdr.len + InitOutSize(inarg.minor));
      return 0, hdr, out;
    }

    /**
     * The part of a 7.x INIT before the backend hook: read-ahead, the offered
     * capabilities, the default wants, and the buffer and write limits.
     */
    method Settle(inarg: InitIn)
      requires pagesize >= 1 && protoMinor == inarg.minor && capable == {} && want == {}
      modifies this
      ensures gotInit && timeGran == 1
      ensures bufsize == NegotiatedBufsize(old(bufsize), inarg, pagesize)
      ensures maxWrite == Min(old(maxWrite), bufsize - FUSE_BUFFER_HEADER_SIZE)
      ensures maxReadahead == (if inarg.minor >= 6 then Min(inarg.maxReadahead, old(maxReadahead)) else 0)
      ensures capable == Offered(inarg) && want == capable * DEFAULT_WANT
      ensures gotDestroy == old(gotDestroy) && initDone == old(initDone) && error == old(error)
      ensures protoMajor == old(protoMajor) && protoMinor == old(protoMinor)
      ensures maxBackground == old(maxBackground) && congestionThreshold == old(congestionThreshold)
    {
      var bs := bufsize;
      if inarg.minor >= 6 {
        if inarg.maxReadahead < maxReadahead {
          maxReadahead := inarg.maxReadahead;
        }
        capable := CapsOfFlags(inarg.flags);
        if FMaxPages !in inarg.flags {
          var maxBufsize := FUSE_DEFAULT_MAX_PAGES_PER_REQ * pagesize + FUSE_BUFFER_HEADER_SIZE;
          if bs > maxBufsize {
            bs := maxBufsize;
          }
        }
      } else {
        maxReadahead := 0;
      }
      if protoMinor >= 18 {
        capable := capable + {IoctlDir};
      }
      want := capable * DEFAULT_WANT;
      timeGran := 1;
      if bs < FUSE_MIN_READ_BUFFER {
        bs := FUSE_MIN_READ_BUFFER;
      }
      bufsize := bs;
      if maxWrite > bufsize - FUSE_BUFFER_HEADER_SIZE {
        maxWrite := bufsize - FUSE_BUFFER_HEADER_SIZE;
      }
      gotInit := true;
    }

    /** The reply of an accepted INIT, with the background limits clamped from ABI 7.13 on. */
    method Reply(inarg: InitIn) returns (out: InitOut)
      requires pagesize >= 1 && protoMinor == inarg.minor
      modifies this
      ensures out.major == FUSE_KERNEL_VERSION && out.minor == kernelMinor
      ensures out.flags == ReplyFlags(inarg.flags, want)
      ensures out.maxPages == (if FMaxPages in inarg.flags then MaxPages(maxWrite, pagesize) else 0)
      ensures out.maxReadahead == maxReadahead && out.maxWrite == maxWrite
      ensures inarg.minor >= 13 ==>
        (maxBackground, congestionThreshold) == ClampBackground(old(maxBackground), old(congestionThreshold))
        && out.maxBackground == maxBackground && out.congestionThreshold == congestionThreshold
      ensures inarg.minor < 13 ==>
        maxBackground == old(maxBackground) && congestionThreshold == old(congestionThreshold)
        && out.maxBackground == 0 && out.congestionThreshold == 0
      ensures out.timeGran == (if inarg.minor >= 23 then timeGran else 0)
      ensures gotInit == old(gotInit) && gotDestroy == old(gotDestroy) && initDone == old(initDone)
      ensures error == old(error) && bufsize == old(bufsize) && maxWrite == old(maxWrite)
      ensures maxReadahead == old(maxReadahead) && capable == old(capable) && want == old(want)
      ensures protoMajor == old(protoMajor) && protoMinor == old(protoMinor) && timeGran == old(timeGran)
    {
      out := VersionOnly(kernelMinor);
      var flags: set<InitFlag> := {};
      if FMaxPages in inarg.flags {
        flags := flags + {FMaxPages};
        out := out.(maxPages := MaxPages(maxWrite, pagesize));
      }
      flags := flags + {FBigWrites};
      flags := flags + (set c | c in want && FlagOfCap(c).Some? :: FlagOfCap(c).value);
      out := out.(flags := flags, maxReadahead := maxReadahead, maxWrite := maxWrite);
      if protoMinor >= 13 {
        if maxBackground >= U16 {
          maxBackground := U16 - 1;
        }
        if congestionThreshold > maxBackground {
          congestionThreshold := maxBackground;
        }
        if congestionThreshold == 0 {
          congestionThreshold := maxBackground * 3 / 4;
        }
        out := out.(maxBackground := maxBackground, congestionThreshold := congestionThreshold);
      }
      if protoMinor >= 23 {
        out := out.(timeGran := timeGran);
      }
    }

    /** `fuse_ll_destroy`; `destroyResult` is the backend's `destroy` operation, if any. */
    method Destroy(inIovcnt: int, outIovcnt: int, unique: nat, destroyResult: Option<int>, hdr0: OutHeader)
      returns (ret: int, hdr: OutHeader)
      modifies this
      ensures inIovcnt != 1 || outIovcnt != 1 ==> ret == -Errno.EINVAL && hdr == hdr0 && unchanged(this)
      ensures inIovcnt == 1 && outIovcnt == 1 ==>
        hdr == Begin(unique) && gotDestroy
        && ret == (if destroyResult.Some? then destroyResult.value else 0)
        && gotInit == old(gotInit) && initDone == old(initDone) && error == old(error)
        && want == old(want) && capable == old(capable)
    {
      if inIovcnt != 1 || outIovcnt != 1 {
        return -Errno.EINVAL, hdr0;
      }
      hdr := Begin(unique);
      gotDestroy := true;
      ret := if destroyResult.Some? then destroyResult.value else 0;
    }
  }
}
