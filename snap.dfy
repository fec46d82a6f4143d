/** The SNAP hardware layer (dpfs_hal/src/snap.c): reading the `[snap_hal]` table of the
    configuration into the attributes of the virtio-fs controller, and mapping a completion
    status onto SNAP's. Its polling loops are the ones of module `PollLoop`. The TOML reader
    (toml.h) is not part of this model; `toml_string_in` is taken to succeed only on a string
    value and `toml_int_in` only on an integer value. */
module SnapHal {
  import opened Common

  /** A TOML value, as far as the reader tells them apart. A string also carries `bits`: what
      the datum's `u.i` holds when the union is read as an integer after `toml_string_in`,
      the bits of the string's pointer, which the file does not control. */
  datatype Toml = TStr(s: string, bits: int) | TInt(i: int) | TOther

  /** A TOML table. */
  type Table = map<string, Toml>

  /** `toml_datum_t`: whether the read succeeded, and the union read as a string and as an
      integer. */
  datatype Datum = Datum(ok: bool, s: string, i: int)

  /** `toml_string_in(tab, key)`. */
  function StringIn(t: Table, key: string): (d: Datum)
    ensures d.ok <==> key in t && t[key].TStr?
    ensures d.ok ==> d.s == t[key].s && d.i == t[key].bits
  {
    if key in t && t[key].TStr? then Datum(true, t[key].s, t[key].bits) else Datum(false, "", 0)
  }

  /** `toml_int_in(tab, key)`. */
  function IntIn(t: Table, key: string): (d: Datum)
    ensures d.ok <==> key in t && t[key].TInt?
    ensures d.ok ==> d.i == t[key].i
  {
    if key in t && t[key].TInt? then Datum(true, "", t[key].i) else Datum(false, "", 0)
  }

  /** The outcomes of the calls `dpfs_hal_new` makes outside the configuration: opening and
      parsing the file, and starting SNAP's logger, device list, controller and the
      thread-id key. */
  datatype Env = Env(fileOpen: bool, parsed: bool, loggerOk: bool, pciOk: bool, ctrlOk: bool, keyOk: bool)

  predicate EnvOk(env: Env)
  {
    env.fileOpen && env.parsed && env.loggerOk && env.pciOk && env.ctrlOk && env.keyOk
  }

  /** What the HAL asks SNAP's controller for, with the polling interval and thread count it
      keeps for its loops. */
  datatype Attr = Attr(
    emuManager: string, pfId: int, vfId: int, nthreads: int, tag: string,
    numQueues: int, queueDepth: int, pollingInterval: int)

  /** The checks of `dpfs_hal_new` on the values it read, in its order, and the attributes it
      builds from them: a queue per thread plus one. */
  function Build(env: Env, emu: Datum, pf: Datum, vf: Datum, qd: Datum, nt: Datum, pi: Datum, tag: Datum)
    : (r: Option<Attr>)
    ensures r.Some? <==>
      (EnvOk(env) && emu.ok && pf.ok && pf.i >= 0 && vf.ok && vf.i >= -1 &&
       qd.ok && qd.i >= 1 && IsPow2(qd.i) && nt.ok && nt.i >= 0 && pi.ok && pi.i >= 0 && tag.ok)
    ensures r.Some? ==>
      r.value.numQueues == 1 + nt.i && r.value.nthreads == nt.i && r.value.queueDepth == qd.i &&
      r.value.pfId == pf.i && r.value.vfId == vf.i && r.value.pollingInterval == pi.i &&
      r.value.emuManager == emu.s && r.value.tag == tag.s
  {
    if !env.fileOpen || !env.parsed then None
    else if !emu.ok then None
    else if !pf.ok || pf.i < 0 then None
    else if !vf.ok || vf.i < -1 then None
    else if !qd.ok || qd.i < 1 || !PowerOfTwoOk(qd.i) then None
    else if !nt.ok || nt.i < 0 then None
    else if !pi.ok || pi.i < 0 then None
    else if !tag.ok then None
    else if !env.loggerOk || !env.pciOk || !env.ctrlOk || !env.keyOk then None
    else Some(Attr(emu.s, pf.i, vf.i, nt.i, tag.s, 1 + nt.i, qd.i, pi.i))
  }

  /** The test `qd & (qd - 1)` is zero. */
  function PowerOfTwoOk(qd: int): (ok: bool)
    requires qd >= 1
    ensures ok <==> IsPow2(qd)
  {
    PowerOfTwoTest(qd);
    BitAnd(qd, qd - 1) == 0
  }

  /** `dpfs_hal_new` as written: every key, integers included, is read with `toml_string_in`,
      and the virtual function number is read from the "pf_id" key. `conf` is the
      `[snap_hal]` table, `None` when there is none. */
  function HalNewAsWritten(env: Env, conf: Option<Table>): Option<Attr>
  {
    if !env.fileOpen || !env.parsed || conf.None? then None
    else
      var t := conf.value;
      Build(env, StringIn(t, "emu_manager"), StringIn(t, "pf_id"), StringIn(t, "pf_id"),
            StringIn(t, "queue_depth"), StringIn(t, "nthreads"),
            StringIn(t, "polling_interval_usec"), StringIn(t, "tag"))
  }

  /** `dpfs_hal_new` reading the integers as integers and each number from its own key. */
  function HalNew(env: Env, conf: Option<Table>): Option<Attr>
  {
    if !env.fileOpen || !env.parsed || conf.None? then None
    else
      var t := conf.value;
      Build(env, StringIn(t, "emu_manager"), IntIn(t, "pf_id"), IntIn(t, "vf_id"),
            IntIn(t, "queue_depth"), IntIn(t, "nthreads"),
            IntIn(t, "polling_interval_usec"), StringIn(t, "tag"))
  }

  /** An integer key whose value is at least `lo`. */
  predicate IntAtLeast(t: Table, key: string, lo: int)
  {
    key in t && t[key].TInt? && t[key].i >= lo
  }

  /** The HAL starts exactly when the environment cooperates and `[snap_hal]` holds an
      emulation manager and a tag as strings, `pf_id` >= 0, `vf_id` >= -1, a `queue_depth`
      that is a power of two, and `nthreads` and `polling_interval_usec` >= 0, all as integers;
      it then asks for `1 + nthreads` queues of that depth on that device. */
  lemma HalNewIff(env: Env, conf: Option<Table>)
    ensures HalNew(env, conf).Some? <==>
      (EnvOk(env) && conf.Some? &&
       "emu_manager" in conf.value && conf.value["emu_manager"].TStr? &&
       "tag" in conf.value && conf.value["tag"].TStr? &&
       IntAtLeast(conf.value, "pf_id", 0) && IntAtLeast(conf.value, "vf_id", -1) &&
       IntAtLeast(conf.value, "queue_depth", 1) && IsPow2(conf.value["queue_depth"].i) &&
       IntAtLeast(conf.value, "nthreads", 0) && IntAtLeast(conf.value, "polling_interval_usec", 0))
    ensures HalNew(env, conf).Some? ==> var a := HalNew(env, conf).value; var t := conf.value;
      a.pfId == t["pf_id"].i && a.vfId == t["vf_id"].i && a.queueDepth == t["queue_depth"].i &&
      a.nthreads == t["nthreads"].i && a.numQueues == 1 + t["nthreads"].i &&
      a.emuManager == t["emu_manager"].s && a.tag == t["tag"].s
  {
  }

  /** As written, the virtual function is always the physical function. */
  lemma VfIsPfAsWritten(env: Env, conf: Option<Table>)
    ensures HalNewAsWritten(env, conf).Some? ==>
      HalNewAsWritten(env, conf).value.vfId == HalNewAsWritten(env, conf).value.pfId
  {
  }

  /** A configuration written with TOML integers, asking for the physical function itself
      (`vf_id = -1`), one thread and queue depth 64. */
  function IntegerConfig(): Table
  {
    map["emu_manager" := TStr("mlx5_0", 0), "pf_id" := TInt(0), "vf_id" := TInt(-1),
        "queue_depth" := TInt(64), "nthreads" := TInt(1), "polling_interval_usec" := TInt(0),
        "tag" := TStr("dpfs", 0)]
  }

  /** As written, that configuration is refused, since its numbers are not strings; read as
      integers it gives a controller with two queues of depth 64 on function 0 and no
      virtual function. */
  lemma IntegerConfigAsWritten(env: Env)
    requires EnvOk(env)
    ensures HalNewAsWritten(env, Some(IntegerConfig())) == None
    ensures HalNew(env, Some(IntegerConfig())) == Some(Attr("mlx5_0", 0, -1, 1, "dpfs", 2, 64, 0))
  {
    assert IsPow2(64) by {
      assert IsPow2(1) && IsPow2(2) && IsPow2(4) && IsPow2(8) && IsPow2(16) && IsPow2(32);
    }
  }

  /** SNAP's completion statuses. */
  datatype SnapStatus = OpSuccess | OpIoError

  /** `DPFS_HAL_COMPLETION_SUCCES` of `enum dpfs_hal_completion_status`; `ERROR` follows it. */
  const COMPLETION_SUCCES: int := 0
  const COMPLETION_ERROR: int := 1

  /** The status `dpfs_hal_async_complete` hands to SNAP's callback: success exactly for
      `SUCCES`, an I/O error for `ERROR` and for any other value. */
  function SnapStatusOf(status: int): (r: SnapStatus)
    ensures r == OpSuccess <==> status == COMPLETION_SUCCES
    ensures r == OpIoError <==> status != COMPLETION_SUCCES
  {
    if status == COMPLETION_SUCCES then OpSuccess
    else if status == COMPLETION_ERROR then OpIoError
    else OpIoError
  }
}
