/** The WireGuard configuration file, its side-car and the running tunnel, as values: what
    promotion, start, stop, restart and apply do to them (util/wg_quick.go, util/wg_synconf.go,
    handler/routes.go), and the theorems about single calls and whole runs.

    The configuration in force is the side-car when there is one, else the canonical file. */
module PendingConf {
  import opened Wrappers

  type Conf = string

  datatype Disk = Disk(canonical: Option<Conf>, pending: Option<Conf>, temp: Option<Conf>)

  /** A running tunnel: the file the interface was brought up from, and the one its peers were
      last set from (wg syncconf replaces only the latter). */
  datatype Kernel = Down | Up(base: Conf, peers: Conf)

  datatype System = System(disk: Disk, kernel: Kernel)

  datatype Path = Empty | Relative | Absolute

  /** The configured path and the environment switches. */
  datatype Env = Env(path: Path, linux: bool, allowWgQuick: bool, pendingWhenStopped: bool, syncAfterApply: bool, restartViaSystemd: bool)

  function Effective(d: Disk): Option<Conf> {
    if d.pending.Some? then d.pending else d.canonical
  }

  // ----- outcomes of calls into the operating system

  /** Writing a whole file: the open fails, or the write stops after some characters, or succeeds. */
  datatype FileWrite = NotOpened | Torn(n: nat) | Written

  /** An external command; one that fails may leave any tunnel state behind. */
  datatype Cmd = Done | Failed(left: Kernel)

  datatype PromoteIO = PromoteIO(statOk: bool, readOk: bool, write: FileWrite, renameOk: bool, cleanupOk: bool, removeOk: bool)

  datatype UpIO = UpIO(promote: PromoteIO, down1: Cmd, up1: Cmd, down2: Cmd, up2: Cmd)

  datatype RestartIO = RestartIO(promote: PromoteIO, unitLoaded: bool, systemctl: Cmd, down: Cmd, up: UpIO)

  datatype ApplyIO = ApplyIO(storeOk: bool, removeOk: bool, write: FileWrite, hashesOk: bool, restart: RestartIO, sync: Cmd)

  function Prefix(c: Conf, n: nat): Conf {
    if n <= |c| then c[..n] else c
  }

  function RunDown(k: Kernel, c: Cmd): Kernel {
    if c.Done? then Down else c.left
  }

  /** wg-quick up, or systemctl restart: loads the canonical file, which must exist. */
  function RunUp(k: Kernel, conf: Option<Conf>, c: Cmd): (Kernel, bool) {
    if c.Failed? then (c.left, false)
    else if conf.Some? then (Up(conf.value, conf.value), true)
    else (k, false)
  }

  /** wg-quick strip and wg syncconf: replaces the peers of a running tunnel. */
  function RunSync(k: Kernel, conf: Option<Conf>, c: Cmd): (Kernel, bool) {
    if c.Failed? then (c.left, false)
    else if conf.Some? && k.Up? then (Up(k.base, conf.value), true)
    else (k, false)
  }

  // ----- promotion

  predicate Promotes(env: Env, d: Disk, io: PromoteIO) {
    env.path.Absolute? && d.pending.Some? && io.statOk && io.readOk
  }

  /** The disk after each file step of a promotion, in order. */
  function PromoteTrace(env: Env, d: Disk, io: PromoteIO): seq<Disk> {
    if !Promotes(env, d, io) then []
    else
      var b := d.pending.value;
      match io.write
      case NotOpened => []
      case Torn(n) => [d.(temp := Some("")), d.(temp := Some(Prefix(b, n)))]
      case Written =>
        var staged := [d.(temp := Some("")), d.(temp := Some(b))];
        var renamed := Disk(Some(b), d.pending, None);
        if !io.renameOk then (if io.cleanupOk then staged + [d.(temp := None)] else staged)
        else if io.removeOk then staged + [renamed, renamed.(pending := None)]
        else staged + [renamed]
  }

  function Last(d: Disk, trace: seq<Disk>): Disk {
    if trace == [] then d else trace[|trace| - 1]
  }

  function Promoted(env: Env, d: Disk, io: PromoteIO): Disk {
    Last(d, PromoteTrace(env, d, io))
  }

  predicate PromoteOk(env: Env, d: Disk, io: PromoteIO) {
    env.path.Absolute? && (d.pending.Some? && io.statOk ==> io.readOk && io.write.Written? && io.renameOk)
  }

  // ----- start, stop, restart

  function Started(env: Env, s: System, io: UpIO): (System, bool) {
    if !env.path.Absolute? || !env.allowWgQuick then (s, false)
    else
      var d := Promoted(env, s.disk, io.promote);
      if !PromoteOk(env, s.disk, io.promote) then (System(d, s.kernel), false)
      else
        var first := RunUp(RunDown(s.kernel, io.down1), d.canonical, io.up1);
        var last := if first.1 then first else RunUp(RunDown(first.0, io.down2), d.canonical, io.up2);
        (System(d, last.0), last.1)
  }

  function Stopped(env: Env, s: System, c: Cmd): (System, bool) {
    if !env.path.Absolute? || !env.allowWgQuick then (s, false)
    else (s.(kernel := RunDown(s.kernel, c)), c.Done?)
  }

  /** The systemctl attempt: its tunnel state, and whether it ends the restart. */
  function ViaSystemd(env: Env, k: Kernel, conf: Option<Conf>, io: RestartIO): (Kernel, bool) {
    if env.linux && env.restartViaSystemd && io.unitLoaded then RunUp(k, conf, io.systemctl) else (k, false)
  }

  function Restarted(env: Env, s: System, io: RestartIO): (System, bool) {
    if !env.path.Absolute? || !env.allowWgQuick then (s, false)
    else
      var d := Promoted(env, s.disk, io.promote);
      if !PromoteOk(env, s.disk, io.promote) then (System(d, s.kernel), false)
      else
        var attempt := ViaSystemd(env, s.kernel, d.canonical, io);
        if attempt.1 then (System(d, attempt.0), true)
        else Started(env, Stopped(env, System(d, attempt.0), io.down).0, io.up)
  }

  // ----- apply

  predicate UsesSideCar(env: Env, k: Kernel, restart: bool) {
    !restart && env.pendingWhenStopped && env.linux && env.path.Absolute? && k.Down?
  }

  /** The disk after each file step of an apply. */
  function ApplyTrace(env: Env, s: System, restart: bool, rendering: Conf, io: ApplyIO): seq<Disk> {
    var d := s.disk;
    if !io.storeOk || env.path.Empty? then []
    else
      var toSideCar := UsesSideCar(env, s.kernel, restart);
      var d1 := if !toSideCar && io.removeOk then d.(pending := None) else d;
      match io.write
      case NotOpened => [d1]
      case Torn(n) => [d1, WriteTo(d1, toSideCar, ""), WriteTo(d1, toSideCar, Prefix(rendering, n))]
      case Written => [d1, WriteTo(d1, toSideCar, ""), WriteTo(d1, toSideCar, rendering)]
  }

  function WriteTo(d: Disk, toSideCar: bool, c: Conf): Disk {
    if toSideCar then d.(pending := Some(c)) else d.(canonical := Some(c))
  }

  predicate ApplyWrites(env: Env, io: ApplyIO) {
    io.storeOk && !env.path.Empty? && io.write.Written?
  }

  /** applyKernelAfterWritingWgConf. */
  function KernelApplied(env: Env, s: System, restart: bool, io: ApplyIO): (System, bool) {
    if restart then
      var r := Restarted(env, s, io.restart);
      if r.1 || !env.linux then (r.0, true) else Synced(env, r.0, io.sync)
    else if env.syncAfterApply && s.kernel.Down? then (s, true)
    else if !env.syncAfterApply || !env.linux then (s, true)
    else Synced(env, s, io.sync)
  }

  function Synced(env: Env, s: System, c: Cmd): (System, bool) {
    if !env.path.Absolute? then (s, false)
    else var r := RunSync(s.kernel, s.disk.canonical, c); (s.(kernel := r.0), r.1)
  }

  function Applied(env: Env, s: System, restart: bool, rendering: Conf, io: ApplyIO): (System, bool) {
    var s1 := s.(disk := Last(s.disk, ApplyTrace(env, s, restart, rendering, io)));
    if !ApplyWrites(env, io) || !io.hashesOk then (s1, false) else KernelApplied(env, s1, restart, io)
  }

  // ----- promotion never changes the configuration in force

  /** At every file step, and so at every point where the process can die, the configuration
      in force is the one before, and the canonical file is either the old one or the whole
      side-car. */
  lemma {:induction false} PromotionKeepsEffective(env: Env, d: Disk, io: PromoteIO)
    ensures forall i :: 0 <= i < |PromoteTrace(env, d, io)| ==>
              var t := PromoteTrace(env, d, io)[i]; Effective(t) == Effective(d) && (t.canonical == d.canonical || t.canonical == d.pending)
    ensures Effective(Promoted(env, d, io)) == Effective(d)
  {
  }

  /** A promotion that reports success leaves the canonical file in force, unless the side-car
      could not be seen; the side-car is gone exactly when its removal succeeded. */
  lemma {:induction false} PromotionDone(env: Env, d: Disk, io: PromoteIO)
    requires PromoteOk(env, d, io)
    ensures Promoted(env, d, io).canonical == Effective(d) <==> d.pending.None? || io.statOk || d.pending == d.canonical
    ensures Promoted(env, d, io).pending.None? <==> d.pending.None? || (io.statOk && io.removeOk)
  {
  }

  // ----- start and restart

  lemma {:induction false} StartKeepsEffective(env: Env, s: System, io: UpIO)
    ensures Effective(Started(env, s, io).0.disk) == Effective(s.disk)
  {
  }

  lemma {:induction false} RestartKeepsEffective(env: Env, s: System, io: RestartIO)
    ensures Effective(Restarted(env, s, io).0.disk) == Effective(s.disk)
  {
  }

  ghost predicate Runs(k: Kernel, conf: Option<Conf>) {
    conf.Some? && k == Up(conf.value, conf.value)
  }

  /** After a successful start the tunnel runs the configuration that was in force, exactly
      unless a differing side-car could not be seen. */
  lemma {:induction false} StartLoadsEffective(env: Env, s: System, io: UpIO)
    requires Started(env, s, io).1
    ensures Runs(Started(env, s, io).0.kernel, Effective(s.disk)) <==> s.disk.pending.None? || io.promote.statOk || s.disk.pending == s.disk.canonical
    ensures Started(env, s, io).0.disk.pending.None? <==> s.disk.pending.None? || (io.promote.statOk && io.promote.removeOk)
  {
  }

  /** The same for a restart; when systemd does not do it, the start behind it looks again. */
  lemma {:induction false} RestartLoadsEffective(env: Env, s: System, io: RestartIO)
    requires Restarted(env, s, io).1
    ensures Runs(Restarted(env, s, io).0.kernel, Effective(s.disk)) <==>
            || s.disk.pending.None? || s.disk.pending == s.disk.canonical || io.promote.statOk
            || (io.up.promote.statOk && !ViaSystemd(env, s.kernel, Promoted(env, s.disk, io.promote).canonical, io).1)
    ensures Restarted(env, s, io).0.disk.pending.None? <==>
            || s.disk.pending.None? || (io.promote.statOk && io.promote.removeOk)
            || (io.up.promote.statOk && io.up.promote.removeOk && !ViaSystemd(env, s.kernel, Promoted(env, s.disk, io.promote).canonical, io).1)
  {
  }

  /** A stop succeeds exactly when it is allowed and the command succeeds, and then the tunnel is
      down; a refused one touches nothing, a failed command leaves what it leaves. */
  lemma {:induction false} StopOutcome(env: Env, s: System, c: Cmd)
    ensures var (after, ok) := Stopped(env, s, c);
            && after.disk == s.disk
            && (ok <==> env.path.Absolute? && env.allowWgQuick && c == Done)
            && (ok ==> after.kernel == Down)
            && (!ok ==> after.kernel == if env.path.Absolute? && env.allowWgQuick then c.left else s.kernel)
  {
  }

  /** The side-car is there and can be seen. */
  predicate Visible(d: Disk, io: PromoteIO) {
    d.pending.Some? && io.statOk
  }

  predicate PromotedWell(io: PromoteIO) {
    io.readOk && io.write.Written? && io.renameOk
  }

  /** When a start succeeds: wg-quick allowed, the side-car promoted if there is one to see, a
      file to load, and one of the two attempts working. */
  lemma {:induction false} StartSucceedsIff(env: Env, s: System, io: UpIO)
    ensures Started(env, s, io).1 <==>
            && env.path.Absolute? && env.allowWgQuick
            && (if Visible(s.disk, io.promote) then PromotedWell(io.promote) else s.disk.canonical.Some?)
            && (io.up1.Done? || io.up2.Done?)
    ensures !env.path.Absolute? || !env.allowWgQuick || (Visible(s.disk, io.promote) && !PromotedWell(io.promote)) ==>
              Started(env, s, io).0.kernel == s.kernel && !Started(env, s, io).1
  {
    hide PromoteTrace;
    if env.path.Absolute? {
      PromotionOutcome(env, s.disk, io.promote);
    }
  }

  /** What is left to load after a promotion that worked or had nothing to do. */
  lemma {:induction false} PromotionOutcome(env: Env, d: Disk, io: PromoteIO)
    requires env.path.Absolute?
    ensures PromoteOk(env, d, io) <==> Visible(d, io) ==> PromotedWell(io)
    ensures PromoteOk(env, d, io) ==>
              && Promoted(env, d, io).canonical == (if Visible(d, io) then d.pending else d.canonical)
              && Promoted(env, d, io).pending == (if Visible(d, io) && io.removeOk then None else d.pending)
  {
  }

  /** When a restart succeeds: as a start does, except that a systemd restart may do it first,
      and that the start behind it promotes again what the first promotion left. */
  lemma {:induction false} RestartSucceedsIff(env: Env, s: System, io: RestartIO)
    ensures var first, second := Visible(s.disk, io.promote), io.up.promote;
            var left := s.disk.pending.Some? && !(first && io.promote.removeOk);
            var file := first || s.disk.canonical.Some?;
            Restarted(env, s, io).1 <==>
            && env.path.Absolute? && env.allowWgQuick
            && (first ==> PromotedWell(io.promote))
            && (|| (env.linux && env.restartViaSystemd && io.unitLoaded && io.systemctl == Done && file)
                || ((if left && second.statOk then PromotedWell(second) else file) && (io.up.up1 == Done || io.up.up2 == Done)))
  {
    hide PromoteTrace, Started, Promoted, PromoteOk;
    if env.path.Absolute? && env.allowWgQuick {
      PromotionOutcome(env, s.disk, io.promote);
      var d := Promoted(env, s.disk, io.promote);
      var attempt := ViaSystemd(env, s.kernel, d.canonical, io);
      StartSucceedsIff(env, Stopped(env, System(d, attempt.0), io.down).0, io.up);
    }
  }

  // ----- apply

  /** A finished apply without restart.  With the tunnel up, on Linux, with syncconf switched on
      and an absolute path, it succeeds exactly when the command does, and the running tunnel
      then keeps its base and has the rendering's peers.  With the tunnel down, syncconf off or
      elsewhere than on Linux it succeeds and the tunnel is as it was. */
  lemma {:induction false} ApplyWithoutRestart(env: Env, s: System, rendering: Conf, io: ApplyIO)
    requires io.storeOk && !env.path.Empty? && io.write.Written? && io.hashesOk
    ensures var (after, ok) := Applied(env, s, false, rendering, io);
            if s.kernel.Up? && env.linux && env.syncAfterApply then
              if env.path.Relative? then !ok && after.kernel == s.kernel
              else if io.sync == Done then ok && after.kernel == Up(s.kernel.base, rendering)
              else !ok && after.kernel == io.sync.left
            else ok && after.kernel == s.kernel
  {
  }

  /** A finished apply with restart on Linux fails exactly when the restart fails and the
      syncconf behind it does not find a tunnel to set or fails itself; elsewhere it never does. */
  lemma {:induction false} ApplyRestartOutcome(env: Env, s: System, rendering: Conf, io: ApplyIO)
    requires io.storeOk && !env.path.Empty? && io.write.Written? && io.hashesOk
    ensures var d := Disk(Some(rendering), if io.removeOk then None else s.disk.pending, s.disk.temp);
            var (restarted, up) := Restarted(env, System(d, s.kernel), io.restart);
            var (after, ok) := Applied(env, s, true, rendering, io);
            && (ok <==> up || !env.linux || (env.path.Absolute? && io.sync == Done && restarted.kernel.Up?))
            && after.disk == restarted.disk
            && (up || !env.linux || !env.path.Absolute? ==> after.kernel == restarted.kernel)
            && (!up && env.linux && env.path.Absolute? && io.sync.Failed? ==> after.kernel == io.sync.left)
  {
    hide Restarted;
    var d := Disk(Some(rendering), if io.removeOk then None else s.disk.pending, s.disk.temp);
    assert s.(disk := Last(s.disk, ApplyTrace(env, s, true, rendering, io))) == System(d, s.kernel);
    RestartNeedsFile(env, System(d, s.kernel), io.restart);
  }

  lemma {:induction false} RestartNeedsFile(env: Env, s: System, io: RestartIO)
    requires s.disk.canonical.Some?
    ensures Restarted(env, s, io).0.disk.canonical.Some?
  {
  }

  /** A finished apply makes the rendering the configuration in force, exactly unless an older
      side-car that differs could not be removed. */
  lemma {:induction false} ApplyMakesEffective(env: Env, s: System, restart: bool, rendering: Conf, io: ApplyIO)
    requires ApplyWrites(env, io)
    ensures Effective(Applied(env, s, restart, rendering, io).0.disk) == Some(rendering) <==>
            UsesSideCar(env, s.kernel, restart) || io.removeOk || s.disk.pending.None? || s.disk.pending == Some(rendering)
  {
    hide Restarted;
    var s1 := s.(disk := Last(s.disk, ApplyTrace(env, s, restart, rendering, io)));
    RestartKeepsEffective(env, s1, io.restart);
  }

  /** An old side-car that stays hides the target throughout. */
  predicate HiddenTarget(env: Env, s: System, restart: bool, io: ApplyIO) {
    !UsesSideCar(env, s.kernel, restart) && !io.removeOk && s.disk.pending.Some?
  }

  /** What is in force while an apply is under way: first the old configuration, or the old
      canonical file once a side-car over it is removed; then nothing but the beginning of the
      new rendering written so far, unless an old side-car hides it. */
  lemma {:induction false} ApplyTornStates(env: Env, s: System, restart: bool, rendering: Conf, io: ApplyIO)
    requires io.storeOk && !env.path.Empty?
    ensures var trace := ApplyTrace(env, s, restart, rendering, io);
            var hidden := HiddenTarget(env, s, restart, io);
            && |trace| == (if io.write.NotOpened? then 1 else 3)
            && Effective(trace[0]) == (if UsesSideCar(env, s.kernel, restart) || hidden then Effective(s.disk) else s.disk.canonical)
            && (!io.write.NotOpened? ==>
                  && Effective(trace[1]) == (if hidden then Effective(s.disk) else Some(""))
                  && Effective(trace[2]) == (if hidden then Effective(s.disk) else Some(if io.write.Torn? then Prefix(rendering, io.write.n) else rendering)))
  {
  }

  /** At every file step the old or the new configuration is in force. */
  ghost predicate CrashSafe(env: Env, s: System, restart: bool, rendering: Conf, io: ApplyIO) {
    forall i :: 0 <= i < |ApplyTrace(env, s, restart, rendering, io)| ==>
      Effective(ApplyTrace(env, s, restart, rendering, io)[i]) in {Effective(s.disk), Some(rendering)}
  }

  /** Unlike promotion, apply truncates its target.  A whole write is crash-safe exactly when an
      old side-car hides the target throughout; or when an empty file is no surprise (the old
      or the new configuration is empty) and neither is the canonical file, should removing
      the old side-car uncover it. */
  lemma {:induction false} ApplyCrashSafeIff(env: Env, s: System, restart: bool, rendering: Conf, io: ApplyIO)
    requires ApplyWrites(env, io)
    ensures var sideCar := UsesSideCar(env, s.kernel, restart);
            CrashSafe(env, s, restart, rendering, io) <==>
            || HiddenTarget(env, s, restart, io)
            || ((rendering == "" || Effective(s.disk) == Some(""))
                && (sideCar || s.disk.pending.None? || s.disk.canonical in {Effective(s.disk), Some(rendering)}))
  {
    ApplyTornStates(env, s, restart, rendering, io);
    hide ApplyTrace, Effective;
    var trace := ApplyTrace(env, s, restart, rendering, io);
    assert CrashSafe(env, s, restart, rendering, io) <==> forall i :: 0 <= i < 3 ==> Effective(trace[i]) in {Effective(s.disk), Some(rendering)};
    PendingNone(s.disk);
  }

  lemma {:induction false} PendingNone(d: Disk)
    ensures d.pending.None? ==> Effective(d) == d.canonical
    ensures d.pending.Some? ==> Effective(d) == d.pending
  {
  }

  /** So the ordinary case, one configuration replaced by another, is not. */
  lemma {:induction false} ApplyNotCrashSafe(env: Env, old': Conf, rendering: Conf, io: ApplyIO)
    requires ApplyWrites(env, io) && old' != "" && rendering != ""
    ensures !CrashSafe(env, System(Disk(Some(old'), None, None), Down), true, rendering, io)
  {
    ApplyCrashSafeIff(env, System(Disk(Some(old'), None, None), Down), true, rendering, io);
  }

  /** An apply that fails leaves the configuration in force alone exactly when it never got to
      the files; or could not open its target, and had not uncovered another canonical file by
      removing a side-car; or tore a file that a side-car hides, or into what was in force. */
  lemma {:induction false} FailedApplyHarmlessIff(env: Env, s: System, restart: bool, rendering: Conf, io: ApplyIO)
    requires !ApplyWrites(env, io)
    ensures Effective(Applied(env, s, restart, rendering, io).0.disk) == Effective(s.disk) <==> HarmlessFailure(env, s, restart, rendering, io)
    ensures Applied(env, s, restart, rendering, io).0.kernel == s.kernel && !Applied(env, s, restart, rendering, io).1
  {
  }

  predicate HarmlessFailure(env: Env, s: System, restart: bool, rendering: Conf, io: ApplyIO) {
    var d, sideCar := s.disk, UsesSideCar(env, s.kernel, restart);
    || !io.storeOk || env.path.Empty?
    || (io.write.NotOpened? && (sideCar || !io.removeOk || d.pending.None? || d.pending == d.canonical))
    || (io.write.Torn? && (HiddenTarget(env, s, restart, io) || Effective(d) == Some(Prefix(rendering, io.write.n))))
  }

  /** A successful apply that asked for a restart leaves the new peers in the kernel (on Linux,
      where the fallback exists), unless a differing side-car could not be removed or seen. */
  lemma {:induction false} ApplyRestartConverges(env: Env, s: System, rendering: Conf, io: ApplyIO)
    requires Applied(env, s, true, rendering, io).1 && env.linux
    requires io.removeOk || s.disk.pending.None?
    ensures var after := Applied(env, s, true, rendering, io).0;
            after.disk.canonical == Some(rendering) && after.disk.pending.None? && after.kernel.Up? && after.kernel.peers == rendering
  {
  }

  /** Applying while the tunnel is stopped and starting it later runs exactly what was applied. */
  lemma {:induction false} ApplyThenStart(env: Env, s: System, rendering: Conf, aio: ApplyIO, io: UpIO)
    requires UsesSideCar(env, s.kernel, false)
    requires Applied(env, s, false, rendering, aio).1
    requires Started(env, Applied(env, s, false, rendering, aio).0, io).1 && io.promote.statOk
    ensures var before := Applied(env, s, false, rendering, aio).0;
            var after := Started(env, before, io).0;
            && before.disk.canonical == s.disk.canonical && before.kernel == Down
            && after.kernel == Up(rendering, rendering) && after.disk.canonical == Some(rendering)
            && (io.promote.removeOk ==> after.disk.pending.None?)
  {
  }

  // ----- whole runs

  datatype Step =
    | Start(up: UpIO)
    | Stop(down: Cmd)
    | Restart(restart: RestartIO)
    | Apply(withRestart: bool, rendering: Conf, apply: ApplyIO)
    /** The process dies after `at` file steps of a promotion. */
    | CrashInPromotion(promote: PromoteIO, at: nat)
    /** Someone else starts, stops or changes the tunnel; or the machine reboots. */
    | Outside(kernel: Kernel)

  function After(env: Env, s: System, step: Step): System {
    match step
    case Start(io) => Started(env, s, io).0
    case Stop(c) => Stopped(env, s, c).0
    case Restart(io) => Restarted(env, s, io).0
    case Apply(r, rendering, io) => Applied(env, s, r, rendering, io).0
    case CrashInPromotion(io, at) =>
      var trace := PromoteTrace(env, s.disk, io);
      s.(disk := Last(s.disk, if at <= |trace| then trace[..at] else trace))
    case Outside(k) => s.(kernel := k)
  }

  function Run(env: Env, s: System, steps: seq<Step>): System {
    if steps == [] then s else After(env, Run(env, s, steps[..|steps| - 1]), steps[|steps| - 1])
  }

  /** An apply that writes its file is not shadowed by an older side-car, and one that fails
      is harmless. */
  predicate Clean(env: Env, s: System, step: Step) {
    step.Apply? ==>
      if ApplyWrites(env, step.apply)
      then UsesSideCar(env, s.kernel, step.withRestart) || step.apply.removeOk || s.disk.pending.None? || s.disk.pending == Some(step.rendering)
      else HarmlessFailure(env, s, step.withRestart, step.rendering, step.apply)
  }

  /** What the panel last wrote, or what was in force before. */
  function LastRendering(env: Env, initial: Option<Conf>, steps: seq<Step>): Option<Conf> {
    if steps == [] then initial
    else
      var last := steps[|steps| - 1];
      if last.Apply? && ApplyWrites(env, last.apply) then Some(last.rendering) else LastRendering(env, initial, steps[..|steps| - 1])
  }

  /** Each step does to the configuration in force what it should, exactly when it is clean. */
  lemma {:induction false} StepEffectiveIff(env: Env, s: System, step: Step)
    ensures Clean(env, s, step) <==>
            Effective(After(env, s, step).disk) ==
            if step.Apply? && ApplyWrites(env, step.apply) then Some(step.rendering) else Effective(s.disk)
  {
    hide PromoteTrace, Started, Restarted, Applied, HarmlessFailure;
    match step
    case Start(io) => StartKeepsEffective(env, s, io);
    case Stop(c) =>
    case Restart(io) => RestartKeepsEffective(env, s, io);
    case Apply(r, rendering, io) =>
      if ApplyWrites(env, io) {
        ApplyMakesEffective(env, s, r, rendering, io);
      } else {
        FailedApplyHarmlessIff(env, s, r, rendering, io);
      }
    case CrashInPromotion(io, at) => PromotionKeepsEffective(env, s.disk, io);
    case Outside(k) =>
  }

  ghost predicate CleanRun(env: Env, s: System, steps: seq<Step>) {
    forall i :: 0 <= i < |steps| ==> Clean(env, Run(env, s, steps[..i]), steps[i])
  }

  /** Over any run of applies, failed ones included, starts, stops, restarts, failed commands,
      crashes during promotion and outside interference: as long as no apply is shadowed or
      fails harmfully, the configuration in force is the last one written. */
  lemma {:induction false} RunEffective(env: Env, s: System, steps: seq<Step>)
    requires CleanRun(env, s, steps)
    ensures Effective(Run(env, s, steps).disk) == LastRendering(env, Effective(s.disk), steps)
  {
    if steps != [] {
      var init := steps[..|steps| - 1];
      forall i | 0 <= i < |init| ensures Clean(env, Run(env, s, init[..i]), init[i]) {
        assert init[..i] == steps[..i];
      }
      RunEffective(env, s, init);
      StepEffectiveIff(env, Run(env, s, init), steps[|steps| - 1]);
    }
  }

  /** So a successful start or restart after such a run brings up what was applied last. */
  lemma {:induction false} StartRunsLastApplied(env: Env, s: System, steps: seq<Step>, io: UpIO)
    requires CleanRun(env, s, steps)
    requires Started(env, Run(env, s, steps), io).1 && io.promote.statOk
    ensures Runs(Started(env, Run(env, s, steps), io).0.kernel, LastRendering(env, Effective(s.disk), steps))
  {
    hide Started, Runs;
    RunEffective(env, s, steps);
    StartLoadsEffective(env, Run(env, s, steps), io);
  }

  /** The whole shadowing family has this shape: the panel reports success, and the older
      side-car is what the restart brings up. */
  lemma {:induction false} ShadowedRestart(env: Env, s: System, rendering: Conf, io: ApplyIO)
    requires ApplyWrites(env, io) && !io.removeOk && s.disk.pending.Some? && s.disk.pending != Some(rendering)
    requires Applied(env, s, true, rendering, io).1 && Restarted(env, s.(disk := s.disk.(canonical := Some(rendering))), io.restart).1
    requires io.restart.promote.statOk
    ensures Runs(Applied(env, s, true, rendering, io).0.kernel, s.disk.pending)
  {
  }
}
