/** The panel's tunnel controls as ordered effects on files and on the tunnel (util/wg_quick.go,
    util/wg_synconf.go, handler/routes.go), each proved to do what PendingConf says, file step
    by file step. */
module WgPanel {
  import opened Wrappers
  import opened PendingConf

  class WgPanel {
    const env: Env
    var canonical: Option<Conf>
    var pending: Option<Conf>
    var temp: Option<Conf>
    var kernel: Kernel
    /** The disk after every file step so far: what a crash would leave. */
    ghost var seen: seq<Disk>

    ghost function Files(): Disk
      reads this
    {
      Disk(canonical, pending, temp)
    }

    ghost function View(): System
      reads this
    {
      System(Files(), kernel)
    }

    constructor (env: Env, s: System)
      ensures this.env == env && View() == s && seen == []
    {
      this.env := env;
      canonical, pending, temp, kernel, seen := s.disk.canonical, s.disk.pending, s.disk.temp, s.kernel, [];
    }

    ghost method Note()
      modifies this`seen
      ensures seen == old(seen) + [Files()]
    {
      seen := seen + [Files()];
    }

    // ----- external commands

    method WgQuickDown(c: Cmd) returns (ok: bool)
      modifies this`kernel
      ensures kernel == RunDown(old(kernel), c) && ok == c.Done?
    {
      match c
      case Done => kernel := Down; ok := true;
      case Failed(left) => kernel := left; ok := false;
    }

    method WgQuickUp(c: Cmd) returns (ok: bool)
      modifies this`kernel
      ensures (kernel, ok) == RunUp(old(kernel), canonical, c)
    {
      match c
      case Done =>
        ok := canonical.Some?;
        if ok {
          kernel := Up(canonical.value, canonical.value);
        }
      case Failed(left) => kernel := left; ok := false;
    }

    method WgSyncConf(c: Cmd) returns (ok: bool)
      modifies this`kernel
      ensures (System(Files(), kernel), ok) == Synced(env, old(View()), c)
    {
      if !env.path.Absolute? {
        return false;
      }
      match c
      case Done =>
        ok := canonical.Some? && kernel.Up?;
        if ok {
          kernel := Up(kernel.base, canonical.value);
        }
      case Failed(left) => kernel := left; ok := false;
    }

    // ----- files

    method RemovePending(removeOk: bool)
      modifies this`pending
      ensures pending == if removeOk then None else old(pending)
    {
      if removeOk {
        pending := None;
      }
    }

    /** PromotePendingWgConfIfAny. */
    method Promote(io: PromoteIO) returns (ok: bool)
      modifies this`canonical, this`pending, this`temp, this`seen
      ensures Files() == Promoted(env, old(Files()), io) && ok == PromoteOk(env, old(Files()), io)
      ensures seen == old(seen) + PromoteTrace(env, old(Files()), io)
    {
      if !env.path.Absolute? {
        return false;
      }
      if pending.None? || !io.statOk {
        return true;
      }
      if !io.readOk {
        return false;
      }
      var b := pending.value;
      match io.write {
        case NotOpened =>
          return false;
        case Torn(n) =>
          temp := Some("");
          Note();
          temp := Some(Prefix(b, n));
          Note();
          return false;
        case Written =>
          temp := Some("");
          Note();
          temp := Some(b);
          Note();
      }
      if !io.renameOk {
        if io.cleanupOk {
          temp := None;
          Note();
        }
        return false;
      }
      canonical, temp := temp, None;
      Note();
      RemovePending(io.removeOk);
      if io.removeOk {
        Note();
      }
      ok := true;
    }

    // ----- start, stop, restart

    predicate Allowed() {
      env.path.Absolute? && env.allowWgQuick
    }

    method RunWgQuickDown(c: Cmd) returns (ok: bool)
      modifies this`kernel
      ensures (View(), ok) == Stopped(env, old(View()), c)
      ensures ok <==> env.path.Absolute? && env.allowWgQuick && c == Done
      ensures ok ==> kernel == Down
      ensures !ok ==> kernel == if env.path.Absolute? && env.allowWgQuick then c.left else old(kernel)
    {
      if !Allowed() {
        return false;
      }
      ok := WgQuickDown(c);
    }

    method RunWgQuickUp(io: UpIO) returns (ok: bool)
      modifies this
      ensures (View(), ok) == Started(env, old(View()), io)
      ensures old(seen) <= seen
      ensures forall i :: |old(seen)| <= i < |seen| ==> Effective(seen[i]) == Effective(old(Files()))
    {
      hide PromoteTrace, Effective;
      if !Allowed() {
        return false;
      }
      PromotionKeepsEffective(env, Files(), io.promote);
      ok := Promote(io.promote);
      if !ok {
        return;
      }
      var ignored := WgQuickDown(io.down1);
      ok := WgQuickUp(io.up1);
      if !ok {
        ignored := WgQuickDown(io.down2);
        ok := WgQuickUp(io.up2);
      }
    }

    method RestartWgQuick(io: RestartIO) returns (ok: bool)
      modifies this
      ensures (View(), ok) == Restarted(env, old(View()), io)
      ensures old(seen) <= seen
      ensures forall i :: |old(seen)| <= i < |seen| ==> Effective(seen[i]) == Effective(old(Files()))
    {
      hide PromoteTrace, Effective;
      if !Allowed() {
        return false;
      }
      PromotionKeepsEffective(env, Files(), io.promote);
      ok := Promote(io.promote);
      if !ok {
        return;
      }
      if env.linux && env.restartViaSystemd && io.unitLoaded {
        ok := WgQuickUp(io.systemctl);
        if ok {
          return;
        }
      }
      var ignored := RunWgQuickDown(io.down);
      ok := RunWgQuickUp(io.up);
    }

    // ----- apply

    /** The file writing of WriteWireGuardServerConfig; the target is truncated when opened. */
    method WriteConf(toSideCar: bool, rendering: Conf, write: FileWrite) returns (ok: bool)
      modifies this`canonical, this`pending, this`seen
      ensures ok == write.Written?
      ensures Files() == match write
                         case NotOpened => old(Files())
                         case Torn(n) => WriteTo(old(Files()), toSideCar, Prefix(rendering, n))
                         case Written => WriteTo(old(Files()), toSideCar, rendering)
      ensures seen == old(seen) + if write.NotOpened? then [] else [WriteTo(old(Files()), toSideCar, ""), Files()]
    {
      if write.NotOpened? {
        return false;
      }
      SetTarget(toSideCar, "");
      Note();
      SetTarget(toSideCar, if write.Torn? then Prefix(rendering, write.n) else rendering);
      Note();
      ok := write.Written?;
    }

    method SetTarget(toSideCar: bool, c: Conf)
      modifies this`canonical, this`pending
      ensures Files() == WriteTo(old(Files()), toSideCar, c)
    {
      if toSideCar {
        pending := Some(c);
      } else {
        canonical := Some(c);
      }
    }

    /** applyWireGuardConfigToDisk. */
    method ApplyToDisk(restart: bool, rendering: Conf, io: ApplyIO) returns (ok: bool)
      modifies this
      ensures (View(), ok) == Applied(env, old(View()), restart, rendering, io)
      ensures ok ==> io.storeOk && !env.path.Empty? && io.write.Written? && io.hashesOk
      ensures !restart && io.storeOk && !env.path.Empty? && io.write.Written? && io.hashesOk ==>
                if old(kernel).Up? && env.linux && env.syncAfterApply then
                  if env.path.Relative? then !ok && kernel == old(kernel)
                  else if io.sync == Done then ok && kernel == Up(old(kernel).base, rendering)
                  else !ok && kernel == io.sync.left
                else ok && kernel == old(kernel)
      ensures !restart && io.storeOk && !env.path.Empty? && io.write.Written? ==>
                if env.pendingWhenStopped && env.linux && env.path.Absolute? && old(kernel).Down?
                then pending == Some(rendering) && canonical == old(canonical)
                else canonical == Some(rendering) && pending == if io.removeOk then None else old(pending)
      ensures old(seen) + ApplyTrace(env, old(View()), restart, rendering, io) <= seen
    {
      hide Restarted;
      if !io.storeOk || env.path.Empty? {
        return false;
      }
      var toSideCar := !restart && env.pendingWhenStopped && env.linux && env.path.Absolute? && kernel.Down?;
      if !toSideCar {
        RemovePending(io.removeOk);
      }
      Note();
      ok := WriteConf(toSideCar, rendering, io.write);
      assert seen == old(seen) + ApplyTrace(env, old(View()), restart, rendering, io);
      if !ok || !io.hashesOk {
        return false;
      }
      ok := ApplyKernel(restart, io);
      if !restart {
        ApplyWithoutRestart(env, old(View()), rendering, io);
      }
    }

    /** applyKernelAfterWritingWgConf. */
    method ApplyKernel(restart: bool, io: ApplyIO) returns (ok: bool)
      modifies this
      ensures (View(), ok) == KernelApplied(env, old(View()), restart, io)
      ensures !restart ==> Files() == old(Files()) && seen == old(seen)
      ensures !restart && old(kernel).Up? && env.linux && env.syncAfterApply && env.path.Absolute? && old(canonical).Some? ==>
                if io.sync == Done then ok && kernel == Up(old(kernel).base, old(canonical).value)
                else !ok && kernel == io.sync.left
      ensures !restart && (old(kernel).Down? || !env.linux || !env.syncAfterApply) ==> ok && kernel == old(kernel)
      ensures old(seen) <= seen
    {
      hide Restarted;
      if restart {
        ok := RestartWgQuick(io.restart);
        if !ok {
          if !env.linux {
            return true;
          }
          ok := WgSyncConf(io.sync);
        }
        return;
      }
      if env.syncAfterApply && kernel.Down? {
        return true;
      }
      if !env.syncAfterApply || !env.linux {
        return true;
      }
      ok := WgSyncConf(io.sync);
    }
  }
}
