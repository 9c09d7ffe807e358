/**
 * `cli()`: choose the action from the flags, validate `-m`, resolve the
 * interface (from `-i` or the numbered menu), read its current address, then
 * restore, or back up and rotate, or back up and change once.
 */
module Cli {
  import opened Wrappers
  import opened Text
  import opened MacFormat
  import opened Vendor
  import opened Generator
  import opened Backup
  import opened Regenerate
  import opened Host
  import opened LinkScan

  /** The parsed flags `-i`, `-m`, `--restore`, `--random` and `--interval`. */
  datatype Args = Args(iface: Option<string>, mac: Option<string>, restore: bool, random: bool, interval: Option<int>)

  /** Python truthiness of an optional string: absent and "" both count as not given. */
  predicate Given(s: Option<string>)
  {
    s.Some? && s.value != []
  }

  /** Python truthiness of `--interval`: absent and 0 both count as not given. */
  predicate IntervalGiven(n: Option<int>)
  {
    n.Some? && n.value != 0
  }

  /** What the flags ask for, once `-m` has been checked. `ChangePlan(None)` is a random address. */
  datatype Plan = RejectMac | RestorePlan | RotatePlan(interval: int) | ChangePlan(manual: Option<string>)

  /**
   * The decisions `cli` takes from its flags alone: a malformed `-m` aborts
   * whatever else is asked; restore wins over rotation, rotation over a
   * one-shot change; a one-shot change uses `-m` when given and a random
   * address otherwise, which also covers the "no action" default.
   */
  function Dispatch(a: Args): (p: Plan)
    ensures p == RejectMac <==> Given(a.mac) && !ValidMacFormat(a.mac.value)
    ensures p == RestorePlan <==> p != RejectMac && a.restore
    ensures p.RotatePlan? <==> p != RejectMac && !a.restore && IntervalGiven(a.interval)
    ensures p.RotatePlan? ==> p.interval == a.interval.value && p.interval != 0
    ensures p.ChangePlan? ==> (p.manual.Some? <==> Given(a.mac))
    ensures p.ChangePlan? && p.manual.Some? ==> p.manual == a.mac && ValidMacFormat(p.manual.value)
  {
    if Given(a.mac) && !ValidMacFormat(a.mac.value) then RejectMac
    else if a.restore then RestorePlan
    else if IntervalGiven(a.interval) then RotatePlan(a.interval.value)
    else ChangePlan(if Given(a.mac) then a.mac else None)
  }

  /** With none of `-m`, `--random`, `--restore`, `--interval` set, the action is a random change. */
  lemma DefaultIsRandom(a: Args)
    requires !Given(a.mac) && !a.random && !a.restore && !IntervalGiven(a.interval)
    ensures Dispatch(a) == ChangePlan(None)
  {
  }

  /** `--random` only matters through the default: the plan is the same with or without it. */
  lemma RandomFlagChangesNothing(a: Args)
    ensures Dispatch(a.(random := true)) == Dispatch(a.(random := false))
  {
  }

  /** Only the restore plan skips the backup. */
  predicate BacksUp(p: Plan)
  {
    p.RotatePlan? || p.ChangePlan?
  }

  /** `if 1 <= choice_idx <= len(interfaces)`; `None` stands for input `int()` rejects. */
  predicate Accepts(input: Option<int>, count: nat)
  {
    input.Some? && 1 <= input.value <= count
  }

  /** The interface the menu selects: the one numbered by the first accepted input, if any. */
  function MenuChoice(interfaces: seq<string>, inputs: seq<Option<int>>): (choice: Option<string>)
    ensures choice.Some? ==> choice.value in interfaces
    decreases |inputs|
  {
    if inputs == [] then None
    else if Accepts(inputs[0], |interfaces|) then Some(interfaces[inputs[0].value - 1])
    else MenuChoice(interfaces, inputs[1..])
  }

  /**
   * The interface menu: read choices until one is a number between 1 and the
   * number of interfaces, and select `interfaces[choice - 1]`. `used` is the
   * number of inputs read; running out of inputs is an outcome of the model only.
   */
  method SelectInterface(interfaces: seq<string>, inputs: seq<Option<int>>) returns (choice: Option<string>, used: nat)
    ensures used <= |inputs|
    ensures choice.Some? ==>
      1 <= used && Accepts(inputs[used - 1], |interfaces|) && choice.value == interfaces[inputs[used - 1].value - 1]
    ensures choice.Some? ==> forall j :: 0 <= j < used - 1 ==> !Accepts(inputs[j], |interfaces|)
    ensures choice.None? ==> forall j :: 0 <= j < |inputs| ==> !Accepts(inputs[j], |interfaces|)
    ensures choice == MenuChoice(interfaces, inputs)
  {
    used := 0;
    while used < |inputs|
      invariant used <= |inputs|
      invariant forall j :: 0 <= j < used ==> !Accepts(inputs[j], |interfaces|)
      invariant MenuChoice(interfaces, inputs) == MenuChoice(interfaces, inputs[used..])
    {
      assert inputs[used..][1..] == inputs[used + 1..];
      var input := inputs[used];
      used := used + 1;
      if input.Some? && 1 <= input.value <= |interfaces| {
        return Some(interfaces[input.value - 1]), used;
      }
    }
    choice := None;
  }

  /**
   * What the outside world answers during one run: the `ip link` output
   * (None when the command fails), the menu inputs, the address `get_mac` reads before and after the change,
   * the clock, whether the backup file can be written, and the random draws.
   */
  datatype Env = Env(
    linkOutput: Option<string>,
    menuInputs: seq<Option<int>>,
    currentMac: Option<string>,
    now: string,
    writable: bool,
    draws: seq<Draw>,
    updatedMac: Option<string>,
    ticks: seq<Tick>)

  /** `detect_interfaces()` on this run's `ip link` output. */
  function Detected(env: Env): seq<string>
  {
    DetectInterfaces(env.linkOutput)
  }

  /** How a run ends. */
  datatype Outcome =
    | InvalidMacFormat
    | NoInterfacesFound
    | NoMenuChoice
    | MacUnavailable(iface: string)
    | Restored(iface: string, current: string, restore: RestoreOutcome)
    | Rotated(iface: string, current: string, backedUp: bool, rotation: RotateOutcome, rotated: seq<string>)
    | Changed(iface: string, current: string, backedUp: bool, applied: string, updated: string, vendor: string)
    | UpdatedMacMissing(iface: string, current: string, backedUp: bool, applied: string)
    | NoDifferentMac(iface: string, current: string, backedUp: bool)

  /** The run stopped before reading a usable current address. */
  predicate Aborted(o: Outcome)
  {
    o.InvalidMacFormat? || o.NoInterfacesFound? || o.NoMenuChoice? || o.MacUnavailable?
  }

  /** The run took the backup and went on to rotate or change. */
  predicate BackupPath(o: Outcome)
  {
    o.Rotated? || o.Changed? || o.UpdatedMacMissing? || o.NoDifferentMac?
  }

  /** The interface is the `-i` value, or, when `-i` is not given, the detected interface the menu selects. */
  predicate IfaceResolved(a: Args, env: Env, iface: string)
  {
    if Given(a.iface) then iface == a.iface.value else MenuChoice(Detected(env), env.menuInputs) == Some(iface)
  }

  /** The address the one-shot change applies: the first candidate different from the current address. */
  function OneShotPick(a: Args, env: Env, current: string): Option<string>
    requires Dispatch(a).ChangePlan?
  {
    FirstDifferent(Candidates(Dispatch(a).manual, env.draws), current)
  }

  /** How the interface was resolved. */
  datatype Resolution = Resolved(iface: string) | NoInterfaces | NoChoice

  /** `interface = args.interface`, or the menu over the detected interfaces when it is not given. */
  method ResolveInterface(a: Args, env: Env) returns (r: Resolution)
    ensures Given(a.iface) ==> r == Resolved(a.iface.value)
    ensures r.Resolved? ==> IfaceResolved(a, env, r.iface)
    ensures !Given(a.iface) ==> (r == NoInterfaces <==> Detected(env) == [])
    ensures !Given(a.iface) && Detected(env) != [] ==> (r == NoChoice <==> MenuChoice(Detected(env), env.menuInputs).None?)
    ensures r == NoChoice ==>
      !Given(a.iface) && forall j :: 0 <= j < |env.menuInputs| ==> !Accepts(env.menuInputs[j], |Detected(env)|)
  {
    if Given(a.iface) {
      return Resolved(a.iface.value);
    }
    var interfaces := DetectInterfaces(env.linkOutput);
    if interfaces == [] {
      return NoInterfaces;
    }
    var choice, _ := SelectInterface(interfaces, env.menuInputs);
    if choice.None? {
      return NoChoice;
    }
    r := Resolved(choice.value);
  }

  /**
   * The one-shot change after the backup: pick the new address, change to
   * it, read the address back and name its vendor.
   */
  method ChangeOnce(m: Machine, manual: Option<string>, iface: string, current: string, saved: bool, env: Env) returns (o: Outcome)
    requires m.Valid()
    modifies m`trace
    ensures m.Valid()
    ensures o.Changed? || o.UpdatedMacMissing? || o.NoDifferentMac?
    ensures o.iface == iface && o.current == current && o.backedUp == saved
    ensures o.Changed? || o.UpdatedMacMissing? ==>
      FirstDifferent(Candidates(manual, env.draws), current) == Some(o.applied) && !SameMac(o.applied, current)
    ensures (o.Changed? || o.UpdatedMacMissing?) && manual.Some? && !SameMac(manual.value, current) ==> o.applied == manual.value
    ensures o.Changed? || o.UpdatedMacMissing? ==> m.trace == old(m.trace) + ChangeSteps(iface, o.applied)
    ensures o.Changed? ==> env.updatedMac == Some(o.updated) && o.vendor == GetVendor(o.updated)
    ensures o.UpdatedMacMissing? ==> env.updatedMac.None?
    ensures o.NoDifferentMac? ==> FirstDifferent(Candidates(manual, env.draws), current).None? && m.trace == old(m.trace)
  {
    var picked := PickNewMac(manual, current, env.draws);
    if picked.None? {
      return NoDifferentMac(iface, current, saved);
    }
    var newMac := picked.value;
    var _ := m.ChangeMac(iface, newMac);
    if env.updatedMac.None? {
      return UpdatedMacMissing(iface, current, saved, newMac);
    }
    var updated := env.updatedMac.value;
    o := Changed(iface, current, saved, newMac, updated, GetVendor(updated));
  }

  /** Every plan but restore: back up the current address, then rotate or change once. */
  method BackUpAndChange(m: Machine, plan: Plan, iface: string, current: string, env: Env) returns (o: Outcome)
    requires m.Valid() && (plan.RotatePlan? || plan.ChangePlan?)
    modifies m
    ensures m.Valid()
    ensures BackupPath(o) && o.iface == iface && o.current == current
    ensures o.backedUp == BackupWrites(old(m.backupFile), env.writable)
    ensures m.backupFile == AfterBackup(old(m.backupFile), iface, current, env.now, env.writable)
    ensures o.Rotated? <==> plan.RotatePlan?
    ensures o.Rotated? ==>
      m.trace == old(m.trace) + BackupEffects(iface, current, o.backedUp) + ChangeStepsEach(iface, o.rotated)
    ensures o.Rotated? ==> RotationEnds(env.ticks, plan.interval, o.rotation, o.rotated)
    ensures o.Changed? || o.UpdatedMacMissing? ==>
      FirstDifferent(Candidates(plan.manual, env.draws), current) == Some(o.applied) && !SameMac(o.applied, current)
    ensures (o.Changed? || o.UpdatedMacMissing?) && plan.manual.Some? && !SameMac(plan.manual.value, current) ==>
      o.applied == plan.manual.value
    ensures o.Changed? || o.UpdatedMacMissing? ==>
      m.trace == old(m.trace) + BackupEffects(iface, current, o.backedUp) + ChangeSteps(iface, o.applied)
    ensures o.Changed? ==> env.updatedMac == Some(o.updated) && o.vendor == GetVendor(o.updated)
    ensures o.UpdatedMacMissing? ==> env.updatedMac.None?
    ensures o.NoDifferentMac? ==> FirstDifferent(Candidates(plan.manual, env.draws), current).None?
    ensures o.NoDifferentMac? ==> m.trace == old(m.trace) + BackupEffects(iface, current, o.backedUp)
  {
    var saved := m.BackupMac(iface, current, env.now, env.writable);
    if plan.RotatePlan? {
      var result, applied := m.Rotate(iface, plan.interval, env.ticks);
      return Rotated(iface, current, saved, result, applied);
    }
    o := ChangeOnce(m, plan.manual, iface, current, saved, env);
  }

  /** Everything after the interface and its current address are known: restore, or back up and change. */
  method Proceed(m: Machine, plan: Plan, iface: string, current: string, env: Env) returns (o: Outcome)
    requires m.Valid() && plan != RejectMac
    modifies m
    ensures m.Valid()
    ensures !Aborted(o) && o.iface == iface && o.current == current
    ensures o.Restored? <==> plan == RestorePlan
    ensures o.Restored? ==> m.backupFile == old(m.backupFile) && o.restore == RestoreLookup(old(m.backupFile), iface)
    ensures o.Restored? ==>
      m.trace == old(m.trace) + (if o.restore.RestoredTo? then ChangeSteps(iface, o.restore.mac) else [])
    ensures BackupPath(o) ==> BacksUp(plan) && o.backedUp == BackupWrites(old(m.backupFile), env.writable)
    ensures BackupPath(o) ==> m.backupFile == AfterBackup(old(m.backupFile), iface, current, env.now, env.writable)
    ensures o.Rotated? <==> plan.RotatePlan?
    ensures o.Rotated? ==>
      m.trace == old(m.trace) + BackupEffects(iface, current, o.backedUp) + ChangeStepsEach(iface, o.rotated)
    ensures o.Rotated? ==> RotationEnds(env.ticks, plan.interval, o.rotation, o.rotated)
    ensures o.Changed? || o.UpdatedMacMissing? || o.NoDifferentMac? ==> plan.ChangePlan?
    ensures o.Changed? || o.UpdatedMacMissing? ==>
      FirstDifferent(Candidates(plan.manual, env.draws), current) == Some(o.applied) && !SameMac(o.applied, current)
    ensures (o.Changed? || o.UpdatedMacMissing?) && plan.manual.Some? && !SameMac(plan.manual.value, current) ==>
      o.applied == plan.manual.value
    ensures o.Changed? || o.UpdatedMacMissing? ==>
      m.trace == old(m.trace) + BackupEffects(iface, current, o.backedUp) + ChangeSteps(iface, o.applied)
    ensures o.Changed? ==> env.updatedMac == Some(o.updated) && o.vendor == GetVendor(o.updated)
    ensures o.UpdatedMacMissing? ==> env.updatedMac.None?
    ensures o.NoDifferentMac? ==> FirstDifferent(Candidates(plan.manual, env.draws), current).None?
    ensures o.NoDifferentMac? ==> m.trace == old(m.trace) + BackupEffects(iface, current, o.backedUp)
  {
    if plan == RestorePlan {
      var result := m.RestoreMac(iface);
      return Restored(iface, current, result);
    }
    o := BackUpAndChange(m, plan, iface, current, env);
  }

  /** `cli()` run against machine `m`. */
  method Run(m: Machine, a: Args, env: Env) returns (o: Outcome)
    requires m.Valid()
    modifies m
    ensures m.Valid()
    ensures o == InvalidMacFormat <==> Dispatch(a) == RejectMac
    ensures o == NoInterfacesFound ==> !Given(a.iface) && Detected(env) == []
    ensures o == NoMenuChoice ==>
      !Given(a.iface) && forall j :: 0 <= j < |env.menuInputs| ==> !Accepts(env.menuInputs[j], |Detected(env)|)
    ensures o == NoMenuChoice ==> Detected(env) != [] && MenuChoice(Detected(env), env.menuInputs).None?
    ensures o.MacUnavailable? ==> IfaceResolved(a, env, o.iface) && !Given(env.currentMac)
    ensures Aborted(o) ==> m.trace == old(m.trace) && m.backupFile == old(m.backupFile)
    ensures !Aborted(o) ==> IfaceResolved(a, env, o.iface) && env.currentMac == Some(o.current) && o.current != []
    // restore: no backup, and at most one change, to the stored address
    ensures !Aborted(o) ==> (o.Restored? <==> Dispatch(a) == RestorePlan)
    ensures o.Restored? ==> m.backupFile == old(m.backupFile) && o.restore == RestoreLookup(old(m.backupFile), o.iface)
    ensures o.Restored? ==>
      m.trace == old(m.trace) + (if o.restore.RestoredTo? then ChangeSteps(o.iface, o.restore.mac) else [])
    // every other path backs up the current address before any change
    ensures BackupPath(o) ==> BacksUp(Dispatch(a)) && o.backedUp == BackupWrites(old(m.backupFile), env.writable)
    ensures BackupPath(o) ==> m.backupFile == AfterBackup(old(m.backupFile), o.iface, o.current, env.now, env.writable)
    // rotation
    ensures !Aborted(o) ==> (o.Rotated? <==> Dispatch(a).RotatePlan?)
    ensures o.Rotated? ==>
      m.trace == old(m.trace) + BackupEffects(o.iface, o.current, o.backedUp) + ChangeStepsEach(o.iface, o.rotated)
    ensures o.Rotated? ==> RotationEnds(env.ticks, Dispatch(a).interval, o.rotation, o.rotated)
    // one-shot change
    ensures o.Changed? || o.UpdatedMacMissing? ==>
      Dispatch(a).ChangePlan? && OneShotPick(a, env, o.current) == Some(o.applied) && !SameMac(o.applied, o.current)
    ensures (o.Changed? || o.UpdatedMacMissing?) && Given(a.mac) && !SameMac(a.mac.value, o.current) ==>
      o.applied == a.mac.value
    ensures o.Changed? || o.UpdatedMacMissing? ==>
      m.trace == old(m.trace) + BackupEffects(o.iface, o.current, o.backedUp) + ChangeSteps(o.iface, o.applied)
    ensures o.Changed? ==> env.updatedMac == Some(o.updated) && o.vendor == GetVendor(o.updated)
    ensures o.UpdatedMacMissing? ==> env.updatedMac.None?
    ensures o.NoDifferentMac? ==> Dispatch(a).ChangePlan? && OneShotPick(a, env, o.current).None?
    ensures o.NoDifferentMac? ==> m.trace == old(m.trace) + BackupEffects(o.iface, o.current, o.backedUp)
  {
    var plan := Dispatch(a);
    if plan == RejectMac {
      return InvalidMacFormat;
    }
    var resolution := ResolveInterface(a, env);
    match resolution {
      case NoInterfaces =>
        return NoInterfacesFound;
      case NoChoice =>
        return NoMenuChoice;
      case Resolved(iface) =>
        if !Given(env.currentMac) {
          return MacUnavailable(iface);
        }
        o := Proceed(m, plan, iface, env.currentMac.value, env);
    }
  }
}
