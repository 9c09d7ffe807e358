/**
 * What the tool does to the machine: the shell commands it issues and the
 * backup file it writes, recorded in order as one trace of effects.
 */
module Host {
  import opened Wrappers
  import opened Text
  import opened Generator
  import opened Backup
  import opened Regenerate

  /** The three configuration commands; `ip link set ...` and `ifconfig ...` alike. */
  datatype Command = LinkDown(iface: string) | SetAddress(iface: string, mac: string) | LinkUp(iface: string)

  /** An observable effect: a command issued to the shell, or a backup record written to the file. */
  datatype Effect = Shell(cmd: Command) | BackupSaved(iface: string, mac: string)

  /** The `cmds` list of `change_mac(iface, mac)`. */
  function ChangeSteps(iface: string, mac: string): seq<Effect>
  {
    [Shell(LinkDown(iface)), Shell(SetAddress(iface, mac)), Shell(LinkUp(iface))]
  }

  /** One `change_mac` per address, in order. */
  function ChangeStepsEach(iface: string, macs: seq<string>): seq<Effect>
    decreases |macs|
  {
    if macs == [] then [] else ChangeStepsEach(iface, macs[..|macs| - 1]) + ChangeSteps(iface, macs[|macs| - 1])
  }

  /** The backup effect, when the write happened. */
  function BackupEffects(iface: string, mac: string, saved: bool): seq<Effect>
  {
    if saved then [BackupSaved(iface, mac)] else []
  }

  /**
   * The shape every trace of the tool has: backup writes and whole
   * down / set-address / up blocks on one interface, and nothing else.
   */
  predicate WellFormed(t: seq<Effect>)
    decreases |t|
  {
    if t == [] then true
    else if t[0].BackupSaved? then WellFormed(t[1..])
    else
      && |t| >= 3 && t[0].Shell? && t[0].cmd.LinkDown? && t[1].Shell? && t[1].cmd.SetAddress?
      && t[..3] == ChangeSteps(t[0].cmd.iface, t[1].cmd.mac)
      && WellFormed(t[3..])
  }

  /** The addresses set by a trace, in order. */
  function AddressesSet(t: seq<Effect>): seq<(string, string)>
    decreases |t|
  {
    if t == [] then []
    else if t[0].Shell? && t[0].cmd.SetAddress? then [(t[0].cmd.iface, t[0].cmd.mac)] + AddressesSet(t[1..])
    else AddressesSet(t[1..])
  }

  lemma {:induction false} AddressesSetAppend(a: seq<Effect>, b: seq<Effect>)
    ensures AddressesSet(a + b) == AddressesSet(a) + AddressesSet(b)
    decreases |a|
  {
    if a == [] {
      assert a + b == b;
    } else {
      assert (a + b)[1..] == a[1..] + b;
      AddressesSetAppend(a[1..], b);
    }
  }

  /** Well-formed traces stay well-formed when one follows the other. */
  lemma {:induction false} WellFormedAppend(a: seq<Effect>, b: seq<Effect>)
    requires WellFormed(a) && WellFormed(b)
    ensures WellFormed(a + b)
    decreases |a|
  {
    if a == [] {
      assert a + b == b;
    } else if a[0].BackupSaved? {
      assert (a + b)[1..] == a[1..] + b;
      WellFormedAppend(a[1..], b);
    } else {
      assert (a + b)[..3] == a[..3];
      assert (a + b)[3..] == a[3..] + b;
      WellFormedAppend(a[3..], b);
    }
  }

  /** A run of changes is well formed, sets exactly the given addresses in order, and writes no backup. */
  lemma {:induction false} ChangeStepsEachFacts(iface: string, macs: seq<string>)
    ensures WellFormed(ChangeStepsEach(iface, macs))
    ensures AddressesSet(ChangeStepsEach(iface, macs)) == seq(|macs|, k requires 0 <= k < |macs| => (iface, macs[k]))
    ensures forall k :: 0 <= k < |ChangeStepsEach(iface, macs)| ==> ChangeStepsEach(iface, macs)[k].Shell?
    decreases |macs|
  {
    if macs != [] {
      var init := macs[..|macs| - 1];
      var last := macs[|macs| - 1];
      ChangeStepsEachFacts(iface, init);
      var steps := ChangeSteps(iface, last);
      assert steps[3..] == [];
      WellFormedAppend(ChangeStepsEach(iface, init), steps);
      AddressesSetAppend(ChangeStepsEach(iface, init), steps);
      assert steps[1..][1..] == [Shell(LinkUp(iface))] && steps[1..][1..][1..] == [];
      assert AddressesSet(steps[1..][1..]) == [];
      assert AddressesSet(steps[1..]) == [(iface, last)];
      assert AddressesSet(steps) == [(iface, last)];
    }
  }

  /** Appending one more change to a trace that ends with a run of changes extends the run. */
  lemma ChangeStepsEachSnoc(prefix: seq<Effect>, iface: string, macs: seq<string>, mac: string)
    ensures prefix + ChangeStepsEach(iface, macs + [mac]) == prefix + ChangeStepsEach(iface, macs) + ChangeSteps(iface, mac)
  {
    assert (macs + [mac])[..|macs|] == macs;
    var a, b, c := prefix, ChangeStepsEach(iface, macs), ChangeSteps(iface, mac);
    assert a + (b + c) == a + b + c;
  }

  /** The outcome of `rotate_mac` once the supplied ticks are used up or a tick raises. */
  datatype RotateOutcome =
    | StoppedByUser           // KeyboardInterrupt during the sleep after the last tick
    | CurrentMacMissing       // `get_mac` gave None: `current.lower()` raises
    | NegativeInterval        // `time.sleep` of a negative interval raises
    | DrawsExhausted          // the model's supply of random draws ran out

  /** What one pass of the rotation loop is given: the address `get_mac` reads and the random draws. */
  datatype Tick = Tick(current: Option<string>, draws: seq<Draw>)

  /** The address a tick applies: the first draw that differs from the address read at the tick. */
  predicate TickApplies(tick: Tick, mac: string)
  {
    tick.current.Some? && Some(mac) == FirstDifferent(RandomMacs(tick.draws), tick.current.value)
  }

  /** Tick by tick, the addresses applied are the ones those ticks apply. */
  predicate AllApply(ticks: seq<Tick>, applied: seq<string>)
  {
    |applied| <= |ticks| && forall k :: 0 <= k < |applied| ==> TickApplies(ticks[k], applied[k])
  }

  lemma AllApplyExtend(ticks: seq<Tick>, applied: seq<string>, mac: string)
    requires AllApply(ticks, applied) && |applied| < |ticks| && TickApplies(ticks[|applied|], mac)
    ensures AllApply(ticks, applied + [mac])
  {
    var more := applied + [mac];
    forall k | 0 <= k < |more|
      ensures TickApplies(ticks[k], more[k])
    {
      if k < |applied| {
        assert more[k] == applied[k];
      }
    }
  }

  /** A tick whose draws all equal, ignoring case, the address it read. */
  predicate TickExhausts(tick: Tick)
  {
    tick.current.Some? && FirstDifferent(RandomMacs(tick.draws), tick.current.value).None?
  }

  /** A tick that reads an address and has a differing draw: it applies an address and does not raise. */
  predicate GoodTick(tick: Tick)
  {
    tick.current.Some? && FirstDifferent(RandomMacs(tick.draws), tick.current.value).Some?
  }

  /**
   * How `rotate_mac` over `ticks` ends, given the addresses it applied: each
   * applied address is its tick's; the loop stops by the interrupt after the
   * last tick, at a tick that raises or runs out of draws, or at the sleep
   * after the first change when the interval is negative.
   */
  predicate RotationEnds(ticks: seq<Tick>, interval: int, r: RotateOutcome, applied: seq<string>)
  {
    && AllApply(ticks, applied)
    && (r == StoppedByUser <==> |applied| == |ticks| && (interval >= 0 || ticks == []))
    && (r == CurrentMacMissing ==> |applied| < |ticks| && ticks[|applied|].current.None?)
    && (r == NegativeInterval ==> interval < 0 && |applied| == 1)
    && (r == DrawsExhausted ==> |applied| < |ticks| && TickExhausts(ticks[|applied|]))
    && (interval < 0 ==> |applied| <= 1 && (|applied| == 1 <==> r == NegativeInterval))
  }

  /** The loop ends at a tick that raises: no address read, or no differing draw. */
  lemma EndsAtRaise(ticks: seq<Tick>, interval: int, r: RotateOutcome, applied: seq<string>)
    requires AllApply(ticks, applied) && |applied| < |ticks| && (|applied| > 0 ==> interval >= 0)
    requires (r == CurrentMacMissing && ticks[|applied|].current.None?) || (r == DrawsExhausted && TickExhausts(ticks[|applied|]))
    ensures RotationEnds(ticks, interval, r, applied)
  {
  }

  /** The loop ends at the negative sleep after the first change. */
  lemma EndsAtNegativeSleep(ticks: seq<Tick>, interval: int, applied: seq<string>)
    requires AllApply(ticks, applied) && |applied| == 1 && interval < 0
    ensures RotationEnds(ticks, interval, NegativeInterval, applied)
  {
  }

  /** The loop ends by the interrupt after every tick has applied its address. */
  lemma EndsByUser(ticks: seq<Tick>, interval: int, applied: seq<string>)
    requires AllApply(ticks, applied) && |applied| == |ticks| && (interval >= 0 || ticks == [])
    ensures RotationEnds(ticks, interval, StoppedByUser, applied)
  {
  }

  /** With a non-negative interval and only good ticks, every tick applies its address and only the interrupt stops the loop. */
  lemma RotationRunsEveryGoodTick(ticks: seq<Tick>, interval: int, r: RotateOutcome, applied: seq<string>)
    requires RotationEnds(ticks, interval, r, applied) && interval >= 0
    requires forall k :: 0 <= k < |ticks| ==> GoodTick(ticks[k])
    ensures r == StoppedByUser && |applied| == |ticks|
    ensures forall k :: 0 <= k < |ticks| ==> Some(applied[k]) == FirstDifferent(RandomMacs(ticks[k].draws), ticks[k].current.value)
  {
  }

  /** With a negative interval and a good first tick, the loop stops after exactly that tick's change. */
  lemma NegativeIntervalStopsAtFirst(ticks: seq<Tick>, interval: int, r: RotateOutcome, applied: seq<string>)
    requires RotationEnds(ticks, interval, r, applied) && interval < 0
    requires ticks != [] && GoodTick(ticks[0])
    ensures r == NegativeInterval
    ensures applied == [FirstDifferent(RandomMacs(ticks[0].draws), ticks[0].current.value).value]
  {
  }

  /** A tick that applies an address applies one different from the address it read. */
  lemma TickAppliesDifferent(tick: Tick, mac: string)
    requires TickApplies(tick, mac)
    ensures !SameMac(mac, tick.current.value)
  {
  }

  class Machine {
    var backupFile: FileState
    var trace: seq<Effect>

    ghost predicate Valid()
      reads this
    {
      WellFormed(trace)
    }

    constructor (file: FileState)
      ensures Valid() && backupFile == file && trace == []
    {
      backupFile := file;
      trace := [];
    }

    /**
     * `change_mac(iface, mac)`: issues down, set-address and up, in that
     * order, and reports success whatever the commands' exit codes.
     */
    method ChangeMac(iface: string, mac: string) returns (ok: bool)
      requires Valid()
      modifies this`trace
      ensures Valid()
      ensures trace == old(trace) + ChangeSteps(iface, mac)
      ensures ok
    {
      var cmds := ChangeSteps(iface, mac);
      var k := 0;
      while k < |cmds|
        invariant 0 <= k <= |cmds|
        invariant trace == old(trace) + cmds[..k]
      {
        trace := trace + [cmds[k]];
        k := k + 1;
      }
      assert cmds[3..] == [];
      WellFormedAppend(old(trace), cmds);
      ok := true;
    }

    /** `backup_mac(iface, mac)` at time `now`; `writable` says whether the file can be opened for writing. */
    method BackupMac(iface: string, mac: string, now: string, writable: bool) returns (saved: bool)
      requires Valid()
      modifies this
      ensures Valid()
      ensures saved == BackupWrites(old(backupFile), writable)
      ensures backupFile == AfterBackup(old(backupFile), iface, mac, now, writable)
      ensures trace == old(trace) + BackupEffects(iface, mac, saved)
    {
      saved := BackupWrites(backupFile, writable);
      if saved {
        var data := Entries(backupFile);
        data := data[iface := Record(mac, now)];
        backupFile := Stored(data);
        trace := trace + [BackupSaved(iface, mac)];
        WellFormedAppend(old(trace), [BackupSaved(iface, mac)]);
      }
    }

    /**
     * `restore_mac(iface)`: one change to the stored original address when
     * there is one, no change otherwise; the file is only read.
     */
    method RestoreMac(iface: string) returns (r: RestoreOutcome)
      requires Valid()
      modifies this`trace
      ensures Valid()
      ensures r == RestoreLookup(backupFile, iface)
      ensures r.RestoredTo? ==> trace == old(trace) + ChangeSteps(iface, r.mac)
      ensures !r.RestoredTo? ==> trace == old(trace)
    {
      r := RestoreLookup(backupFile, iface);
      if r.RestoredTo? {
        var _ := ChangeMac(iface, r.mac);
      }
    }

    /**
     * One pass of the `rotate_mac` loop without the sleep: read the current
     * address, draw until different, change to it.
     */
    method RotateOnce(iface: string, tick: Tick) returns (raised: Option<RotateOutcome>, mac: string)
      requires Valid()
      modifies this`trace
      ensures Valid()
      ensures raised.None? ==> TickApplies(tick, mac) && trace == old(trace) + ChangeSteps(iface, mac)
      ensures raised == Some(CurrentMacMissing) ==> tick.current.None? && trace == old(trace)
      ensures raised == Some(DrawsExhausted) ==> TickExhausts(tick) && trace == old(trace)
      ensures raised.None? || raised == Some(CurrentMacMissing) || raised == Some(DrawsExhausted)
    {
      mac := "";
      if tick.current.None? {
        return Some(CurrentMacMissing), mac;
      }
      var picked := PickNewMac(None, tick.current.value, tick.draws);
      assert Candidates(None, tick.draws) == RandomMacs(tick.draws);
      if picked.None? {
        return Some(DrawsExhausted), mac;
      }
      mac := picked.value;
      var _ := ChangeMac(iface, mac);
      raised := None;
    }

    /**
     * `rotate_mac(iface, interval)` over the given ticks: each tick reads the
     * current address, picks a different one and changes to it. No backup is
     * taken. The user's interrupt arrives during the sleep after the last tick.
     */
    method Rotate(iface: string, interval: int, ticks: seq<Tick>) returns (r: RotateOutcome, applied: seq<string>)
      requires Valid()
      modifies this`trace
      ensures Valid()
      ensures trace == old(trace) + ChangeStepsEach(iface, applied)
      ensures RotationEnds(ticks, interval, r, applied)
    {
      applied := [];
      var k := 0;
      while k < |ticks|
        invariant 0 <= k <= |ticks| && |applied| == k
        invariant Valid()
        invariant trace == old(trace) + ChangeStepsEach(iface, applied)
        invariant AllApply(ticks, applied)
        invariant k > 0 ==> interval >= 0
      {
        var raised, mac := RotateOnce(iface, ticks[k]);
        if raised.Some? {
          EndsAtRaise(ticks, interval, raised.value, applied);
          return raised.value, applied;
        }
        ChangeStepsEachSnoc(old(trace), iface, applied, mac);
        AllApplyExtend(ticks, applied, mac);
        applied := applied + [mac];
        k := k + 1;
        if interval < 0 {
          EndsAtNegativeSleep(ticks, interval, applied);
          return NegativeInterval, applied;
        }
      }
      r := StoppedByUser;
      EndsByUser(ticks, interval, applied);
    }
  }
}
