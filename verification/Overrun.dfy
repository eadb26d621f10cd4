/** What a command line too long for its record does: a run on which one process's execute destroys the record of a
    process on another terminal. */
module Overrun {
  import opened Common
  import opened FileSystem
  import opened Descriptors
  import opened Commands
  import opened Processes

  /** The first terminal starts a shell and a second one on top; the other terminal gets its own; the second shell of
      the first terminal ends. */
  ghost function Setting(garbage: seq<byte>): seq<Step> {
    [Execute(Some(SHELL), garbage), Execute(Some(SHELL), garbage), Switch(1), Switch(0), Halt]
  }

  function ShellIn(slot: nat): Proc {
    Proc(slot, SHELL, [], FRESH_FDS, false)
  }

  /** Where that leads. */
  const AFTER_SETTING := World([[ShellIn(1)], [ShellIn(3)], []], 0)

  ghost function Letters(n: nat): (s: seq<byte>)
    ensures |s| == n && forall i :: 0 <= i < n ==> s[i] == 97
  {
    seq(n, _ => 97)
  }

  /** "x", a space and 200 times "a" */
  ghost function LongCommand(): seq<byte> {
    [120] + (seq(1, _ => SPACE) + Letters(200))
  }

  lemma LongCommandOverruns()
    ensures Split(LongCommand()) == Command([120], Letters(200)) && Overruns(Some(LongCommand()))
  {
    ParseInvertsJoin([120], 1, Letters(200));
  }

  lemma FreeIs(live: set<nat>, s: nat)
    requires 1 <= s < MAX_PROCESSES && s !in live && forall k :: 1 <= k < s ==> k in live
    ensures FreeFrom(live, 1) == s
  {
  }

  /** One step of a run, its result named. */
  lemma RunStep(img: Image, w: World, step: Step, steps: seq<Step>, v: World)
    requires ValidImage(img) && WellFormed(img, w) && Enabled(w, step) && v == Next(img, w, step)
    ensures WellFormed(img, v)
    ensures Feasible(img, v, steps) ==>
      Feasible(img, w, [step] + steps) && Run(img, w, [step] + steps) == Run(img, v, steps)
  {
    NextKeeps(img, w, step);
    assert ([step] + steps)[1..] == steps;
  }

  lemma LaunchShell(w: World, slot: nat, v: World)
    requires Shape(w) && Total(w) + 1 < MAX_PROCESSES && 1 <= slot < MAX_PROCESSES
    requires slot !in Live(w) && forall k :: 1 <= k < slot ==> k in Live(w)
    requires v.cur == w.cur && v.stacks == w.stacks[w.cur := w.stacks[w.cur] + [ShellIn(slot)]]
    ensures Launch(w, SHELL_COMMAND) == v
  {
    FreeIs(Live(w), slot);
  }

  lemma SlotsOfShells(st: seq<Proc>)
    ensures st == [] ==> SlotsOf(st) == {}
    ensures |st| == 1 ==> SlotsOf(st) == {st[0].slot}
    ensures |st| == 2 ==> SlotsOf(st) == {st[0].slot, st[1].slot}
  {
  }

  lemma LiveShells(w: World)
    requires Shape(w)
    ensures Live(w) == SlotsOf(w.stacks[0]) + SlotsOf(w.stacks[1]) + SlotsOf(w.stacks[2])
    ensures forall t :: 0 <= t < TERMINALS && w.stacks[t] == [] ==> SlotsOf(w.stacks[t]) == {}
    ensures forall t :: 0 <= t < TERMINALS && |w.stacks[t]| == 1 ==> SlotsOf(w.stacks[t]) == {w.stacks[t][0].slot}
    ensures forall t :: 0 <= t < TERMINALS && |w.stacks[t]| == 2 ==>
      SlotsOf(w.stacks[t]) == {w.stacks[t][0].slot, w.stacks[t][1].slot}
  {
    forall t | 0 <= t < TERMINALS
      ensures w.stacks[t] == [] ==> SlotsOf(w.stacks[t]) == {}
      ensures |w.stacks[t]| == 1 ==> SlotsOf(w.stacks[t]) == {w.stacks[t][0].slot}
      ensures |w.stacks[t]| == 2 ==> SlotsOf(w.stacks[t]) == {w.stacks[t][0].slot, w.stacks[t][1].slot}
    {
      SlotsOfShells(w.stacks[t]);
    }
  }

  /** The three shells the run starts. */
  lemma Launches()
    ensures Launch(EMPTY_WORLD, SHELL_COMMAND) == World([[ShellIn(1)], [], []], 0)
    ensures Launch(World([[ShellIn(1)], [], []], 0), SHELL_COMMAND) == World([[ShellIn(1), ShellIn(2)], [], []], 0)
    ensures Launch(World([[ShellIn(1), ShellIn(2)], [], []], 1), SHELL_COMMAND)
         == World([[ShellIn(1), ShellIn(2)], [ShellIn(3)], []], 1)
  {
    hide SlotsOf, Launch, Live;
    var w1 := World([[ShellIn(1)], [], []], 0);
    var w2 := World([[ShellIn(1), ShellIn(2)], [], []], 1);
    LiveShells(EMPTY_WORLD);
    LiveShells(w1);
    LiveShells(w2);
    assert [] + [ShellIn(1)] == [ShellIn(1)] && [ShellIn(1)] + [ShellIn(2)] == [ShellIn(1), ShellIn(2)];
    assert [] + [ShellIn(3)] == [ShellIn(3)];
    LaunchShell(EMPTY_WORLD, 1, w1);
    LaunchShell(w1, 2, w2.(cur := 0));
    LaunchShell(w2, 3, World([[ShellIn(1), ShellIn(2)], [ShellIn(3)], []], 1));
  }

  /** Where the run of five steps leads. */
  lemma SettingReached(img: Image, garbage: seq<byte>)
    requires ShellLoadable(img) && |garbage| == HEADER_SIZE
    ensures WellFormed(img, EMPTY_WORLD) && Feasible(img, EMPTY_WORLD, Setting(garbage))
    ensures Run(img, EMPTY_WORLD, Setting(garbage)) == AFTER_SETTING
  {
    hide Executable, Parse, Overruns, StackOk, SlotsOf, Live, FreeSlot, FdsOk, Feasible, Run, WellFormed, Launch;
    var w1 := World([[ShellIn(1)], [], []], 0);
    var w2 := World([[ShellIn(1), ShellIn(2)], [], []], 0);
    var w3 := World([[ShellIn(1), ShellIn(2)], [ShellIn(3)], []], 1);
    var w4 := w3.(cur := 0);
    var w5 := World([[ShellIn(1)], [ShellIn(3)], []], 0);
    var x := Execute(Some(SHELL), garbage);
    ShellAccepted(img, garbage);
    EmptyWellFormed(img);
    Launches();
    RunStep(img, EMPTY_WORLD, x, [x, Switch(1), Switch(0), Halt], w1);
    RunStep(img, w1, x, [Switch(1), Switch(0), Halt], w2);
    RunStep(img, w2, Switch(1), [Switch(0), Halt], w3);
    RunStep(img, w3, Switch(0), [Halt], w4);
    assert w4.stacks[0][..1] == [ShellIn(1)];
    RunStep(img, w4, Halt, [], w5);
    RunNothing(img, w5);
    assert Setting(garbage) == [x] + [x, Switch(1), Switch(0), Halt];
    assert [x, Switch(1), Switch(0), Halt] == [x] + [Switch(1), Switch(0), Halt];
    assert [Switch(1), Switch(0), Halt] == [Switch(1)] + [Switch(0), Halt];
    assert [Switch(0), Halt] == [Switch(0)] + [Halt];
    assert [Halt] == [Halt] + [];
  }

  lemma RunNothing(img: Image, w: World)
    requires ValidImage(img) && WellFormed(img, w)
    ensures Feasible(img, w, []) && Run(img, w, []) == w
  {
  }

  /** There is a run after which a 202-byte command line, asked for on the first terminal, goes into the slot before
      the one of the process on the second terminal ... */
  lemma OverrunReachable(img: Image, garbage: seq<byte>)
    requires ShellLoadable(img) && |garbage| == HEADER_SIZE
    ensures WellFormed(img, EMPTY_WORLD) && Feasible(img, EMPTY_WORLD, Setting(garbage))
    ensures Run(img, EMPTY_WORLD, Setting(garbage)) == AFTER_SETTING
    ensures Busy(AFTER_SETTING) && FreeSlot(AFTER_SETTING) == 2 && !Fits(AFTER_SETTING, Some(LongCommand()))
  {
    hide *;
    SettingReached(img, garbage);
    AfterSetting();
  }

  lemma TwoIsFree()
    ensures FreeFrom({1, 3}, 1) == 2
  {
  }

  lemma LiveAfterSetting()
    ensures Live(AFTER_SETTING) == {1, 3}
  {
    hide SlotsOf;
    LiveShells(AFTER_SETTING);
  }

  lemma AfterSetting()
    ensures Busy(AFTER_SETTING) && FreeSlot(AFTER_SETTING) == 2 && !Fits(AFTER_SETTING, Some(LongCommand()))
  {
    hide LongCommand, Overruns, Live, FreeFrom;
    LongCommandOverruns();
    LiveAfterSetting();
    TwoIsFree();
  }

  /** ... and copying it there puts the letter "a" in every byte of that process's first descriptor, whatever the table
      held. */
  lemma OverrunDestroysRecord(table: seq<byte>)
    requires |table| == MAX_PROCESSES * RECORD_SIZE
    ensures
      var record := FreeSlot(AFTER_SETTING) * RECORD_SIZE;
      var next := AFTER_SETTING.stacks[1][0].slot * RECORD_SIZE;
      && Room(table, record + NAME_AT, record + ARGS_AT, Split(LongCommand()))
      && Filled(table, record + NAME_AT, record + ARGS_AT, Split(LongCommand()))[next..next + 16] == Letters(16)
  {
    LongCommandOverruns();
    AfterSetting();
    hide Filled, Split, LongCommand, Letters, FreeSlot;
    FarBytes(table);
  }

  lemma FarBytes(table: seq<byte>)
    requires |table| == MAX_PROCESSES * RECORD_SIZE
    ensures
      var c, record := Command([120], Letters(200)), 2 * RECORD_SIZE;
      && Room(table, record + NAME_AT, record + ARGS_AT, c)
      && Filled(table, record + NAME_AT, record + ARGS_AT, c)[3 * RECORD_SIZE..3 * RECORD_SIZE + 16] == Letters(16)
  {
  }
}
