/** Many boots in a row, with otadata persisting across resets and an app that never reports success:
    when probation ends, how often a pending slot is tried, and what lost stores do to that. */
module Rollback {
  import opened Words
  import opened FlashDevice
  import opened SlotSelect
  import opened SelectionProperties

  const BOOTLOG_OFFSET: u32 := 0x12000
  const BOOTSTAT_OFFSET: u32 := 0x13000

  /** What varies from boot to boot: the two diagnostic sectors as they end up, and the otadata faults. */
  datatype BootInputs = BootInputs(bootlog: Sector, bootstat: Sector, faults: OtaFaults)

  function AfterDiagnostics(cells: seq<byte>, b: BootInputs): (after: seq<byte>)
    ensures |after| == |cells|
  {
    SetSector(SetSector(cells, BOOTLOG_OFFSET, b.bootlog), BOOTSTAT_OFFSET, b.bootstat)
  }

  /** The flash after a boot, byte by byte: the records go to 0x12000 and 0x13000, otadata changes exactly if the
      policy wants a new state, and everything else stays. */
  lemma BytesAfterBoot(ota: OtaCrate, cells: seq<byte>, b: BootInputs, i: nat)
    requires i < |cells|
    ensures var after, a := AfterBoot(ota, cells, b), ActionOf(ota, cells, b);
      after[i] == if 0x1_2000 <= i < 0x1_3000 then b.bootlog[i - 0x1_2000]
                  else if 0x1_3000 <= i < 0x1_4000 then b.bootstat[i - 0x1_3000]
                  else if 0xF000 <= i < 0x1_0000 && !a.Stable? then
                    if b.faults.storeFails then b.faults.torn[i - 0xF000] else ota.encode(a.newState)[i - 0xF000]
                  else cells[i]
  {
    hide Decide;
  }

  function ActionOf(ota: OtaCrate, cells: seq<byte>, b: BootInputs): BootAction {
    Decide(ota, AfterDiagnostics(cells, b), b.faults.loadFails)
  }

  function AfterBoot(ota: OtaCrate, cells: seq<byte>, b: BootInputs): (after: seq<byte>)
    ensures |after| == |cells|
  {
    CellsAfterPick(ota, AfterDiagnostics(cells, b), b.faults)
  }

  function AfterRun(ota: OtaCrate, cells: seq<byte>, boots: seq<BootInputs>): (after: seq<byte>)
    ensures |after| == |cells|
    decreases |boots|
  {
    if boots == [] then cells else AfterRun(ota, AfterBoot(ota, cells, boots[0]), boots[1..])
  }

  /** The policy's action on each boot of a run. */
  function Actions(ota: OtaCrate, cells: seq<byte>, boots: seq<BootInputs>): (actions: seq<BootAction>)
    ensures |actions| == |boots|
    decreases |boots|
  {
    if boots == [] then []
    else [ActionOf(ota, cells, boots[0])] + Actions(ota, AfterBoot(ota, cells, boots[0]), boots[1..])
  }

  function OtaState(ota: OtaCrate, cells: seq<byte>): Option<OtaData> {
    LoadOta(ota, cells, false)
  }

  function OtaSector(cells: seq<byte>): Sector
    requires OTADATA_OFFSET + SECTOR_SIZE <= |cells|
  {
    cells[OTADATA_OFFSET..OTADATA_OFFSET + SECTOR_SIZE]
  }

  /** The state has a slot on probation. */
  predicate OnProbation(state: Option<OtaData>) {
    state.Some? && state.value.pending.Some?
  }

  /** A store was attempted, failed, and left something other than the state it was to replace. */
  predicate Disturbs(ota: OtaCrate, cells: seq<byte>, b: BootInputs) {
    !ActionOf(ota, cells, b).Stable? && b.faults.storeFails && ota.decode(b.faults.torn) != OtaState(ota, cells)
  }

  /** No boot of the run disturbs the state. */
  predicate Undisturbed(ota: OtaCrate, cells: seq<byte>, boots: seq<BootInputs>)
    decreases |boots|
  {
    boots == []
    || (!Disturbs(ota, cells, boots[0]) && Undisturbed(ota, AfterBoot(ota, cells, boots[0]), boots[1..]))
  }

  /** The number of boots up to and including the last one that disturbs the state. */
  function LastDisturbance(ota: OtaCrate, cells: seq<byte>, boots: seq<BootInputs>): (j: nat)
    ensures j <= |boots|
    decreases |boots|
  {
    if Undisturbed(ota, cells, boots) then 0
    else 1 + LastDisturbance(ota, AfterBoot(ota, cells, boots[0]), boots[1..])
  }

  function Disturbances(ota: OtaCrate, cells: seq<byte>, boots: seq<BootInputs>): nat
    decreases |boots|
  {
    if boots == [] then 0
    else (if Disturbs(ota, cells, boots[0]) then 1 else 0)
         + Disturbances(ota, AfterBoot(ota, cells, boots[0]), boots[1..])
  }

  /** Otadata could be both read and written during this boot. */
  predicate Sound(b: BootInputs) {
    !b.faults.loadFails && !b.faults.storeFails
  }

  function SoundBoots(boots: seq<BootInputs>): (n: nat)
    ensures n <= |boots|
  {
    if boots == [] then 0 else (if Sound(boots[0]) then 1 else 0) + SoundBoots(boots[1..])
  }

  /** Boots that could read otadata but not write it. */
  function LostStores(boots: seq<BootInputs>): nat {
    if boots == [] then 0
    else (if !boots[0].faults.loadFails && boots[0].faults.storeFails then 1 else 0) + LostStores(boots[1..])
  }

  function PendingBoots(actions: seq<BootAction>): nat {
    if actions == [] then 0 else (if actions[0].Pending? then 1 else 0) + PendingBoots(actions[1..])
  }

  // ----- one boot -----

  lemma DiagnosticsKeepOtadata(ota: OtaCrate, cells: seq<byte>, b: BootInputs)
    requires OTADATA_OFFSET + SECTOR_SIZE <= |cells|
    ensures OtaSector(AfterDiagnostics(cells, b)) == OtaSector(cells)
  {
    var logged := SetSector(cells, BOOTLOG_OFFSET, b.bootlog);
    SectorKeepsRange(cells, BOOTLOG_OFFSET, b.bootlog, OTADATA_OFFSET, OTADATA_OFFSET + SECTOR_SIZE);
    SectorKeepsRange(logged, BOOTSTAT_OFFSET, b.bootstat, OTADATA_OFFSET, OTADATA_OFFSET + SECTOR_SIZE);
  }

  /** One boot in terms of the state otadata holds. */
  lemma OneBoot(ota: OtaCrate, cells: seq<byte>, b: BootInputs)
    requires Contract(ota) && OTADATA_OFFSET + SECTOR_SIZE <= |cells|
    ensures ActionOf(ota, cells, b)
         == ota.selectSlot(if b.faults.loadFails || OtaState(ota, cells).None? then ota.freshState
                           else OtaState(ota, cells).value, ota.maxAttempts)
    ensures ActionOf(ota, cells, b).Stable? ==> OtaSector(AfterBoot(ota, cells, b)) == OtaSector(cells)
    ensures !ActionOf(ota, cells, b).Stable? ==>
      OtaState(ota, AfterBoot(ota, cells, b))
      == if b.faults.storeFails then ota.decode(b.faults.torn) else Some(ActionOf(ota, cells, b).newState)
  {
    hide Contract, AfterDiagnostics;
    DiagnosticsKeepOtadata(ota, cells, b);
    StoresExactlyTheNewState(ota, AfterDiagnostics(cells, b), b.faults);
  }

  // ----- a run from probation -----

  /** Tries a pending state still has before the policy gives it up. */
  function TriesLeft(s: OtaData, max: byte): (n: nat)
    ensures n <= max
  {
    if s.attempts < max then max - s.attempts else 0
  }

  /** The state `s` that a run from `s0` has reached after `g` boots with sound otadata. */
  ghost predicate Reached(s: OtaData, s0: OtaData, max: byte, g: nat) {
    && s.stable == s0.stable
    && (if g <= TriesLeft(s0, max) then s.pending == s0.pending && s.attempts == s0.attempts + g else s.pending == None)
  }

  /** The action of a boot when `g` sound boots came before it. */
  ghost predicate Expected(ota: OtaCrate, a: BootAction, s0: OtaData, g: nat, b: BootInputs)
    requires s0.pending.Some?
  {
    var left := TriesLeft(s0, ota.maxAttempts);
    if b.faults.loadFails then a == Stable(A)
    else if g < left then a.Pending? && a.slot == s0.pending.value && a.attempt == s0.attempts + g + 1
    else if g == left then a.Rollback? && a.from == s0.pending.value && a.to == s0.stable
    else a == Stable(s0.stable)
  }

  /** Every action is the one expected after the sound boots before it, `g` of them before the run. */
  ghost predicate FollowsProbation(ota: OtaCrate, actions: seq<BootAction>, boots: seq<BootInputs>, s0: OtaData, g: nat)
    requires s0.pending.Some?
  {
    |actions| == |boots|
    && forall i | 0 <= i < |boots| :: Expected(ota, actions[i], s0, g + SoundBoots(boots[..i]), boots[i])
  }

  lemma StepFromReached(ota: OtaCrate, cells: seq<byte>, b: BootInputs, s: OtaData, s0: OtaData, g: nat)
    requires Contract(ota) && OTADATA_OFFSET + SECTOR_SIZE <= |cells| && s0.pending.Some?
    requires OtaState(ota, cells) == Some(s) && Reached(s, s0, ota.maxAttempts, g)
    requires !Disturbs(ota, cells, b)
    ensures Expected(ota, ActionOf(ota, cells, b), s0, g, b)
    ensures var after := OtaState(ota, AfterBoot(ota, cells, b));
            after.Some? && Reached(after.value, s0, ota.maxAttempts, g + if Sound(b) then 1 else 0)
  {
    hide ActionOf, AfterBoot;
    OneBoot(ota, cells, b);
  }

  /** The exact course of every undisturbed run from probation. However reads and stores fail, boot `i` acts
      as the number of sound boots before it says: the next counted try, then the rollback, then the stable
      slot for good (slot A whenever otadata cannot be read); and the state left behind is the one that many
      sound boots lead to. */
  lemma {:induction false} RunFromProbation(ota: OtaCrate, cells: seq<byte>, boots: seq<BootInputs>,
                                            s: OtaData, s0: OtaData, g: nat)
    requires Contract(ota) && OTADATA_OFFSET + SECTOR_SIZE <= |cells| && s0.pending.Some?
    requires OtaState(ota, cells) == Some(s) && Reached(s, s0, ota.maxAttempts, g)
    requires Undisturbed(ota, cells, boots)
    ensures FollowsProbation(ota, Actions(ota, cells, boots), boots, s0, g)
    ensures var end := OtaState(ota, AfterRun(ota, cells, boots));
            end.Some? && Reached(end.value, s0, ota.maxAttempts, g + SoundBoots(boots))
    decreases |boots|
  {
    hide Contract, Expected, Reached, ActionOf, AfterBoot, OtaState, Disturbs;
    if boots == [] {
    } else {
      var b, rest := boots[0], boots[1..];
      StepFromReached(ota, cells, b, s, s0, g);
      var next := AfterBoot(ota, cells, b);
      var g' := g + if Sound(b) then 1 else 0;
      RunFromProbation(ota, next, rest, OtaState(ota, next).value, s0, g');
      forall i | 0 <= i < |boots|
        ensures Expected(ota, Actions(ota, cells, boots)[i], s0, g + SoundBoots(boots[..i]), boots[i])
      {
        if i > 0 {
          assert boots[..i][1..] == rest[..i - 1];
          assert Actions(ota, cells, boots)[i] == Actions(ota, next, rest)[i - 1];
        }
      }
    }
  }

  /** With three tries and otadata sound throughout: attempts 1, 2 and 3, then the rollback, then the stable slot. */
  lemma ThreeTries(ota: OtaCrate, cells: seq<byte>, boots: seq<BootInputs>, s0: OtaData)
    requires Contract(ota) && ota.maxAttempts == 3 && 0x1_0000 <= |cells|
    requires ota.decode(cells[0xF000..0x1_0000]) == Some(s0) && s0.pending.Some? && s0.attempts == 0
    requires |boots| == 5 && forall b | b in boots :: !b.faults.loadFails && !b.faults.storeFails
    ensures var a, pending := Actions(ota, cells, boots), s0.pending.value;
      && (forall i | 0 <= i < 3 :: a[i].Pending? && a[i].slot == pending && a[i].attempt == i + 1)
      && a[3].Rollback? && a[3].from == pending && a[3].to == s0.stable
      && a[4] == Stable(s0.stable)
    ensures var left := ota.decode(AfterRun(ota, cells, boots)[0xF000..0x1_0000]);
      left.Some? && left.value.stable == s0.stable && left.value.pending == None
  {
    hide Contract, Actions, Undisturbed, OtaState;
    SoundIsUndisturbed(ota, cells, boots);
    assert OtaState(ota, cells) == Some(s0) by { StateOnFlash(ota, cells); }
    RunFromProbation(ota, cells, boots, s0, s0, 0);
    StateOnFlash(ota, AfterRun(ota, cells, boots));
    var actions := Actions(ota, cells, boots);
    forall i | 0 <= i < 5 ensures Expected(ota, actions[i], s0, i, boots[i]) && !boots[i].faults.loadFails {
      assert forall b | b in boots[..i] :: b in boots;
      assert boots[i] in boots;
      SoundIsUndisturbed(ota, cells, boots[..i]);
    }
  }

  lemma StateOnFlash(ota: OtaCrate, cells: seq<byte>)
    requires 0x1_0000 <= |cells|
    ensures OtaState(ota, cells) == ota.decode(cells[0xF000..0x1_0000])
  {
  }

  lemma {:induction false} SoundIsUndisturbed(ota: OtaCrate, cells: seq<byte>, boots: seq<BootInputs>)
    requires forall e | e in boots :: Sound(e)
    ensures Undisturbed(ota, cells, boots) && SoundBoots(boots) == |boots|
    decreases |boots|
  {
    hide ActionOf, AfterBoot;
    if boots == [] {
    } else {
      assert boots[0] in boots;
      SoundIsUndisturbed(ota, AfterBoot(ota, cells, boots[0]), boots[1..]);
    }
  }

  // ----- a run without probation -----

  /** Every action boots the stable slot, or slot A where otadata is unreadable. */
  ghost predicate FollowsStable(ota: OtaCrate, actions: seq<BootAction>, boots: seq<BootInputs>,
                                state: Option<OtaData>)
  {
    |actions| == |boots|
    && forall i | 0 <= i < |boots| ::
         actions[i] == Stable(if boots[i].faults.loadFails || state.None? then A else state.value.stable)
  }

  /** Without probation no boot of any run changes otadata, whatever fails; every boot takes the stable slot,
      or slot A when otadata cannot be read. */
  lemma {:induction false} StableForever(ota: OtaCrate, cells: seq<byte>, boots: seq<BootInputs>)
    requires Contract(ota) && OTADATA_OFFSET + SECTOR_SIZE <= |cells|
    requires !OnProbation(OtaState(ota, cells))
    ensures OtaSector(AfterRun(ota, cells, boots)) == OtaSector(cells)
    ensures FollowsStable(ota, Actions(ota, cells, boots), boots, OtaState(ota, cells))
    decreases |boots|
  {
    hide AfterBoot, ActionOf;
    if boots == [] {
    } else {
      OneBoot(ota, cells, boots[0]);
      StableForever(ota, AfterBoot(ota, cells, boots[0]), boots[1..]);
    }
  }

  // ----- any run at all -----

  /** A run may be cut anywhere. */
  lemma {:induction false} RunSplits(ota: OtaCrate, cells: seq<byte>, boots: seq<BootInputs>, j: nat)
    requires j <= |boots|
    ensures var mid := AfterRun(ota, cells, boots[..j]);
      && AfterRun(ota, cells, boots) == AfterRun(ota, mid, boots[j..])
      && Actions(ota, cells, boots)[j..] == Actions(ota, mid, boots[j..])
    decreases j
  {
    hide AfterBoot, ActionOf;
    if j == 0 {
    } else {
      var next := AfterBoot(ota, cells, boots[0]);
      RunSplits(ota, next, boots[1..], j - 1);
      assert boots[..j][1..] == boots[1..][..j - 1] && boots[1..][j - 1..] == boots[j..];
      assert Actions(ota, cells, boots)[j..] == Actions(ota, next, boots[1..])[j - 1..];
    }
  }

  /** Behind the last disturbance the run is undisturbed, and that boot did disturb it. */
  lemma {:induction false} LastDisturbanceIsLast(ota: OtaCrate, cells: seq<byte>, boots: seq<BootInputs>)
    ensures var j := LastDisturbance(ota, cells, boots);
      && Undisturbed(ota, AfterRun(ota, cells, boots[..j]), boots[j..])
      && (j > 0 ==> Disturbs(ota, AfterRun(ota, cells, boots[..j - 1]), boots[j - 1]))
    decreases |boots|
  {
    hide AfterBoot, Disturbs;
    var j := LastDisturbance(ota, cells, boots);
    if j == 0 {
      assert boots[j..] == boots;
    } else {
      var next, rest := AfterBoot(ota, cells, boots[0]), boots[1..];
      LastDisturbanceIsLast(ota, next, rest);
      assert boots[..j][1..] == rest[..j - 1] && rest[j - 1..] == boots[j..];
      if j > 1 {
        assert boots[..j - 1][1..] == rest[..j - 2];
      }
    }
  }

  /** The course of every run whatsoever, with arbitrary contents left behind by failed stores: from the last boot
      that disturbed the state on, it is the run from probation that the state found there begins, or the stable
      run if there is none. */
  lemma RunCourse(ota: OtaCrate, cells: seq<byte>, boots: seq<BootInputs>)
    requires Contract(ota) && OTADATA_OFFSET + SECTOR_SIZE <= |cells|
    ensures var j := LastDisturbance(ota, cells, boots);
      var mid, end := AfterRun(ota, cells, boots[..j]), AfterRun(ota, cells, boots);
      if OnProbation(OtaState(ota, mid)) then
        var s := OtaState(ota, mid).value;
        && FollowsProbation(ota, Actions(ota, cells, boots)[j..], boots[j..], s, 0)
        && OtaState(ota, end).Some?
        && Reached(OtaState(ota, end).value, s, ota.maxAttempts, SoundBoots(boots[j..]))
      else
        && FollowsStable(ota, Actions(ota, cells, boots)[j..], boots[j..], OtaState(ota, mid))
        && OtaSector(end) == OtaSector(mid)
  {
    hide Contract, Expected, AfterRun, Actions, OtaState, Disturbs, Undisturbed, FollowsProbation, FollowsStable;
    var j := LastDisturbance(ota, cells, boots);
    var mid, rest := AfterRun(ota, cells, boots[..j]), boots[j..];
    LastDisturbanceIsLast(ota, cells, boots);
    RunSplits(ota, cells, boots, j);
    if OnProbation(OtaState(ota, mid)) {
      var s := OtaState(ota, mid).value;
      RunFromProbation(ota, mid, rest, s, s, 0);
    } else {
      StableForever(ota, mid, rest);
    }
  }

  /** Probation is over after a run, of any kind, if and only if the state found after its last disturbance was not
      on probation, or more boots since then had sound otadata than that state had tries left. With no disturbance
      that is the state the run started from. A boot that cannot read otadata, or loses its store without a trace,
      is not counted, so the documented `MAX_BOOT_ATTEMPTS` failed boots need not be enough. */
  lemma RolledBackIff(ota: OtaCrate, cells: seq<byte>, boots: seq<BootInputs>)
    requires Contract(ota) && OTADATA_OFFSET + SECTOR_SIZE <= |cells|
    ensures var j := LastDisturbance(ota, cells, boots);
      var found := OtaState(ota, AfterRun(ota, cells, boots[..j]));
      !OnProbation(OtaState(ota, AfterRun(ota, cells, boots)))
      <==> !OnProbation(found) || SoundBoots(boots[j..]) > TriesLeft(found.value, ota.maxAttempts)
  {
    hide Contract, Expected, AfterRun, Actions, FollowsProbation, FollowsStable, LastDisturbance;
    RunCourse(ota, cells, boots);
  }

  // ----- how often a slot is tried -----

  /** Tries that the state, if any, still grants. */
  function Budget(state: Option<OtaData>, max: byte): nat {
    if OnProbation(state) then TriesLeft(state.value, max) else 0
  }

  lemma BudgetStep(ota: OtaCrate, cells: seq<byte>, b: BootInputs)
    requires Contract(ota) && OTADATA_OFFSET + SECTOR_SIZE <= |cells|
    ensures Budget(OtaState(ota, AfterBoot(ota, cells, b)), ota.maxAttempts)
            + (if ActionOf(ota, cells, b).Pending? then 1 else 0)
         <= Budget(OtaState(ota, cells), ota.maxAttempts)
            + (if !b.faults.loadFails && b.faults.storeFails then 1 else 0)
            + (if Disturbs(ota, cells, b) then ota.maxAttempts else 0)
  {
    hide ActionOf, AfterBoot;
    OneBoot(ota, cells, b);
  }

  /** Bounded rollback, over any run at all: a pending slot is selected at most as often as tries were left, plus once
      for every store that was lost, plus `maxAttempts` for every lost store that left another state behind. */
  lemma {:induction false} PendingIsBounded(ota: OtaCrate, cells: seq<byte>, boots: seq<BootInputs>)
    requires Contract(ota) && OTADATA_OFFSET + SECTOR_SIZE <= |cells|
    ensures PendingBoots(Actions(ota, cells, boots))
         <= Budget(OtaState(ota, cells), ota.maxAttempts) + LostStores(boots)
            + ota.maxAttempts * Disturbances(ota, cells, boots)
    decreases |boots|
  {
    hide Contract, ActionOf, AfterBoot, Disturbs, Budget, OtaState;
    var max: nat := ota.maxAttempts;
    if boots == [] {
    } else {
      var next, rest := AfterBoot(ota, cells, boots[0]), boots[1..];
      BudgetStep(ota, cells, boots[0]);
      PendingIsBounded(ota, next, rest);
      assert Actions(ota, cells, boots)[1..] == Actions(ota, next, rest);
      OneMoreTime(max, Disturbances(ota, next, rest));
    }
  }

  lemma OneMoreTime(m: nat, n: nat)
    ensures m * (1 + n) == m + m * n
  {
  }

  // ----- what lost stores do -----

  /** The counter is not guaranteed to land: while every store is lost without a trace, a hanging slot is
      selected on every readable boot, always as the same attempt, and never rolled back. */
  lemma LostStoresDefeatRollback(ota: OtaCrate, cells: seq<byte>, boots: seq<BootInputs>, s0: OtaData, i: nat)
    requires Contract(ota) && OTADATA_OFFSET + SECTOR_SIZE <= |cells|
    requires OtaState(ota, cells) == Some(s0) && s0.pending.Some? && s0.attempts < ota.maxAttempts
    requires Undisturbed(ota, cells, boots) && (forall b | b in boots :: b.faults.storeFails)
    requires i < |boots| && !boots[i].faults.loadFails
    ensures var a := Actions(ota, cells, boots)[i];
            a.Pending? && a.slot == s0.pending.value && a.attempt == s0.attempts + 1
  {
    hide Contract, Undisturbed;
    RunFromProbation(ota, cells, boots, s0, s0, 0);
    NoneSound(boots[..i]);
  }

  lemma {:induction false} NoneSound(boots: seq<BootInputs>)
    requires forall b | b in boots :: b.faults.storeFails
    ensures SoundBoots(boots) == 0
  {
    if boots == [] {
    } else {
      NoneSound(boots[1..]);
    }
  }

  /** On this chip no boot of any run counts a try or rolls back. */
  ghost predicate NeverActs(ota: OtaCrate, cells: seq<byte>) {
    forall later: seq<BootInputs> :: AllStable(Actions(ota, cells, later))
  }

  ghost predicate AllStable(actions: seq<BootAction>) {
    forall i | 0 <= i < |actions| :: actions[i].Stable?
  }

  lemma NeverActsIff(ota: OtaCrate, cells: seq<byte>, b: BootInputs)
    requires Contract(ota) && OTADATA_OFFSET + SECTOR_SIZE <= |cells|
    ensures NeverActs(ota, cells) <==> !OnProbation(OtaState(ota, cells))
  {
    hide AfterBoot, ActionOf;
    if OnProbation(OtaState(ota, cells)) {
      var sound := b.(faults := OtaFaults(false, false, b.faults.torn));
      OneBoot(ota, cells, sound);
      assert Actions(ota, cells, [sound])[0] == ActionOf(ota, cells, sound);
      assert !AllStable(Actions(ota, cells, [sound]));
    } else {
      forall later: seq<BootInputs> ensures AllStable(Actions(ota, cells, later)) {
        StableForever(ota, cells, later);
      }
    }
  }

  /** What a failed store leaves in the sector decides everything after it: probation goes on if and only if those
      contents decode to a state on probation, in whatever terms that state sets. Otherwise no later run is anything
      but stable: on the slot that state names, or on slot A if the contents cannot be decoded. */
  lemma TornStoreDecides(ota: OtaCrate, cells: seq<byte>, b: BootInputs, later: seq<BootInputs>)
    requires Contract(ota) && OTADATA_OFFSET + SECTOR_SIZE <= |cells|
    requires OnProbation(OtaState(ota, cells)) && !b.faults.loadFails && b.faults.storeFails
    ensures var left, next := ota.decode(b.faults.torn), AfterBoot(ota, cells, b);
      && OtaState(ota, next) == left
      && (NeverActs(ota, next) <==> !OnProbation(left))
      && (!OnProbation(left) ==> FollowsStable(ota, Actions(ota, next, later), later, left))
  {
    hide AfterBoot, ActionOf, FollowsStable, NeverActs;
    OneBoot(ota, cells, b);
    NeverActsIff(ota, AfterBoot(ota, cells, b), b);
    if !OnProbation(ota.decode(b.faults.torn)) {
      StableForever(ota, AfterBoot(ota, cells, b), later);
    }
  }

  /** In particular, contents that cannot be decoded end probation the wrong way: no rollback is ever
      selected, and slot A is booted from then on even if B was the stable slot. */
  lemma TornStoreForgetsStableSlot(ota: OtaCrate, cells: seq<byte>, b: BootInputs, later: seq<BootInputs>, s0: OtaData)
    requires Contract(ota) && OTADATA_OFFSET + SECTOR_SIZE <= |cells|
    requires OtaState(ota, cells) == Some(s0) && s0.pending.Some? && !b.faults.loadFails
    requires b.faults.storeFails && ota.decode(b.faults.torn) == None
    ensures forall i | 0 <= i < |later| :: Actions(ota, AfterBoot(ota, cells, b), later)[i] == Stable(A)
  {
    OneBoot(ota, cells, b);
    StableForever(ota, AfterBoot(ota, cells, b), later);
  }

  /** Losing every store in the same way, with the old contents left in place, disturbs nothing. */
  lemma {:induction false} LosesWithoutTrace(ota: OtaCrate, cells: seq<byte>, boots: seq<BootInputs>, s0: OtaData,
                                             f: OtaFaults)
    requires Contract(ota) && OTADATA_OFFSET + SECTOR_SIZE <= |cells| && OtaState(ota, cells) == Some(s0)
    requires f.storeFails && ota.decode(f.torn) == Some(s0)
    requires forall e | e in boots :: e.faults == f
    ensures Undisturbed(ota, cells, boots)
    decreases |boots|
  {
    hide Contract, AfterBoot, ActionOf;
    if boots == [] {
    } else {
      assert boots[0] in boots;
      OneBoot(ota, cells, boots[0]);
      LosesWithoutTrace(ota, AfterBoot(ota, cells, boots[0]), boots[1..], s0, f);
    }
  }
}
