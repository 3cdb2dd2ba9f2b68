/** One boot from reset to the jump or the heartbeat loop (`src/main.rs`). */
module BootMachine {
  import opened Words
  import opened Memory
  import opened FlashDevice
  import opened AppImage
  import opened Verify
  import opened PartitionTable
  import opened SlotSelect
  import opened Rollback

  datatype Env = Env(ota: OtaCrate, sha: seq<byte> -> Digest)

  datatype BootEnd =
    | Started(part: PartitionEntry, header: ImageHeader, load: LoadTrace)
    | NoApp(reason: SlotSelectError)
    | HeaderRejected(headerError: AppLoadError)
    | HashRefused(hashError: VerifyError)
    | LoadRefused(hashed: bool, loadError: AppLoadError, load: LoadTrace)
    // The load wrote where the bootloader runs: what happens from then on is anyone's guess.
    | Overwritten(hashed: bool, load: LoadTrace)

  datatype Event =
    | SlotSelected
    | HeaderRead
    | HashAccepted
    | HashSkipped
    | SegmentsLoaded
    | WatchdogArmed
    | Jumped(entry: u32)
    // Nothing is said about what follows.
    | ControlLost
    | Tick(n: u32)

  // ----- where a boot ends, as a function of the chip -----

  function LoadStage(d: Dev, call: nat, part: PartitionEntry, h: ImageHeader): BootEnd {
    var t := LoadAt(d, call, part.offset, h);
    if HitsLoader(t) then Overwritten(h.hashAppended, t)
    else if t.end.Done? then Started(part, h, t)
    else LoadRefused(h.hashAppended, t.end.error, t)
  }

  function HashStage(sha: seq<byte> -> Digest, d: Dev, call: nat, part: PartitionEntry, h: ImageHeader): BootEnd
    requires |d.cells| < U32_MOD
  {
    if !h.hashAppended then LoadStage(d, call, part, h)
    else match VerifyAt(d, call, part.offset, h, sha)
      case Err(e) => HashRefused(e)
      case Ok(_) => LoadStage(d, call + VerifyCalls(d, call, part.offset, h), part, h)
  }

  function HeaderStage(sha: seq<byte> -> Digest, d: Dev, call: nat, part: PartitionEntry): BootEnd
    requires |d.cells| < U32_MOD
  {
    match HeaderAt(d, call, part.offset)
    case Err(e) => HeaderRejected(e)
    case Ok(h) => HashStage(sha, d, call + 1, part, h)
  }

  /** The chip after one boot wrote to it. */
  function ChipAfterBoot(env: Env, d: Dev, b: BootInputs): Dev {
    Dev(AfterBoot(env.ota, d.cells, b), d.status)
  }

  /** The end of a boot on the chip `d`, whose next ROM call is number `call`. */
  function BootFrom(env: Env, d: Dev, call: nat, b: BootInputs): BootEnd
    requires |d.cells| < U32_MOD
  {
    var picked := PickFrom(env.ota, Dev(AfterDiagnostics(d.cells, b), d.status), call, b.faults);
    match picked.result
    case Err(e) => NoApp(e)
    case Ok((part, _)) => HeaderStage(env.sha, ChipAfterBoot(env, d, b), call + picked.calls, part)
  }

  /** What reached memory, unless control was lost. */
  function LoadOf(end: BootEnd): LoadTrace {
    match end
    case Started(_, _, t) => t
    case LoadRefused(_, _, t) => t
    case _ => LoadTrace([], Done)
  }

  /** The first `n` heartbeats; the counter is a `u32`. */
  function Ticks(n: nat): (events: seq<Event>)
    ensures |events| == n && forall i | 0 <= i < n :: events[i] == Tick(i % 0x1_0000_0000)
  {
    seq(n, i requires 0 <= i < n => Tick(i % U32_MOD))
  }

  function HashEvent(checked: bool): Event {
    if checked then HashAccepted else HashSkipped
  }

  /** How far a boot got through its checks. */
  function Steps(end: BootEnd): seq<Event> {
    match end
    case NoApp(_) => []
    case HeaderRejected(_) => [SlotSelected]
    case HashRefused(_) => [SlotSelected, HeaderRead]
    case LoadRefused(hashed, _, _) => [SlotSelected, HeaderRead, HashEvent(hashed)]
    case Overwritten(hashed, _) => [SlotSelected, HeaderRead, HashEvent(hashed)]
    case Started(_, h, _) => [SlotSelected, HeaderRead, HashEvent(h.hashAppended)]
  }

  /** How it ends: with the jump, with the bootloader gone, or in the heartbeat loop. */
  function Finish(end: BootEnd, ticks: nat): seq<Event> {
    if end.Started? then [SegmentsLoaded, WatchdogArmed, Jumped(end.header.entryAddr)]
    else if end.Overwritten? then [ControlLost]
    else Ticks(ticks)
  }

  /** Everything a boot does, observed for `ticks` rounds of the heartbeat loop if it gets there. */
  function EventsOf(end: BootEnd, ticks: nat): seq<Event> {
    Steps(end) + Finish(end, ticks)
  }

  lemma TraceSplits(before: seq<Event>, a: seq<Event>, b: seq<Event>)
    ensures before + a + b == before + (a + b)
  {
  }

  lemma ApplyNothing(mem: seq<byte>)
    requires |mem| == U32_MOD
    ensures Apply(mem, []) == mem
  {
  }

  class Machine {
    const flash: Flash
    const ram: Ram
    var trace: seq<Event>

    constructor (flash: Flash, ram: Ram)
      ensures this.flash == flash && this.ram == ram && trace == []
    {
      this.flash, this.ram, trace := flash, ram, [];
    }

    /** `main`, from the diagnostic records on. */
    method Boot(env: Env, b: BootInputs, ticks: nat) returns (started: bool, ghost end: BootEnd)
      requires flash.Valid() && ram.Valid() && !ram.loaderHit
      modifies this, flash`calls, flash.cells, ram
      ensures ram.Valid() && ram.loaderHit == end.Overwritten?
      ensures flash.cells[..] == AfterBoot(env.ota, old(flash.cells[..]), b)
      ensures started == end.Started?
      ensures end == BootFrom(env, Dev(old(flash.cells[..]), flash.rom.status), old(flash.calls), b)
      ensures !end.Overwritten? ==> LoadEffect(old(ram.cells), ram.cells, LoadOf(end))
      ensures trace == old(trace) + EventsOf(end, ticks)
    {
      hide PickFrom, CellsAfterPick, HeaderStage;
      WriteSector(flash, BOOTLOG_OFFSET, b.bootlog);
      WriteSector(flash, BOOTSTAT_OFFSET, b.bootstat);
      var picked := Pick(flash, env.ota, b.faults);
      if picked.Err? {
        Heartbeat(ticks);
        return false, NoApp(picked.error);
      }
      var (part, _) := picked.value;
      started, end := BootPartition(env.sha, part, ticks);
    }

    /** Phases 4 and 5 of `main`. */
    method BootPartition(sha: seq<byte> -> Digest, part: PartitionEntry, ticks: nat)
      returns (started: bool, ghost end: BootEnd)
      requires flash.Valid() && ram.Valid() && !ram.loaderHit
      modifies this, flash`calls, ram
      ensures ram.Valid() && ram.loaderHit == end.Overwritten?
      ensures started == end.Started?
      ensures end == HeaderStage(sha, flash.View(), old(flash.calls), part)
      ensures !end.NoApp? && (!end.Overwritten? ==> LoadEffect(old(ram.cells), ram.cells, LoadOf(end)))
      ensures trace == old(trace) + EventsOf(end, ticks)
    {
      hide HeaderAt, VerifyAt, VerifyCalls, LoadAt, HitsLoader, Apply, Ticks;
      assert Apply(ram.cells, []) == ram.cells by { ApplyNothing(ram.cells); }
      ghost var before, noise := trace, Ticks(ticks);
      trace := trace + [SlotSelected];
      var header := ReadHeader(flash, part.offset);
      if header.Err? {
        Heartbeat(ticks);
        TraceSplits(before, [SlotSelected], noise);
        return false, HeaderRejected(header.error);
      }
      var h := header.value;
      trace := trace + [HeaderRead];
      TraceSplits(before, [SlotSelected], [HeaderRead]);
      assert trace == before + [SlotSelected, HeaderRead];
      if h.hashAppended {
        var verdict := VerifyAppSha256(flash, part.offset, h, sha);
        if verdict.Err? {
          Heartbeat(ticks);
          TraceSplits(before, [SlotSelected, HeaderRead], noise);
          return false, HashRefused(verdict.error);
        }
        trace := trace + [HashAccepted];
      } else {
        trace := trace + [HashSkipped];
      }
      assert trace == before + [SlotSelected, HeaderRead, HashEvent(h.hashAppended)];
      started, end := LoadAndJump(part, h, ticks);
      TraceSplits(before, Steps(end), Finish(end, ticks));
    }

    /** What `main` does once the hash check is passed or skipped. */
    method LoadAndJump(part: PartitionEntry, h: ImageHeader, ticks: nat) returns (started: bool, ghost end: BootEnd)
      requires flash.Valid() && ram.Valid() && !ram.loaderHit
      modifies this`trace, flash`calls, ram
      ensures ram.Valid() && ram.loaderHit == end.Overwritten?
      ensures started == end.Started?
      ensures end == LoadStage(flash.View(), old(flash.calls), part, h)
      ensures !end.Overwritten? ==> LoadEffect(old(ram.cells), ram.cells, LoadOf(end))
      ensures trace == old(trace) + Finish(end, ticks)
    {
      hide LoadAt, HitsLoader, Apply;
      ghost var t := LoadAt(flash.View(), flash.calls, part.offset, h);
      var loaded := LoadSegments(flash, part.offset, h, ram);
      if ram.loaderHit {
        trace := trace + [ControlLost];
        return false, Overwritten(h.hashAppended, t);
      }
      if loaded.Err? {
        Heartbeat(ticks);
        return false, LoadRefused(h.hashAppended, loaded.error, t);
      }
      trace := trace + [SegmentsLoaded];
      trace := trace + [WatchdogArmed];
      trace := trace + [Jumped(h.entryAddr)];
      return true, Started(part, h, t);
    }

    /** The loop at the end of every failed boot, for its first `rounds` rounds. */
    method Heartbeat(rounds: nat)
      modifies this`trace
      ensures trace == old(trace) + Ticks(rounds)
    {
      var tick: u32 := 0;
      for i := 0 to rounds
        invariant tick == i % U32_MOD
        invariant trace == old(trace) + Ticks(i)
      {
        trace := trace + [Tick(tick)];
        tick := WrapAdd(tick, 1);
      }
    }
  }
}
