/**
 * The persisted timer configuration as a small state machine: an in-memory
 * latest snapshot, a pending snapshot waiting for the next flush, an
 * in-flight write flag, and the snapshot handed to consumers once loading
 * has finished. File access and schema validation are inputs.
 */
module TimersPersist {
  import opened Wrappers
  import opened StageValueCodec

  /** A timer's run state. */
  datatype TimerRunState =
    | Stopped
    | Running(endDate: int)
    | Paused(secondsLeft: int)

  datatype TimerContext = TimerContext(warning: StageValue, alert: StageValue, state: TimerRunState)
  datatype DurationContext = DurationContext(okay: StageValue, warning: StageValue, alert: StageValue, state: TimerRunState)
  datatype ClockContext = ClockContext(warning: StageValue, alert: StageValue)

  /** The whole persisted snapshot. */
  datatype StoredData = StoredData(timer: TimerContext, duration: DurationContext, clock: ClockContext)

  /** An `update` call: one section of the snapshot, replaced whole. */
  datatype Update =
    | TimerUpdate(timerPayload: TimerContext)
    | DurationUpdate(durationPayload: DurationContext)
    | ClockUpdate(clockPayload: ClockContext)

  const DefaultData := StoredData(
    TimerContext([0, 0, 4], [0, 0, 5], Stopped),
    DurationContext([0, 0, 5], [0, 0, 1], [0], Stopped),
    ClockContext(NullValue, NullValue))

  /**
   * `latest` is what the next update builds on, `pending` waits for the
   * flush, `inflight` blocks overlapping writes, and `data` is what
   * consumers see (None until the first load finishes).
   */
  datatype Store = Store(latest: StoredData, pending: Option<StoredData>, inflight: bool, data: Option<StoredData>)

  const InitialStore := Store(DefaultData, None, false, None)

  /** `update`: replace the named section of the latest snapshot and mark it pending. */
  function ApplyUpdate(st: Store, u: Update): (r: Store)
    ensures r.pending == Some(r.latest)
    ensures r.inflight == st.inflight && r.data == st.data
    ensures u.TimerUpdate? ==> r.latest == st.latest.(timer := u.timerPayload)
    ensures u.DurationUpdate? ==> r.latest == st.latest.(duration := u.durationPayload)
    ensures u.ClockUpdate? ==> r.latest == st.latest.(clock := u.clockPayload)
  {
    var latest := match u
      case TimerUpdate(p) => st.latest.(timer := p)
      case DurationUpdate(p) => st.latest.(duration := p)
      case ClockUpdate(p) => st.latest.(clock := p);
    st.(latest := latest, pending := Some(latest))
  }

  /** The store after a flush tick, and the snapshot written by it, if any. */
  datatype Flush = Flush(store: Store, written: Option<StoredData>)

  /**
   * One tick of the flush interval: skipped while a write is in flight or
   * when nothing is pending; otherwise the pending snapshot is written,
   * pending is cleared and a write is in flight.
   */
  function FlushTick(st: Store): (r: Flush)
    ensures st.inflight || st.pending.None? ==> r == Flush(st, None)
    ensures !st.inflight && st.pending.Some? ==>
      r.written == st.pending && r.store == st.(pending := None, inflight := true)
  {
    if st.inflight then Flush(st, None)
    else if st.pending.None? then Flush(st, None)
    else Flush(st.(pending := None, inflight := true), st.pending)
  }

  /** The write settles, successfully or not: another write may start. */
  function WriteSettled(st: Store, succeeded: bool): (r: Store)
    ensures !r.inflight
    ensures r.(inflight := st.inflight) == st
  {
    st.(inflight := false)
  }

  /** What parsing and schema validation of the file's text gave. */
  datatype ParseResult = Parsed(value: StoredData) | Rejected

  /** What reading the storage file gave. */
  datatype ReadOutcome = FileMissing | ReadFailed | FileRead(parse: ParseResult)

  /** The snapshot loading settles on: the validated file, else the defaults. */
  function LoadedData(outcome: ReadOutcome): (r: StoredData)
    ensures outcome.FileRead? && outcome.parse.Parsed? ==> r == outcome.parse.value
    ensures !(outcome.FileRead? && outcome.parse.Parsed?) ==> r == DefaultData
  {
    match outcome
    case FileMissing => DefaultData
    case ReadFailed => DefaultData
    case FileRead(Parsed(v)) => v
    case FileRead(Rejected) => DefaultData
  }

  /**
   * The load effect finishing: unless cancelled, the loaded snapshot becomes
   * both the latest and the consumers' data. Pending and in-flight are untouched.
   */
  function LoadFinished(st: Store, outcome: ReadOutcome, cancelled: bool): (r: Store)
    ensures cancelled ==> r == st
    ensures !cancelled ==> r.latest == LoadedData(outcome) && r.data == Some(LoadedData(outcome))
    ensures r.pending == st.pending && r.inflight == st.inflight
  {
    if cancelled then st
    else
      var parsed := LoadedData(outcome);
      st.(latest := parsed, data := Some(parsed))
  }

  /** The provider's value: the snapshot, once there is one; children render only then. */
  function ProviderValue(st: Store): Option<StoredData> {
    st.data
  }

  /** Several updates in turn. */
  function ApplyUpdates(st: Store, us: seq<Update>): Store
    decreases |us|
  {
    if |us| == 0 then st else ApplyUpdate(ApplyUpdates(st, us[..|us| - 1]), us[|us| - 1])
  }

  /** Updates never change the in-flight flag nor what consumers see. */
  lemma {:induction false} UpdatesKeepFlagsAndData(st: Store, us: seq<Update>)
    ensures ApplyUpdates(st, us).inflight == st.inflight
    ensures ApplyUpdates(st, us).data == st.data
    decreases |us|
  {
    if |us| > 0 {
      UpdatesKeepFlagsAndData(st, us[..|us| - 1]);
    }
  }

  /**
   * Coalescing: after any number of updates between two ticks, the next
   * tick (with no write in flight) writes exactly the latest snapshot, and
   * a tick right after it writes nothing.
   */
  lemma {:induction false} OnlyLastSnapshotIsWritten(st: Store, us: seq<Update>)
    requires |us| > 0 && !st.inflight
    ensures var after := ApplyUpdates(st, us);
      && FlushTick(after).written == Some(after.latest)
      && FlushTick(FlushTick(after).store).written.None?
  {
    UpdatesKeepFlagsAndData(st, us[..|us| - 1]);
  }

  /** The later of two updates to the same section wins. */
  lemma LaterUpdateWins(st: Store, a: TimerContext, b: TimerContext)
    ensures ApplyUpdates(st, [TimerUpdate(a), TimerUpdate(b)]).latest.timer == b
  {
    assert [TimerUpdate(a), TimerUpdate(b)][..1] == [TimerUpdate(a)];
    assert [TimerUpdate(a)][..0] == [];
  }

  /** A finished write lets the next pending snapshot through. */
  lemma WriteSettledUnblocks(st: Store, succeeded: bool)
    requires st.pending.Some?
    ensures FlushTick(WriteSettled(st, succeeded)).written == st.pending
  {
  }

  /** Nothing renders before loading, and a finished load makes the store ready for good. */
  lemma ReadinessOnlyAfterLoad(outcome: ReadOutcome, us: seq<Update>, succeeded: bool)
    ensures ProviderValue(InitialStore).None?
    ensures ProviderValue(ApplyUpdates(InitialStore, us)).None?
    ensures var loaded := LoadFinished(InitialStore, outcome, false);
      && ProviderValue(loaded) == Some(LoadedData(outcome))
      && ProviderValue(ApplyUpdates(loaded, us)) == Some(LoadedData(outcome))
      && ProviderValue(FlushTick(loaded).store) == Some(LoadedData(outcome))
      && ProviderValue(WriteSettled(loaded, succeeded)) == Some(LoadedData(outcome))
  {
    UpdatesKeepFlagsAndData(InitialStore, us);
    UpdatesKeepFlagsAndData(LoadFinished(InitialStore, outcome, false), us);
  }
}
