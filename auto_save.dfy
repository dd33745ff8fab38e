/**
 * The autosave debouncer (`useAutoSave`): one pending slot holding the latest
 * `(id, body)`, one debounce timer, and the `saveMemo` calls it has issued.
 * `save` overwrites the slot and re-arms the timer; the timer callback and
 * `flush` take the slot, clear it and write it. The delay itself is not
 * modelled: the timer elapsing is the `TimerFired` event.
 *
 * `State`, `Step` and `Run` are the specification; the class `AutoSaver`
 * holds the hook's refs as fields, and each of its methods is proved to make
 * exactly the step `Step` describes.
 */
module AutoSave {

  import opened Wrappers

  /** The entry `pendingRef` holds and the arguments of one `saveMemo` call. */
  datatype Entry = Entry(id: string, body: string)

  /** `pendingRef`, whether `timerRef` holds a live timeout, and the `saveMemo` calls issued so far. */
  datatype State = State(pending: Option<Entry>, timerArmed: bool, writes: seq<Entry>)

  /** What can happen to the hook: a `save` call, the timeout elapsing, a `flush` call, unmounting. */
  datatype Event = Saved(id: string, body: string) | TimerFired | Flushed | Unmounted

  const Initial: State := State(None, false, [])

  /** Take the slot, clear it, and write what it held (nothing when it is empty). */
  function TakePending(s: State): State {
    match s.pending
    case None => s
    case Some(e) => s.(pending := None, writes := s.writes + [e])
  }

  function Step(s: State, e: Event): State {
    match e
    case Saved(id, body) => s.(pending := Some(Entry(id, body)), timerArmed := true)
    case TimerFired => if s.timerArmed then TakePending(s.(timerArmed := false)) else s
    case Flushed => TakePending(s.(timerArmed := false))
    case Unmounted => s.(timerArmed := false)
  }

  /** The state after the events `es`, in order. */
  function Run(s: State, es: seq<Event>): State
    decreases |es|
  {
    if es == [] then s else Step(Run(s, es[..|es| - 1]), es[|es| - 1])
  }

  /** The entry of the last `save` among `es`. */
  function LastSave(es: seq<Event>): Option<Entry>
    decreases |es|
  {
    if es == [] then None
    else if es[|es| - 1].Saved? then Some(Entry(es[|es| - 1].id, es[|es| - 1].body))
    else LastSave(es[..|es| - 1])
  }

  function SaveCount(es: seq<Event>): nat
    decreases |es|
  {
    if es == [] then 0 else SaveCount(es[..|es| - 1]) + (if es[|es| - 1].Saved? then 1 else 0)
  }

  function PendingCount(s: State): nat {
    if s.pending.Some? then 1 else 0
  }

  /**
   * The latest save wins: the slot always holds the entry of the last `save`,
   * and once the slot is empty again the last write made is that entry.
   */
  lemma {:induction false} LatestSaveWins(es: seq<Event>)
    ensures var s := Run(Initial, es);
      && (s.pending.Some? ==> s.pending == LastSave(es))
      && (s.pending.None? && LastSave(es).Some? ==> s.writes != [] && s.writes[|s.writes| - 1] == LastSave(es).value)
    decreases |es|
  {
    if es != [] {
      LatestSaveWins(es[..|es| - 1]);
    }
  }

  /** A `flush` writes the latest saved entry last, whenever anything was ever saved. */
  lemma {:induction false} FlushWritesLatest(es: seq<Event>)
    requires LastSave(es).Some?
    ensures var w := Run(Initial, es + [Flushed]).writes;
      w != [] && w[|w| - 1] == LastSave(es).value
  {
    LatestSaveWins(es);
    assert (es + [Flushed])[..|es|] == es;
  }

  /** While mounted, a pending entry always has a timer armed to write it. */
  lemma {:induction false} PendingHasTimer(es: seq<Event>)
    requires forall i :: 0 <= i < |es| ==> es[i] != Unmounted
    ensures Run(Initial, es).pending.Some? ==> Run(Initial, es).timerArmed
    decreases |es|
  {
    if es != [] {
      PendingHasTimer(es[..|es| - 1]);
    }
  }

  /** Every write carries an entry some `save` call was given: nothing is invented. */
  lemma {:induction false} WritesWereSaved(es: seq<Event>)
    ensures var s := Run(Initial, es);
      forall k :: 0 <= k < |s.writes| ==> Saved(s.writes[k].id, s.writes[k].body) in es
    ensures var s := Run(Initial, es);
      s.pending.Some? ==> Saved(s.pending.value.id, s.pending.value.body) in es
    decreases |es|
  {
    if es != [] {
      var prefix := es[..|es| - 1];
      WritesWereSaved(prefix);
      assert forall e :: e in prefix ==> e in es;
    }
  }

  /** Coalescing: writes plus the pending entry never outnumber the `save` calls. */
  lemma {:induction false} WritesAtMostSaves(es: seq<Event>)
    ensures |Run(Initial, es).writes| + PendingCount(Run(Initial, es)) <= SaveCount(es)
    decreases |es|
  {
    if es != [] {
      WritesAtMostSaves(es[..|es| - 1]);
    }
  }

  /** Two saves and then the timer: one write, of the second save; the first body is never written. */
  lemma {:induction false} TwoSavesThenTimer(s: State, a: Entry, b: Entry)
    ensures Run(s, [Saved(a.id, a.body), Saved(b.id, b.body), TimerFired]).writes == s.writes + [b]
  {
    var es := [Saved(a.id, a.body), Saved(b.id, b.body), TimerFired];
    var afterFirst := Step(s, Saved(a.id, a.body));
    assert Run(s, es[..1]) == afterFirst by {
      assert es[..1][..0] == [];
    }
    assert Run(s, es[..2]) == Step(afterFirst, Saved(b.id, b.body)) by {
      assert es[..2][..1] == es[..1];
    }
  }

  /** The timer disarms itself; it writes the slot's entry once if there is one, otherwise nothing. */
  lemma {:induction false} TimerEffect(s: State)
    requires s.timerArmed
    ensures var t := Step(s, TimerFired);
      && !t.timerArmed && t.pending.None?
      && t.writes == s.writes + (if s.pending.Some? then [s.pending.value] else [])
  {
  }

  /** `flush` leaves no timer and an empty slot, and writes exactly once iff the slot was full. */
  lemma {:induction false} FlushEffect(s: State)
    ensures var t := Step(s, Flushed);
      && !t.timerArmed && t.pending.None?
      && |t.writes| == |s.writes| + PendingCount(s)
      && t.writes[..|s.writes|] == s.writes
      && (s.pending.Some? ==> t.writes[|s.writes|] == s.pending.value)
  {
  }

  /** The timer can no longer write after a `flush` with no `save` in between. */
  lemma {:induction false} TimerAfterFlushWritesNothing(s: State)
    ensures Run(s, [Flushed, TimerFired]) == Run(s, [Flushed])
  {
    assert [Flushed, TimerFired][..1] == [Flushed];
  }

  /** Unmounting cancels the timer and keeps the entry unwritten: it is dropped. */
  lemma {:induction false} UnmountDropsPending(s: State)
    ensures Run(s, [Unmounted, TimerFired]) == s.(timerArmed := false)
  {
    assert [Unmounted, TimerFired][..1] == [Unmounted];
  }

  /** What `saveMemo` did with a write: resolved, or rejected with a message. */
  datatype SaveResult = SaveOk | SaveFailed(message: string)

  /** How the promise `flush` returns settles. */
  datatype FlushOutcome = Resolved | Rejected(message: string)

  /** The hook's refs and the calls issued, updated in place by its callbacks. */
  class AutoSaver {
    var pending: Option<Entry>
    var timerArmed: bool
    var writes: seq<Entry>

    function Snapshot(): State
      reads this
    {
      State(pending, timerArmed, writes)
    }

    constructor ()
      ensures Snapshot() == Initial
    {
      pending := None;
      timerArmed := false;
      writes := [];
    }

    /** `save(id, body)`: overwrite the slot, whatever it held, and re-arm the timer. */
    method Save(id: string, body: string)
      modifies this
      ensures pending == Some(Entry(id, body)) && timerArmed && writes == old(writes)
      ensures Snapshot() == Step(old(Snapshot()), Saved(id, body))
    {
      pending := Some(Entry(id, body));
      // the hook cancels the pending timeout (`clearTimeout`) before setting a
      // new one (`setTimeout`); only the second step is visible in the state
      if timerArmed {
        timerArmed := false;
      }
      timerArmed := true;
    }

    /** The timeout callback, run when the armed timer elapses; nothing runs when none is armed. */
    method Fire()
      modifies this
      ensures !timerArmed
      ensures old(timerArmed) && old(pending).Some? ==> pending.None? && writes == old(writes) + [old(pending).value]
      ensures !(old(timerArmed) && old(pending).Some?) ==> pending == old(pending) && writes == old(writes)
      ensures Snapshot() == Step(old(Snapshot()), TimerFired)
    {
      if timerArmed {
        timerArmed := false;
        if pending.Some? {
          var e := pending.value;
          pending := None;
          writes := writes + [e];
        }
      }
    }

    /**
     * `flush()`: cancel the timer, then take the slot and write it. The slot is
     * cleared before the write is issued, so a failed write is not retried; its
     * failure rejects the returned promise.
     */
    method Flush(saveResult: SaveResult) returns (outcome: FlushOutcome)
      modifies this
      ensures !timerArmed && pending.None?
      ensures writes == old(writes) + (if old(pending).Some? then [old(pending).value] else [])
      ensures outcome == (if old(pending).Some? && saveResult.SaveFailed? then Rejected(saveResult.message) else Resolved)
      ensures Snapshot() == Step(old(Snapshot()), Flushed)
    {
      if timerArmed {
        timerArmed := false;
      }
      outcome := Resolved;
      if pending.Some? {
        var e := pending.value;
        pending := None;
        writes := writes + [e];
        if saveResult.SaveFailed? {
          outcome := Rejected(saveResult.message);
        }
      }
    }

    /** The effect cleanup on unmount: cancel the timer; the slot is left as it is and not written. */
    method Unmount()
      modifies this
      ensures !timerArmed && pending == old(pending) && writes == old(writes)
      ensures Snapshot() == Step(old(Snapshot()), Unmounted)
    {
      if timerArmed {
        timerArmed := false;
      }
    }
  }

  /** `save("a", "v1")`, `save("a", "v2")`, then the timeout: one write, of "v2". */
  method CoalescedSaves() returns (written: seq<Entry>)
    ensures written == [Entry("a", "v2")]
  {
    var saver := new AutoSaver();
    saver.Save("a", "v1");
    saver.Save("a", "v2");
    saver.Fire();
    written := saver.writes;
  }

  /** `save("a", "v1")` then `flush()`: the write happens in the flush, and the timer adds none. */
  method FlushBeforeTimer() returns (written: seq<Entry>, outcome: FlushOutcome)
    ensures written == [Entry("a", "v1")] && outcome == Resolved
  {
    var saver := new AutoSaver();
    saver.Save("a", "v1");
    outcome := saver.Flush(SaveOk);
    saver.Fire();
    written := saver.writes;
  }
}
