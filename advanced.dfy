/** The real-time page (reversestring_advanced-MBA/script.js): every keystroke that leaves
    the input non-empty reverses it and reschedules one pending history commit; the commit
    fires after a quiet period unless a later keystroke replaced it. When the trimmed input
    is longer than three code units, the button or Enter cancels the pending commit and
    commits the trimmed text at once, unless it equals the last one committed. The timer
    path refuses a text equal to the last one committed, or one of three trimmed code units
    or fewer. Time is not modelled: the timer firing is an explicit event. */
module AdvancedPage {
  import opened Strings
  import opened History
  import opened Controls

  datatype Option<T> = None | Some(value: T)

  /** The arguments the pending timer callback closes over. */
  datatype Commit = Commit(original: JsString, reversed: JsString)

  /** The module-level state: `history`, `historyTimeout` (as the commit it would run, if
      any) and `lastAddedToHistory`. */
  datatype State = State(history: seq<Entry>, pending: Option<Commit>, lastAdded: JsString)

  /** Both commit paths need more than this many code units once trimmed. */
  const MinCommitLength: nat := 3

  /** Page load. */
  function Initial(): State
  {
    State([], None, [])
  }

  /** `addToHistory(original, reversed)` followed by `lastAddedToHistory = original`. */
  function Added(st: State, original: JsString, reversed: JsString, ts: Timestamp): State
  {
    st.(history := Push(st.history, Entry(original, reversed, ts)), lastAdded := original)
  }

  /** `addToHistoryWithDebounce`: clear the old timer and start a new one, so the slot
      holds exactly the newest arguments. */
  function Scheduled(st: State, original: JsString, reversed: JsString): State
  {
    st.(pending := Some(Commit(original, reversed)))
  }

  /** `executeRealTimeReverse`: an empty input returns early and schedules nothing (a commit
      already pending stays); otherwise the untrimmed input and its reversal are scheduled. */
  function RealTimeReversed(st: State, input: JsString): State
  {
    if |input| == 0 then st else Scheduled(st, input, Reverse(input))
  }

  /** The guard inside the timer callback, read when it fires. */
  predicate TimerAccepts(c: Commit, lastAdded: JsString)
  {
    |Trim(c.original)| > MinCommitLength && c.original != lastAdded
  }

  /** The pending callback runs: with nothing pending nothing happens; otherwise the slot is
      spent and the captured commit is recorded if the guard holds. */
  function Fired(st: State, ts: Timestamp): State
  {
    match st.pending
    case None => st
    case Some(c) =>
      var spent := st.(pending := None);
      if TimerAccepts(c, st.lastAdded) then Added(spent, c.original, c.reversed, ts) else spent
  }

  /** `manualAddToHistory`: trims the input; up to three code units nothing happens, not even
      the cancellation; otherwise the pending commit is cancelled and the trimmed text is
      recorded unless it equals the last one committed. */
  function ManuallyAdded(st: State, input: JsString, ts: Timestamp): State
  {
    var value := Trim(input);
    if |value| > MinCommitLength then
      var cancelled := st.(pending := None);
      if value != st.lastAdded then Added(cancelled, value, Reverse(value), ts) else cancelled
    else st
  }

  /** The keypress listener: Enter with more than three raw code units runs `manualAddToHistory`. */
  function KeyPressed(st: State, enter: bool, input: JsString, ts: Timestamp): State
  {
    if enter && |input| > ButtonThreshold then ManuallyAdded(st, input, ts) else st
  }

  /** What the page can be told: the input event, the debounce timer firing, a click on
      the reverse button, a keypress. */
  datatype Event =
    | Typed(value: JsString)
    | TimerFired(at: Timestamp)
    | ButtonClicked(value: JsString, at: Timestamp)
    | KeyPress(enter: bool, value: JsString, at: Timestamp)

  function Step(st: State, ev: Event): State
  {
    match ev
    case Typed(v) => RealTimeReversed(st, v)
    case TimerFired(ts) => Fired(st, ts)
    case ButtonClicked(v, ts) => ManuallyAdded(st, v, ts)
    case KeyPress(enter, v, ts) => KeyPressed(st, enter, v, ts)
  }

  /** The state after a sequence of events, first event first. */
  function Run(st: State, evs: seq<Event>): State
    decreases |evs|
  {
    if evs == [] then st else Run(Step(st, evs[0]), evs[1..])
  }

  /** A row either path can record: more than three code units once trimmed, beside its reversal. */
  predicate Committable(e: Entry)
  {
    |Trim(e.original)| > MinCommitLength && e.reversed == Reverse(e.original)
  }

  /** No two neighbouring rows carry the same text. */
  predicate NoRepeats(h: seq<Entry>)
  {
    forall i :: 0 <= i < |h| - 1 ==> h[i].original != h[i + 1].original
  }

  /** What every reachable history satisfies, together with `lastAdded`: within capacity,
      every row committable, `lastAdded` the text of the newest row (empty before the first
      commit), and no two neighbouring rows with the same text. */
  predicate HistoryInv(h: seq<Entry>, lastAdded: JsString)
  {
    && |h| <= MaxHistory
    && (h == [] ==> lastAdded == [])
    && (h != [] ==> h[0].original == lastAdded)
    && (forall i :: 0 <= i < |h| ==> Committable(h[i]))
    && NoRepeats(h)
  }

  /** A pending commit carries its input's reversal. */
  predicate PendingInv(p: Option<Commit>)
  {
    p.Some? ==> p.value.reversed == Reverse(p.value.original)
  }

  /** What every reachable state satisfies. */
  predicate Inv(st: State)
  {
    HistoryInv(st.history, st.lastAdded) && PendingInv(st.pending)
  }

  lemma {:induction false} PushKeepsCommittable(h: seq<Entry>, e: Entry)
    requires forall i :: 0 <= i < |h| ==> Committable(h[i])
    requires Committable(e)
    ensures var r := Push(h, e); forall i :: 0 <= i < |r| ==> Committable(r[i])
  {
    var r := Push(h, e);
    forall i | 0 < i < |r|
      ensures Committable(r[i])
    {
      assert r[i] == h[i - 1];
    }
  }

  lemma {:induction false} PushKeepsNoRepeats(h: seq<Entry>, e: Entry)
    requires NoRepeats(h)
    requires h != [] ==> e.original != h[0].original
    ensures NoRepeats(Push(h, e))
  {
    var r := Push(h, e);
    forall i | 0 <= i < |r| - 1
      ensures r[i].original != r[i + 1].original
    {
      assert r[i + 1] == h[i];
      if i > 0 {
        assert r[i] == h[i - 1];
      }
    }
  }

  lemma {:induction false} AddedPreservesInv(h: seq<Entry>, lastAdded: JsString, original: JsString, ts: Timestamp)
    requires HistoryInv(h, lastAdded)
    requires |Trim(original)| > MinCommitLength && original != lastAdded
    ensures HistoryInv(Push(h, Entry(original, Reverse(original), ts)), original)
  {
    var e := Entry(original, Reverse(original), ts);
    PushEvictsOnlyOldest(h, e);
    PushKeepsCommittable(h, e);
    PushKeepsNoRepeats(h, e);
  }

  lemma {:induction false} StepPreservesInv(st: State, ev: Event)
    requires Inv(st)
    ensures Inv(Step(st, ev))
  {
    match ev
    case Typed(v) =>
    case TimerFired(ts) =>
      FiredPreservesInv(st, ts);
    case ButtonClicked(v, ts) =>
      ManualPreservesInv(st, v, ts);
    case KeyPress(enter, v, ts) =>
      if enter && |v| > ButtonThreshold {
        ManualPreservesInv(st, v, ts);
      }
  }

  lemma {:induction false} FiredPreservesInv(st: State, ts: Timestamp)
    requires Inv(st)
    ensures Inv(Fired(st, ts))
  {
    if st.pending.Some? && TimerAccepts(st.pending.value, st.lastAdded) {
      AddedPreservesInv(st.history, st.lastAdded, st.pending.value.original, ts);
    }
  }

  lemma {:induction false} ManualPreservesInv(st: State, input: JsString, ts: Timestamp)
    requires Inv(st)
    ensures Inv(ManuallyAdded(st, input, ts))
  {
    var value := Trim(input);
    if |value| > MinCommitLength && value != st.lastAdded {
      TrimIdempotent(input);
      AddedPreservesInv(st.history, st.lastAdded, value, ts);
    }
  }

  /** Every event sequence keeps the invariant: in particular the history never exceeds
      `MaxHistory` rows and never shows the same text twice in a row, however the two
      commit paths interleave. */
  lemma {:induction false} RunPreservesInv(st: State, evs: seq<Event>)
    requires Inv(st)
    ensures Inv(Run(st, evs))
    decreases |evs|
  {
    if evs != [] {
      StepPreservesInv(st, evs[0]);
      RunPreservesInv(Step(st, evs[0]), evs[1..]);
    }
  }

  lemma {:induction false} ReachableStatesAreValid(evs: seq<Event>)
    ensures Inv(Run(Initial(), evs))
  {
    RunPreservesInv(Initial(), evs);
  }

  lemma {:induction false} RunAppend(st: State, a: seq<Event>, b: seq<Event>)
    ensures Run(st, a + b) == Run(Run(st, a), b)
    decreases |a|
  {
    if a != [] {
      assert (a + b)[0] == a[0];
      assert (a + b)[1..] == a[1..] + b;
      RunAppend(Step(st, a[0]), a[1..], b);
    } else {
      assert a + b == b;
    }
  }

  /** Typing only (each keystroke leaving a non-empty input) changes nothing but the pending
      slot, which afterwards holds the last input and its reversal: each reschedule replaces
      the one before. */
  lemma {:induction false} TypingReschedules(st: State, evs: seq<Event>)
    requires evs != []
    requires forall i :: 0 <= i < |evs| ==> evs[i].Typed? && evs[i].value != []
    ensures var last := evs[|evs| - 1].value;
            Run(st, evs) == st.(pending := Some(Commit(last, Reverse(last))))
    decreases |evs|
  {
    var next := Step(st, evs[0]);
    if |evs| > 1 {
      TypingReschedules(next, evs[1..]);
      assert evs[1..][|evs| - 2] == evs[|evs| - 1];
      assert next.(pending := Some(Commit(evs[|evs| - 1].value, Reverse(evs[|evs| - 1].value))))
          == st.(pending := Some(Commit(evs[|evs| - 1].value, Reverse(evs[|evs| - 1].value))));
    }
  }

  /** Debounce: after a burst of typing and one quiet period only the final input can be
      recorded; it is, as one row beside its reversal, when it passes the guard, and
      otherwise the history is unchanged. */
  lemma {:induction false} OnlyLatestInputCommits(st: State, evs: seq<Event>, ts: Timestamp)
    requires evs != []
    requires forall i :: 0 <= i < |evs| ==> evs[i].Typed? && evs[i].value != []
    ensures var last := evs[|evs| - 1].value;
            var after := Run(st, evs + [TimerFired(ts)]);
            && after.pending == None
            && (TimerAccepts(Commit(last, Reverse(last)), st.lastAdded) ==>
                  after.history == Push(st.history, Entry(last, Reverse(last), ts))
                  && after.lastAdded == last)
            && (!TimerAccepts(Commit(last, Reverse(last)), st.lastAdded) ==>
                  after.history == st.history && after.lastAdded == st.lastAdded)
  {
    RunAppend(st, evs, [TimerFired(ts)]);
    TypingReschedules(st, evs);
  }

  /** Typing `a`, then `b` before the quiet period ends, then the timer firing records only
      `b` (when `b` passes the guard). */
  lemma {:induction false} SupersededInputIsDropped(st: State, a: JsString, b: JsString, ts: Timestamp)
    requires a != [] && b != []
    requires |Trim(b)| > MinCommitLength && b != st.lastAdded
    ensures Run(st, [Typed(a), Typed(b), TimerFired(ts)]).history
            == Push(st.history, Entry(b, Reverse(b), ts))
  {
    OnlyLatestInputCommits(st, [Typed(a), Typed(b)], ts);
    assert [Typed(a), Typed(b)] + [TimerFired(ts)] == [Typed(a), Typed(b), TimerFired(ts)];
  }

  /** Clearing the input does not cancel the pending commit: typing `s`, deleting it all
      and waiting still records `s`. */
  lemma {:induction false} ClearingKeepsPendingCommit(st: State, s: JsString, ts: Timestamp)
    requires |Trim(s)| > MinCommitLength && s != st.lastAdded
    ensures Run(st, [Typed(s), Typed([]), TimerFired(ts)]).history
            == Push(st.history, Entry(s, Reverse(s), ts))
  {
    RunThree(st, Typed(s), Typed([]), TimerFired(ts));
  }

  /** An input event with an empty value schedules nothing and keeps what was pending; any
      other value, whitespace included, replaces the pending commit by the untrimmed value
      and its reversal. The history and `lastAdded` are untouched. */
  lemma RealTimeSchedulesUntrimmed(st: State, input: JsString)
    ensures input == [] ==> RealTimeReversed(st, input) == st
    ensures input != [] ==>
              var after := RealTimeReversed(st, input);
              && after.pending == Some(Commit(input, Reverse(input)))
              && after.history == st.history && after.lastAdded == st.lastAdded
  {
  }

  /** When the pending commit fires, the history gains one row (and `lastAdded` follows)
      exactly when the trimmed text is longer than three code units and differs from the
      last committed text; otherwise only the spent timer is gone. */
  lemma FiredCommitsOnGuard(st: State, c: Commit, ts: Timestamp)
    requires st.pending == Some(c)
    ensures Fired(st, ts).pending == None
    ensures TimerAccepts(c, st.lastAdded) ==>
              Fired(st, ts).history == Push(st.history, Entry(c.original, c.reversed, ts))
              && Fired(st, ts).lastAdded == c.original
    ensures !TimerAccepts(c, st.lastAdded) ==>
              Fired(st, ts).history == st.history && Fired(st, ts).lastAdded == st.lastAdded
  {
  }

  /** The manual path: up to three trimmed code units it changes nothing, the pending commit
      included; beyond that it always clears the pending commit and records the trimmed text
      exactly when it differs from the last one committed. */
  lemma {:induction false} ManualCommitCancelsPending(st: State, input: JsString, ts: Timestamp)
    ensures |Trim(input)| <= MinCommitLength ==> ManuallyAdded(st, input, ts) == st
    ensures |Trim(input)| > MinCommitLength ==>
              var after := ManuallyAdded(st, input, ts);
              && after.pending == None
              && (Trim(input) != st.lastAdded ==>
                    after.history == Push(st.history, Entry(Trim(input), Reverse(Trim(input)), ts))
                    && after.lastAdded == Trim(input))
              && (Trim(input) == st.lastAdded ==>
                    after.history == st.history && after.lastAdded == st.lastAdded)
  {
  }

  /** No double commit of the text just recorded: in a reachable state, neither the timer
      carrying the newest row's text nor a manual commit whose trimmed input is that text
      adds a row. */
  lemma {:induction false} RepeatIsSuppressed(st: State, input: JsString, ts: Timestamp)
    requires Inv(st) && st.history != []
    ensures st.pending == Some(Commit(st.history[0].original, st.history[0].reversed)) ==>
              Fired(st, ts).history == st.history
    ensures Trim(input) == st.history[0].original ==>
              ManuallyAdded(st, input, ts).history == st.history
  {
  }

  /** Enter is honoured exactly when the button is visible; other keys never change the state. */
  lemma {:induction false} EnterMatchesButton(st: State, input: JsString, ts: Timestamp)
    ensures ButtonVisible(input) ==> KeyPressed(st, true, input, ts) == ManuallyAdded(st, input, ts)
    ensures !ButtonVisible(input) ==> KeyPressed(st, true, input, ts) == st
    ensures KeyPressed(st, false, input, ts) == st
  {
  }

  /** "hello", and "hello" with a trailing space. */
  const Hello: JsString := [0x68, 0x65, 0x6C, 0x6C, 0x6F]
  const HelloSpace: JsString := Hello + [0x20]

  /** "hello " is such an input: trimming drops its space and leaves five code units. */
  lemma TrimHelloSpace()
    ensures Trim(HelloSpace) == Hello != HelloSpace && |Hello| > MinCommitLength
  {
    assert TrimStart(HelloSpace) == HelloSpace;
    assert HelloSpace[..|HelloSpace| - 1] == Hello;
    assert TrimEnd(Hello) == Hello;
  }

  /** Suppression compares exact strings, and the timer path keeps the untrimmed input while
      the manual path trims it: for any input with surrounding whitespace (such as "hello ",
      see `TrimHelloSpace`) the timer records the input as typed and a click afterwards
      records its trimmed text as a second row. */
  lemma {:induction false} PaddedInputCommitsTwice(padded: JsString, t1: Timestamp, t2: Timestamp)
    requires |Trim(padded)| > MinCommitLength && Trim(padded) != padded
    ensures var word := Trim(padded);
            Run(Initial(), [Typed(padded), TimerFired(t1), ButtonClicked(padded, t2)]).history
            == [Entry(word, Reverse(word), t2), Entry(padded, Reverse(padded), t1)]
  {
    var word := Trim(padded);
    RunThree(Initial(), Typed(padded), TimerFired(t1), ButtonClicked(padded, t2));
    var s1 := Step(Initial(), Typed(padded));
    assert s1 == State([], Some(Commit(padded, Reverse(padded))), []);
    var s2 := Step(s1, TimerFired(t1));
    assert s2 == State([Entry(padded, Reverse(padded), t1)], None, padded);
    var s3 := Step(s2, ButtonClicked(padded, t2));
    assert s3.history == Push(s2.history, Entry(word, Reverse(word), t2));
  }

  /** Unfolds a run of three events. */
  lemma {:induction false} RunThree(st: State, a: Event, b: Event, c: Event)
    ensures Run(st, [a, b, c]) == Step(Step(Step(st, a), b), c)
  {
    var s1 := Step(st, a);
    var s2 := Step(s1, b);
    assert [a, b, c][1..] == [b, c];
    assert Run(st, [a, b, c]) == Run(s1, [b, c]);
    assert [b, c][1..] == [c];
    assert Run(s1, [b, c]) == Run(s2, [c]);
    assert [c][1..] == [];
    assert Run(s2, [c]) == Run(Step(s2, c), []);
  }

  /** The page, with its three module-level variables as fields. */
  class Page {
    var history: seq<Entry>
    var pending: Option<Commit>
    var lastAdded: JsString

    /** The state as the step functions see it. */
    function Snapshot(): State
      reads this
    {
      State(history, pending, lastAdded)
    }

    ghost predicate Valid()
      reads this
    {
      |history| <= MaxHistory
    }

    constructor ()
      ensures Valid() && Inv(Snapshot())
      ensures Snapshot() == Initial()
    {
      history, pending, lastAdded := [], None, [];
    }

    /** `addToHistory`: unshift the new row, and pop the oldest once the list is too long;
        the timer and `lastAddedToHistory` are untouched. */
    method AddToHistory(original: JsString, reversed: JsString, ts: Timestamp)
      requires Valid()
      modifies this
      ensures Valid()
      ensures history == Push(old(history), Entry(original, reversed, ts))
      ensures pending == old(pending) && lastAdded == old(lastAdded)
    {
      history := [Entry(original, reversed, ts)] + history;
      if |history| > MaxHistory {
        history := history[..|history| - 1];
      }
    }

    /** `addToHistoryWithDebounce`: the new commit replaces whatever was pending. */
    method AddToHistoryWithDebounce(original: JsString, reversed: JsString)
      requires Valid()
      modifies this
      ensures Valid()
      ensures Snapshot() == Scheduled(old(Snapshot()), original, reversed)
    {
      pending := Some(Commit(original, reversed));
    }

    /** `executeRealTimeReverse` on the current input. */
    method ExecuteRealTimeReverse(input: JsString)
      requires Valid()
      modifies this
      ensures Valid()
      ensures Snapshot() == RealTimeReversed(old(Snapshot()), input)
      ensures Inv(old(Snapshot())) ==> Inv(Snapshot())
    {
      if |input| == 0 {
        return;
      }
      var reversed := Reverse(input);
      AddToHistoryWithDebounce(input, reversed);
    }

    /** The debounce timer's callback, run once the quiet period is over. */
    method FireTimer(ts: Timestamp)
      requires Valid()
      modifies this
      ensures Valid()
      ensures Snapshot() == Fired(old(Snapshot()), ts)
      ensures Inv(old(Snapshot())) ==> Inv(Snapshot())
    {
      ghost var before := Snapshot();
      if pending.Some? {
        var c := pending.value;
        pending := None;
        if |Trim(c.original)| > MinCommitLength && c.original != lastAdded {
          AddToHistory(c.original, c.reversed, ts);
          lastAdded := c.original;
        }
      }
      if Inv(before) {
        FiredPreservesInv(before, ts);
      }
    }

    /** `manualAddToHistory`, run by the reverse button. */
    method ManualAddToHistory(input: JsString, ts: Timestamp)
      requires Valid()
      modifies this
      ensures Valid()
      ensures Snapshot() == ManuallyAdded(old(Snapshot()), input, ts)
      ensures Inv(old(Snapshot())) ==> Inv(Snapshot())
    {
      ghost var before := Snapshot();
      var value := Trim(input);
      if |value| > MinCommitLength {
        var reversed := Reverse(value);
        pending := None;
        if value != lastAdded {
          AddToHistory(value, reversed, ts);
          lastAdded := value;
        }
      }
      if Inv(before) {
        ManualPreservesInv(before, input, ts);
      }
    }

    /** The keypress listener: Enter with more than three raw code units commits manually. */
    method OnKeyPress(enter: bool, input: JsString, ts: Timestamp)
      requires Valid()
      modifies this
      ensures Valid()
      ensures Snapshot() == KeyPressed(old(Snapshot()), enter, input, ts)
      ensures Inv(old(Snapshot())) ==> Inv(Snapshot())
    {
      if enter && |input| > ButtonThreshold {
        ManualAddToHistory(input, ts);
      }
    }
  }
}
