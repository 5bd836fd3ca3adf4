/** The connectivity watcher `net_watch` of `gui.py`, as a state machine.
    The watcher probes the network over and over. Failed probes raise
    `fail_count` and set the waiting flag that holds back new fetches; at
    three failures it counts down through ten more probes, and when all of
    them fail it asks the user whether to retry or cancel. A retry probes
    once more and asks again while the network stays down. The probes, the
    user's answers and the user's cancel button are the events; sleeping and
    the progress texts are not modelled. */
module NetWatch {

  const Threshold: nat := 3
  const CountdownProbes: nat := 10

  /** Where the watcher's code is: the main loop, the countdown loop with
      the probes still to go, waiting for the dialog's answer, the probe
      after a retry, or finished. */
  datatype Phase = Monitoring | Countdown(left: nat) | Dialog | Reprobe | Stopped

  /** The watcher's variables and the flags it shares with the run. */
  datatype Watch = Watch(phase: Phase, failCount: nat, waiting: bool, retryMode: bool,
                         cancel: bool, cancelledByUser: bool)

  /** A probe's outcome, the dialog's answer, or the cancel button. */
  datatype Event = Probe(online: bool) | Answer(retry: bool) | UserCancel

  /** The state when the run starts: all flags cleared. */
  const Start: Watch := Watch(Monitoring, 0, false, false, false, false)

  /** One step of the watcher. An event that does not fit the phase (an
      answer with no dialog open, a probe while the dialog is open, anything
      after the watcher stopped) changes nothing. */
  function Step(w: Watch, e: Event): Watch
  {
    match e
    case UserCancel =>
      if w.phase.Monitoring? || w.phase.Countdown? then w.(cancel := true, phase := Stopped)
      else w.(cancel := true)
    case Probe(online) =>
      (match w.phase
       case Monitoring =>
         if online then w.(failCount := 0, waiting := false, retryMode := false)
         else
           var fc := w.failCount + 1;
           if w.retryMode || fc < Threshold then w.(failCount := fc, waiting := true)
           else w.(failCount := fc, waiting := true, phase := Countdown(CountdownProbes))
       case Countdown(c) =>
         if online then w.(failCount := 0, waiting := false, retryMode := false, phase := Monitoring)
         else if c > 1 then w.(phase := Countdown(c - 1))
         else w.(phase := Dialog)
       case Reprobe =>
         if online then
           w.(failCount := 0, waiting := false, retryMode := false,
              phase := if w.cancel then Stopped else Monitoring)
         else w.(phase := if w.cancel then Stopped else Dialog)
       case _ => w)
    case Answer(retry) =>
      if !w.phase.Dialog? then w
      else if retry then w.(retryMode := true, failCount := 0, phase := Reprobe)
      else w.(cancelledByUser := true, cancel := true, phase := Stopped)
  }

  /** The state after a sequence of events. */
  function Run(w: Watch, events: seq<Event>): Watch
  {
    if events == [] then w else Step(Run(w, events[..|events| - 1]), events[|events| - 1])
  }

  /** What holds in every state the watcher reaches. In the main loop the
      waiting flag is set exactly when a failure has been counted, fewer than
      three failures are counted and retry mode is off; the countdown runs
      with three failures counted; retry mode is on only around the dialog. */
  ghost predicate Inv(w: Watch)
  {
    (w.cancelledByUser ==> w.cancel) &&
    match w.phase
    case Monitoring =>
      !w.cancel && !w.retryMode && w.failCount < Threshold && (w.waiting <==> w.failCount > 0)
    case Countdown(c) =>
      !w.cancel && !w.retryMode && 1 <= c <= CountdownProbes && w.waiting && w.failCount == Threshold
    case Dialog =>
      !w.cancelledByUser && w.waiting && (if w.retryMode then w.failCount == 0 else w.failCount == Threshold)
    case Reprobe =>
      !w.cancelledByUser && w.waiting && w.retryMode && w.failCount == 0
    case Stopped =>
      w.cancel
  }

  lemma StartInv()
    ensures Inv(Start)
  {
  }

  /** Every step keeps the invariant; the cancel flag, once set, stays set,
      and a stopped watcher stays stopped. */
  lemma StepInv(w: Watch, e: Event)
    requires Inv(w)
    ensures Inv(Step(w, e))
    ensures w.cancel ==> Step(w, e).cancel
    ensures w.phase.Stopped? ==> Step(w, e) == w
  {
  }

  lemma {:induction false} RunInv(w: Watch, events: seq<Event>)
    requires Inv(w)
    ensures Inv(Run(w, events))
    ensures w.cancel ==> Run(w, events).cancel
  {
    if events != [] {
      RunInv(w, events[..|events| - 1]);
      StepInv(Run(w, events[..|events| - 1]), events[|events| - 1]);
    }
  }

  lemma {:induction false} RunAppend(w: Watch, a: seq<Event>, b: seq<Event>)
    ensures Run(w, a + b) == Run(Run(w, a), b)
  {
    if b == [] {
      assert a + b == a;
    } else {
      assert (a + b)[..|a + b| - 1] == a + b[..|b| - 1];
      RunAppend(w, a, b[..|b| - 1]);
    }
  }

  /** Retry mode is on only while the dialog is involved, so the main
      loop's retry-mode branch is never taken from a reachable state. */
  lemma RetryModeOnlyAtDialog(events: seq<Event>)
    ensures var w := Run(Start, events);
      w.retryMode ==> w.phase.Dialog? || w.phase.Reprobe? || w.phase.Stopped?
  {
    RunInv(Start, events);
  }

  /** An online probe in the main loop, the countdown or after a retry
      clears the failure count, the waiting flag and retry mode. */
  lemma OnlineResets(w: Watch)
    requires Inv(w) && (w.phase.Monitoring? || w.phase.Countdown? || w.phase.Reprobe?)
    ensures var w' := Step(w, Probe(true));
      w'.failCount == 0 && !w'.waiting && !w'.retryMode &&
      (w'.phase.Monitoring? || (w.cancel && w'.phase.Stopped?))
  {
  }

  /** An offline probe in the main loop counts one more failure and sets
      the waiting flag; the third one starts the countdown. */
  lemma OfflineCounts(w: Watch)
    requires Inv(w) && w.phase.Monitoring?
    ensures var w' := Step(w, Probe(false));
      w'.failCount == w.failCount + 1 && w'.waiting &&
      (w'.phase == Countdown(CountdownProbes) <==> w.failCount + 1 == Threshold) &&
      (w'.phase.Monitoring? <==> w.failCount + 1 < Threshold)
  {
  }

  /** The dialog opens only at the end of a failed countdown, outside
      retry mode, or again after a retry whose probe failed. */
  lemma DialogEntry(w: Watch, e: Event)
    requires Inv(w) && !w.phase.Dialog? && Step(w, e).phase.Dialog?
    ensures (w.phase == Countdown(1) && e == Probe(false) && !w.retryMode && w.failCount == Threshold) ||
            (w.phase.Reprobe? && e == Probe(false) && w.retryMode)
  {
  }

  /** `n` failed probes. */
  function Offline(n: nat): (evs: seq<Event>)
    ensures |evs| == n && forall i :: 0 <= i < n ==> evs[i] == Probe(false)
  {
    seq(n, _ => Probe(false))
  }

  /** From the start of a run, three failed probes start the countdown and
      ten more open the dialog, with the waiting flag set all along. */
  lemma {:induction false} EscalationTimeline()
    ensures Run(Start, Offline(1)).phase.Monitoring? && Run(Start, Offline(1)).waiting
    ensures Run(Start, Offline(2)).phase.Monitoring?
    ensures Run(Start, Offline(3)).phase == Countdown(CountdownProbes)
    ensures Run(Start, Offline(3 + CountdownProbes)).phase.Dialog?
  {
    OfflineStep(Start, 0);
    OfflineStep(Start, 1);
    OfflineStep(Start, 2);
    var w3 := Run(Start, Offline(3));
    RunAppend(Start, Offline(3), Offline(CountdownProbes));
    assert Offline(3) + Offline(CountdownProbes) == Offline(3 + CountdownProbes);
    CountdownExhausts(w3, CountdownProbes);
  }

  lemma OfflineStep(w: Watch, n: nat)
    ensures Run(w, Offline(n + 1)) == Step(Run(w, Offline(n)), Probe(false))
  {
    assert Offline(n + 1)[..n] == Offline(n);
  }

  /** A countdown with `c` probes to go opens the dialog after `c` failed
      probes. */
  lemma {:induction false} CountdownExhausts(w: Watch, c: nat)
    requires Inv(w) && w.phase == Countdown(c)
    ensures Run(w, Offline(c)).phase.Dialog?
    ensures Run(w, Offline(c)).failCount == w.failCount
    decreases c
  {
    if c == 1 {
      OfflineStep(w, 0);
    } else {
      var w' := Step(w, Probe(false));
      assert w'.phase == Countdown(c - 1);
      CountdownExhausts(w', c - 1);
      assert [Probe(false)] + Offline(c - 1) == Offline(c);
      RunAppend(w, [Probe(false)], Offline(c - 1));
      assert Run(w, [Probe(false)]) == w' by { assert [Probe(false)][..0] == []; }
    }
  }

  /** A probe that succeeds during the countdown returns to the main loop
      with the failure count cleared. */
  lemma {:induction false} CountdownRecovers(w: Watch, c: nat, k: nat)
    requires Inv(w) && w.phase == Countdown(c) && k < c
    ensures var w' := Run(w, Offline(k) + [Probe(true)]);
      w'.phase.Monitoring? && w'.failCount == 0 && !w'.waiting
  {
    CountdownAfter(w, c, k);
    RunAppend(w, Offline(k), [Probe(true)]);
    assert [Probe(true)][..0] == [];
  }

  lemma {:induction false} CountdownAfter(w: Watch, c: nat, k: nat)
    requires Inv(w) && w.phase == Countdown(c) && k < c
    ensures Run(w, Offline(k)) == w.(phase := Countdown(c - k))
  {
    if k > 0 {
      CountdownAfter(w, c, k - 1);
      OfflineStep(w, k - 1);
    }
  }

  /** The dialog's answers: cancelling stops the run and records that the
      user cancelled; retrying turns retry mode on with the count cleared,
      and a successful probe then turns it off again. */
  lemma Answers(w: Watch)
    requires Inv(w) && w.phase.Dialog?
    ensures var c := Step(w, Answer(false));
      c.cancel && c.cancelledByUser && c.phase.Stopped?
    ensures var r := Step(w, Answer(true));
      r.retryMode && r.failCount == 0 && r.phase.Reprobe? &&
      !Step(r, Probe(true)).retryMode && !Step(r, Probe(true)).waiting
  {
  }

  /** `net_watch`, driven by a sequence of events: the loop that carries
      the watcher's variables from one event to the next. */
  method NetWatch(events: seq<Event>) returns (w: Watch)
    ensures w == Run(Start, events)
    ensures Inv(w)
  {
    var phase := Monitoring;
    var failCount: nat := 0;
    var waiting, retryMode, cancel, cancelledByUser := false, false, false, false;
    for i := 0 to |events|
      invariant Watch(phase, failCount, waiting, retryMode, cancel, cancelledByUser) == Run(Start, events[..i])
    {
      assert events[..i + 1][..i] == events[..i];
      match events[i] {
        case UserCancel =>
          cancel := true;
          if phase.Monitoring? || phase.Countdown? {
            phase := Stopped;
          }
        case Probe(online) =>
          if phase.Monitoring? {
            if online {
              waiting, retryMode, failCount := false, false, 0;
            } else {
              failCount := failCount + 1;
              waiting := true;
              if !retryMode && failCount >= Threshold {
                phase := Countdown(CountdownProbes);
              }
            }
          } else if phase.Countdown? {
            if online {
              waiting, retryMode, failCount := false, false, 0;
              phase := Monitoring;
            } else if phase.left > 1 {
              phase := Countdown(phase.left - 1);
            } else {
              phase := Dialog;
            }
          } else if phase.Reprobe? {
            if online {
              waiting, retryMode, failCount := false, false, 0;
            }
            phase := if cancel then Stopped else if online then Monitoring else Dialog;
          }
        case Answer(retry) =>
          if phase.Dialog? {
            if retry {
              retryMode, failCount := true, 0;
              phase := Reprobe;
            } else {
              cancelledByUser, cancel := true, true;
              phase := Stopped;
            }
          }
      }
    }
    assert events[..|events|] == events;
    w := Watch(phase, failCount, waiting, retryMode, cancel, cancelledByUser);
    RunInv(Start, events);
  }

  // ------------------------------------------------------------ a watcher that outlives its run

  /** A watcher's own variables. */
  datatype Local = Local(phase: Phase, failCount: nat)

  /** The flags every watcher shares through the application object. */
  datatype Flags = Flags(waiting: bool, retryMode: bool, cancel: bool, cancelledByUser: bool)

  function View(l: Local, f: Flags): Watch
  {
    Watch(l.phase, l.failCount, f.waiting, f.retryMode, f.cancel, f.cancelledByUser)
  }

  function LocalOf(w: Watch): Local
  {
    Local(w.phase, w.failCount)
  }

  function FlagsOf(w: Watch): Flags
  {
    Flags(w.waiting, w.retryMode, w.cancel, w.cancelledByUser)
  }

  /** The watcher of an earlier run that is still going, the watcher of the
      current run, and the flags they share. */
  datatype Pair = Pair(earlier: Local, current: Local, flags: Flags)

  /** An event for the earlier watcher (`toEarlier`) or for the current one.
      The cancel button is not addressed to either: it sets the shared flag
      and both watchers see it. */
  datatype Routed = Routed(toEarlier: bool, e: Event)

  /** A watcher in the main loop or the countdown leaves on the cancel flag. */
  function Halt(l: Local): Local
  {
    if l.phase.Monitoring? || l.phase.Countdown? then l.(phase := Stopped) else l
  }

  function PairStep(p: Pair, t: Routed): Pair
  {
    if t.e.UserCancel? then Pair(Halt(p.earlier), Halt(p.current), p.flags.(cancel := true))
    else if t.toEarlier then
      var w := Step(View(p.earlier, p.flags), t.e);
      Pair(LocalOf(w), p.current, FlagsOf(w))
    else
      var w := Step(View(p.current, p.flags), t.e);
      Pair(p.earlier, LocalOf(w), FlagsOf(w))
  }

  function PairRun(p: Pair, ts: seq<Routed>): Pair
  {
    if ts == [] then p else PairStep(PairRun(p, ts[..|ts| - 1]), ts[|ts| - 1])
  }

  /** A new run starts while the watcher `earlier` of the previous run goes
      on: the new watcher is at the start of its main loop and the shared
      flags are cleared. */
  function NextRun(earlier: Watch): Pair
  {
    Pair(LocalOf(earlier), LocalOf(Start), FlagsOf(Start))
  }

  /** A watcher of a finished run that lost the network, asked, was told to
      retry and is probing again: retry mode on, the count cleared. */
  function Retrying(): Watch
  {
    Run(Start, Offline(Threshold + CountdownProbes) + [Answer(true)])
  }

  /** As written, a run that ends without cancel leaves its watcher running.
      Suppose that watcher is retrying when the next run starts, its probe
      fails and it asks again. Answering "retry" then puts retry mode on
      under the new watcher's main loop, a state no single watcher reaches,
      so three failed probes no longer start the new watcher's countdown.
      Answering "cancel" cancels the new run, although its own watcher asked
      nothing. */
  lemma LingeringDialog()
    ensures var p := PairStep(PairStep(NextRun(Retrying()), Routed(true, Probe(false))), Routed(true, Answer(true)));
      var cur := View(p.current, p.flags);
      cur.phase.Monitoring? && cur.retryMode && !Inv(cur) &&
      Run(cur, Offline(Threshold)).phase.Monitoring?
    ensures var p := PairStep(PairStep(NextRun(Retrying()), Routed(true, Probe(false))), Routed(true, Answer(false)));
      p.current.phase.Monitoring? && p.flags.cancel && p.flags.cancelledByUser && !Inv(View(p.current, p.flags))
  {
    RetryingState();
    var p := PairStep(PairStep(NextRun(Retrying()), Routed(true, Probe(false))), Routed(true, Answer(true)));
    var cur := View(p.current, p.flags);
    assert cur == Watch(Monitoring, 0, false, true, false, false);
    OfflineStep(cur, 0);
    OfflineStep(cur, 1);
    OfflineStep(cur, 2);
  }

  lemma RetryingState()
    ensures Retrying().phase.Reprobe? && Retrying().retryMode && !Retrying().cancel
  {
    var evs := Offline(Threshold + CountdownProbes);
    EscalationTimeline();
    OfflineKeepsCancel(Start, Threshold + CountdownProbes);
    RunInv(Start, evs);
    RunAppend(Start, evs, [Answer(true)]);
    assert [Answer(true)][..0] == [];
  }

  /** Probes never raise the cancel flag. */
  lemma {:induction false} OfflineKeepsCancel(w: Watch, n: nat)
    ensures Run(w, Offline(n)).cancel == w.cancel
  {
    if n > 0 {
      OfflineStep(w, n - 1);
      OfflineKeepsCancel(w, n - 1);
    }
  }

  /** The events that reach the current watcher: its own and the cancel
      button. */
  function Own(ts: seq<Routed>): seq<Event>
  {
    if ts == [] then []
    else
      var t := ts[|ts| - 1];
      Own(ts[..|ts| - 1]) + (if t.toEarlier && !t.e.UserCancel? then [] else [t.e])
  }

  /** When each watcher ends with its run, the earlier watcher is stopped:
      whatever happens afterwards, it changes nothing, and the current watcher
      runs exactly as a single watcher would on its own events, so its
      invariant holds and its main loop never sees retry mode. */
  lemma {:induction false} StoppedWatcherInert(earlier: Local, ts: seq<Routed>)
    requires earlier.phase.Stopped?
    ensures var p := PairRun(Pair(earlier, LocalOf(Start), FlagsOf(Start)), ts);
      p.earlier == earlier && View(p.current, p.flags) == Run(Start, Own(ts)) &&
      Inv(View(p.current, p.flags))
  {
    var p0 := Pair(earlier, LocalOf(Start), FlagsOf(Start));
    if ts == [] {
      assert View(p0.current, p0.flags) == Start;
    } else {
      var init, t := ts[..|ts| - 1], ts[|ts| - 1];
      StoppedWatcherInert(earlier, init);
      var p := PairRun(p0, init);
      var w := Run(Start, Own(init));
      assert View(p.current, p.flags) == w;
      PairStepStopped(p, t);
      assert PairRun(p0, ts) == PairStep(p, t);
      if t.toEarlier && !t.e.UserCancel? {
        assert Own(ts) == Own(init) + [] == Own(init);
        assert View(PairStep(p, t).current, PairStep(p, t).flags) == w;
      } else {
        assert Own(ts) == Own(init) + [t.e];
        RunAppend(Start, Own(init), [t.e]);
        assert [t.e][..0] == [];
        assert Run(w, [t.e]) == Step(w, t.e);
        assert View(PairStep(p, t).current, PairStep(p, t).flags) == Step(w, t.e);
      }
    }
    RunInv(Start, Own(ts));
  }

  /** One step beside a stopped earlier watcher: the earlier watcher stays as
      it is, and the current one takes the step exactly when the event is its
      own or the cancel button. */
  lemma PairStepStopped(p: Pair, t: Routed)
    requires p.earlier.phase.Stopped?
    ensures PairStep(p, t).earlier == p.earlier
    ensures View(PairStep(p, t).current, PairStep(p, t).flags) ==
      if t.toEarlier && !t.e.UserCancel? then View(p.current, p.flags)
      else Step(View(p.current, p.flags), t.e)
  {
  }
}
