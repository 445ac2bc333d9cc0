/** The capture state machine of `tracker/capture/detector.py`.

    `Classify` is `PollingLoop._compute_next_state` together with the
    `try/except` that surrounds it: the detector's three predicates are
    uninterpreted inputs (`Probes`), each of which either answers or raises when
    consulted. `Step` is one `_tick` followed by `_detect_and_transition`: it
    takes the loop's record `(state, present)` and what the outside world
    showed on this tick, and returns the new record together with the callbacks
    fired, in firing order. Threads, the lock, the sleep and `stop()` are not
    modelled; one tick is one sequential step. */
module Detector {
  import opened Wrappers
  import Json

  datatype CombatState = Idle | PreQueue | InCombat | EndScreen {

    /** The `.value` of the Python enum member, as `get_capture_status` reports it. */
    function Name(): string
    {
      match this
      case Idle => "idle"
      case PreQueue => "pre_queue"
      case InCombat => "in_combat"
      case EndScreen => "end_screen"
    }
  }

  /** What one detector predicate does when it is called on the frame. */
  datatype Probe = Answer(holds: bool) | Raises

  /** `is_pre_queue_ranked`, `is_in_combat` and `is_end_screen` on this tick's frame. */
  datatype Probes = Probes(preQueue: Probe, inCombat: Probe, endScreen: Probe)

  // ---------------------------------------------------------------------------
  // The transition function
  // ---------------------------------------------------------------------------

  /** The next state, or `None` when a predicate the transition consults raised.
      Each state consults only the predicates its rules mention, in rule order:
      from PRE_QUEUE the in-combat test comes first and the pre-queue test is
      asked only when it fails. */
  function Classify(current: CombatState, p: Probes): Option<CombatState>
  {
    match current
    case Idle =>
      (match p.preQueue
       case Raises => None
       case Answer(pre) => Some(if pre then PreQueue else Idle))
    case PreQueue =>
      (match p.inCombat
       case Raises => None
       case Answer(fighting) =>
         if fighting then Some(InCombat)
         else
           (match p.preQueue
            case Raises => None
            case Answer(pre) => Some(if pre then PreQueue else Idle)))
    case InCombat =>
      (match p.endScreen
       case Raises => None
       case Answer(ended) => Some(if ended then EndScreen else InCombat))
    case EndScreen =>
      (match p.endScreen
       case Raises => None
       case Answer(ended) => Some(if ended then EndScreen else Idle))
  }

  // ---------------------------------------------------------------------------
  // The transition table, as an independent reference
  // ---------------------------------------------------------------------------

  /** Three answers, one per predicate. */
  datatype Verdicts = Verdicts(preQueue: bool, inCombat: bool, endScreen: bool)

  function Answers(v: Verdicts): Probes
  {
    Probes(Answer(v.preQueue), Answer(v.inCombat), Answer(v.endScreen))
  }

  datatype Condition = PreQueueShown | PreQueueGone | InCombatShown | EndScreenShown | EndScreenGone | Always

  predicate Meets(v: Verdicts, c: Condition)
  {
    match c
    case PreQueueShown => v.preQueue
    case PreQueueGone => !v.preQueue
    case InCombatShown => v.inCombat
    case EndScreenShown => v.endScreen
    case EndScreenGone => !v.endScreen
    case Always => true
  }

  datatype Rule = Rule(from: CombatState, when: Condition, to: CombatState)

  /** The rules of the machine, tried top to bottom; the first rule whose
      `from` is the current state and whose condition holds decides. */
  const Rules: seq<Rule> := [
    Rule(Idle, PreQueueShown, PreQueue),
    Rule(PreQueue, InCombatShown, InCombat),
    Rule(PreQueue, PreQueueGone, Idle),
    Rule(InCombat, EndScreenShown, EndScreen),
    Rule(EndScreen, EndScreenGone, Idle),
    Rule(Idle, Always, Idle),
    Rule(PreQueue, Always, PreQueue),
    Rule(InCombat, Always, InCombat),
    Rule(EndScreen, Always, EndScreen)
  ]

  /** The target of the first applicable rule, if any. */
  function FirstRule(rules: seq<Rule>, current: CombatState, v: Verdicts): Option<CombatState>
  {
    if |rules| == 0 then None
    else if rules[0].from == current && Meets(v, rules[0].when) then Some(rules[0].to)
    else FirstRule(rules[1..], current, v)
  }

  /** The transition function is total and deterministic and agrees with the
      rule table: whenever every predicate answers, the next state is the
      target of the first applicable rule. */
  lemma {:induction false} ClassifyFollowsRules(current: CombatState, v: Verdicts)
    ensures Classify(current, Answers(v)).Some?
    ensures Classify(current, Answers(v)) == FirstRule(Rules, current, v)
  {
    var r0 := Rules;
    var r1 := r0[1..];
    var r2 := r1[1..];
    var r3 := r2[1..];
    var r4 := r3[1..];
    var r5 := r4[1..];
    var r6 := r5[1..];
    var r7 := r6[1..];
    var r8 := r7[1..];
    assert r8 == [Rule(EndScreen, Always, EndScreen)];
    ghost var unfolded := [FirstRule(r0, current, v), FirstRule(r1, current, v), FirstRule(r2, current, v),
      FirstRule(r3, current, v), FirstRule(r4, current, v), FirstRule(r5, current, v),
      FirstRule(r6, current, v), FirstRule(r7, current, v), FirstRule(r8, current, v)];
  }

  /** The predicates a state does not consult cannot influence the outcome,
      even when they would raise: IDLE asks only about the pre-queue screen,
      IN_COMBAT and END_SCREEN only about the end screen, and PRE_QUEUE asks
      about the pre-queue screen only once the in-combat test has failed. */
  lemma {:induction false} ClassifyConsultsOnly(current: CombatState, p: Probes, q: Probes)
    ensures current == Idle && p.preQueue == q.preQueue ==> Classify(current, p) == Classify(current, q)
    ensures current == PreQueue && p.inCombat == q.inCombat == Answer(true) ==> Classify(current, p) == Some(InCombat)
    ensures current == PreQueue && p.inCombat == q.inCombat && p.preQueue == q.preQueue ==> Classify(current, p) == Classify(current, q)
    ensures (current == InCombat || current == EndScreen) && p.endScreen == q.endScreen ==> Classify(current, p) == Classify(current, q)
  {
  }

  /** A change of state always follows one of the machine's edges; in
      particular END_SCREEN is entered only from IN_COMBAT, never straight from
      IDLE or PRE_QUEUE. */
  predicate Edge(from: CombatState, to: CombatState)
  {
    (from == Idle && to == PreQueue)
    || (from == PreQueue && (to == InCombat || to == Idle))
    || (from == InCombat && to == EndScreen)
    || (from == EndScreen && to == Idle)
  }

  lemma {:induction false} ChangesFollowEdges(current: CombatState, p: Probes)
    ensures Classify(current, p).Some? && Classify(current, p).value != current ==> Edge(current, Classify(current, p).value)
    ensures Classify(current, p) == Some(EndScreen) ==> current == InCombat || current == EndScreen
  {
  }

  /** Iterating the transition on frames that all answer alike. */
  function Iterate(s: CombatState, v: Verdicts, n: nat): CombatState
    decreases n
  {
    if n == 0 then s else Iterate(Classify(s, Answers(v)).GetOr(s), v, n - 1)
  }

  /** Unchanging detector answers settle the machine within three transitions,
      so a run of identical frames fires at most three `on_state_changed`
      callbacks and none after that. */
  lemma {:induction false} SteadyFramesSettle(s: CombatState, v: Verdicts)
    ensures Classify(Iterate(s, v, 3), Answers(v)) == Some(Iterate(s, v, 3))
  {
    var a := Answers(v);
    var s1 := Classify(s, a).GetOr(s);
    var s2 := Classify(s1, a).GetOr(s1);
    var s3 := Classify(s2, a).GetOr(s2);
    assert Iterate(s2, v, 1) == Iterate(s3, v, 0);
    assert Iterate(s, v, 3) == s3;
  }

  // ---------------------------------------------------------------------------
  // One tick of the polling loop
  // ---------------------------------------------------------------------------

  /** The loop's guarded fields `_state` and `_mumu_detected`. */
  datatype Loop = Loop(state: CombatState, present: bool)

  /** The record a freshly constructed `PollingLoop` holds. */
  const Start: Loop := Loop(Idle, false)

  /** Everything one tick observes: whether `find_mumu_window` found the
      window, whether a config and a detector were injected, the
      `mumu_region` value the config returned, whether `capture_region_pil`
      produced a frame, and what the predicates do on that frame. */
  datatype Observation = Observation(
    windowFound: bool,
    hasConfig: bool,
    hasDetector: bool,
    region: Json.Value,
    frameCaptured: bool,
    probes: Probes)

  /** The callbacks, in the order they fire. */
  datatype Event = WindowFound | WindowLost | StateChanged(prev: CombatState, next: CombatState)

  /** `_detect_and_transition`: skip when the region is falsy, when the capture
      failed or when a consulted predicate raised; otherwise move to the next
      state and report the change when there is one. */
  function DetectAndTransition(current: CombatState, o: Observation): (CombatState, seq<Event>)
  {
    if !Json.Truthy(o.region) || !o.frameCaptured then (current, [])
    else
      match Classify(current, o.probes)
      case None => (current, [])
      case Some(next) => if next != current then (next, [StateChanged(current, next)]) else (current, [])
  }

  /** `_tick`: presence edge detection, the forced reset on loss, then
      classification when the window is present and both a config and a
      detector are set. */
  function Step(l: Loop, o: Observation): (r: (Loop, seq<Event>))
    ensures r.0.present == o.windowFound
    ensures WindowFound in r.1 <==> o.windowFound && !l.present
    ensures WindowLost in r.1 <==> !o.windowFound && l.present
    ensures l.present && !o.windowFound ==> r == (Loop(Idle, false), [WindowLost])
    ensures !o.windowFound ==> r.0.state == (if l.present then Idle else l.state)
    ensures forall e :: e in r.1 && e.StateChanged? ==> e == StateChanged(l.state, r.0.state) && e.prev != e.next
    ensures o.windowFound && r.0.state != l.state ==> StateChanged(l.state, r.0.state) in r.1
    ensures |r.1| <= 2 && (|r.1| == 2 ==> r.1[0] == WindowFound && r.1[1].StateChanged?)
  {
    var presence :=
      if o.windowFound && !l.present then [WindowFound]
      else if !o.windowFound && l.present then [WindowLost]
      else [];
    var state := if !o.windowFound && l.present then Idle else l.state;
    if o.windowFound && o.hasConfig && o.hasDetector then
      var (next, changes) := DetectAndTransition(state, o);
      (Loop(next, true), presence + changes)
    else
      (Loop(state, o.windowFound), presence)
  }

  /** A tick that sees the window and has everything it needs to classify. */
  predicate Classifies(o: Observation)
  {
    o.windowFound && o.hasConfig && o.hasDetector && Json.Truthy(o.region) && o.frameCaptured
  }

  /** A missing config or detector, an absent window, a falsy region, a failed
      capture or a raising predicate leaves the state alone and fires no
      `on_state_changed`. */
  lemma {:induction false} SkippedTickKeepsState(l: Loop, o: Observation)
    requires o.windowFound
    requires !Classifies(o) || Classify(l.state, o.probes).None?
    ensures Step(l, o).0.state == l.state
    ensures forall e :: e in Step(l, o).1 ==> !e.StateChanged?
  {
  }

  /** When the tick classifies, the new state is the transition's result and
      `on_state_changed(prev, next)` fires exactly when it differs. */
  lemma {:induction false} ClassifyingTickTransitions(l: Loop, o: Observation)
    requires Classifies(o) && Classify(l.state, o.probes).Some?
    ensures Step(l, o).0.state == Classify(l.state, o.probes).value
    ensures StateChanged(l.state, Step(l, o).0.state) in Step(l, o).1 <==> Step(l, o).0.state != l.state
  {
  }

  /** Steady presence fires no presence callback. */
  lemma {:induction false} SteadyPresenceIsSilent(l: Loop, o: Observation)
    requires o.windowFound == l.present
    ensures WindowFound !in Step(l, o).1 && WindowLost !in Step(l, o).1
  {
  }

  /** While the window is absent the machine rests in IDLE. */
  ghost predicate Consistent(l: Loop)
  {
    !l.present ==> l.state == Idle
  }

  lemma {:induction false} StepKeepsConsistent(l: Loop, o: Observation)
    requires Consistent(l)
    ensures Consistent(Step(l, o).0)
  {
  }

  // ---------------------------------------------------------------------------
  // Runs of ticks
  // ---------------------------------------------------------------------------

  /** The loop after a sequence of ticks, with every callback fired on the way. */
  function Run(l: Loop, os: seq<Observation>): (Loop, seq<Event>)
    decreases |os|
  {
    if |os| == 0 then (l, [])
    else
      var (l', first) := Step(l, os[0]);
      var (last, rest) := Run(l', os[1..]);
      (last, first + rest)
  }

  /** Every run from a consistent record keeps it consistent; a run from `Start`
      in particular. */
  lemma {:induction false} RunKeepsConsistent(l: Loop, os: seq<Observation>)
    requires Consistent(l)
    ensures Consistent(Run(l, os).0)
    decreases |os|
  {
    if |os| > 0 {
      StepKeepsConsistent(l, os[0]);
      RunKeepsConsistent(Step(l, os[0]).0, os[1..]);
    }
  }

  /** Over any run, every reported change follows an edge of the machine, so
      every `on_state_changed(prev, END_SCREEN)` has `prev == IN_COMBAT`. */
  lemma {:induction false} RunChangesFollowEdges(l: Loop, os: seq<Observation>)
    ensures forall e :: e in Run(l, os).1 && e.StateChanged? ==> Edge(e.prev, e.next)
    ensures StateChanged(Idle, EndScreen) !in Run(l, os).1 && StateChanged(PreQueue, EndScreen) !in Run(l, os).1
    decreases |os|
  {
    if |os| > 0 {
      var (l', first) := Step(l, os[0]);
      forall e | e in first && e.StateChanged? ensures Edge(e.prev, e.next) {
        var o := os[0];
        var state := if !o.windowFound && l.present then Idle else l.state;
        ChangesFollowEdges(state, o.probes);
      }
      RunChangesFollowEdges(l', os[1..]);
    }
  }
}
