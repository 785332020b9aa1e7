/**
 * The git event state machine (src/shared/GitWatcher.ts): the reaction to changes
 * of the repository state and the batches of files it scans.
 */
module GitWatcher {
  import opened Text
  import opened Characters

  datatype Snapshot = Snapshot(branch: string, commit: string)

  datatype Event =
    | BranchChanged(previousBranch: string, newBranch: string, isBaseBranch: bool)
    | Commit(previousCommit: string, newCommit: string, branch: string, isBaseBranch: bool)

  /** What the queries of one handler run come to: one of them fails, HEAD is detached, or a state is read. */
  datatype Answer =
    | Failure
    | Detached
    | State(branch: string, commit: string, baseBranch: Option<string>, listenerThrows: bool)

  /** What happens to the watcher: a file changes, or the handler that is in flight gets its answers. */
  datatype Happening = Trigger | Answered(answer: Answer)

  /**
   * The state of a started watcher. `emitted` lists the events handed to the listeners, and
   * `settled` those after which the new state was recorded, with a mark for each detachment.
   */
  datatype Core = Core(
    current: Option<Snapshot>, isProcessing: bool, defaultBranch: Option<string>, emitted: seq<Event>, settled: seq<Mark>)

  datatype Mark = Event(event: Event) | Detachment

  // ---------------------------------------------------------------- what the source says of one change

  /** The events that a newly read state calls for: none when nothing changed. */
  function EventsFor(current: Option<Snapshot>, next: Snapshot, isBaseBranch: bool): seq<Event> {
    match current
    case None => [Commit("", next.commit, next.branch, isBaseBranch)]
    case Some(was) =>
      if was.branch != next.branch then [BranchChanged(was.branch, next.branch, isBaseBranch)]
      else if was.commit != next.commit then [Commit(was.commit, next.commit, next.branch, isBaseBranch)]
      else []
  }

  /** The remembered default branch, or else the configured one, or else the one just read. */
  function DefaultBranch(remembered: Option<string>, override: Option<string>, read: Option<string>): Option<string> {
    if remembered.Some? && remembered.value != "" then remembered
    else if override.Some? && override.value != "" then override
    else read
  }

  function Step(core: Core, override: Option<string>, h: Happening): Core {
    match h
    case Trigger => core.(isProcessing := true)
    case Answered(answer) =>
      if !core.isProcessing then core else Finished(core, override, answer).(isProcessing := false)
  }

  function Finished(core: Core, override: Option<string>, answer: Answer): Core {
    match answer
    case Failure => core
    case Detached => core.(current := None, settled := core.settled + [Detachment])
    case State(branch, commit, baseBranch, listenerThrows) =>
      var defaultBranch := DefaultBranch(core.defaultBranch, override, baseBranch);
      if defaultBranch.None? then core
      else
        var known := core.(defaultBranch := defaultBranch);
        var next := Snapshot(branch, commit);
        var events := EventsFor(core.current, next, ToLowerCase(branch) == ToLowerCase(defaultBranch.value));
        if events == [] then known
        else if listenerThrows then known.(emitted := core.emitted + events)
        else known.(emitted := core.emitted + events, settled := core.settled + [Mark.Event(events[0])], current := Some(next))
  }

  // ---------------------------------------------------------------- the class

  class Watcher {
    var currentState: Option<Snapshot>
    var isProcessing: bool
    var defaultBranch: Option<string>
    const defaultBranchOverride: Option<string>
    var emitted: seq<Event>
    ghost var settled: seq<Mark>

    /** A watcher whose start has read `initial`, if HEAD was not detached. */
    constructor (initial: Option<Snapshot>, override: Option<string>)
      ensures TheCore() == Core(initial, false, None, [], []) && defaultBranchOverride == override
    {
      currentState := initial;
      isProcessing := false;
      defaultBranch := None;
      defaultBranchOverride := override;
      emitted := [];
      settled := [];
    }

    ghost function TheCore(): Core
      reads this
    {
      Core(currentState, isProcessing, defaultBranch, emitted, settled)
    }

    /** A change fires: a handler starts, unless one is already in flight. */
    method HandleGitChange() returns (started: bool)
      modifies this
      ensures TheCore() == Step(old(TheCore()), defaultBranchOverride, Trigger)
      ensures started == !old(isProcessing)
    {
      if isProcessing {
        return false;
      }
      isProcessing := true;
      return true;
    }

    method GetDefaultBranch(baseBranch: Option<string>) returns (branch: Option<string>)
      modifies this`defaultBranch
      ensures branch == DefaultBranch(old(defaultBranch), defaultBranchOverride, baseBranch)
      ensures defaultBranch == if branch.Some? then branch else old(defaultBranch)
    {
      if defaultBranch.Some? && defaultBranch.value != "" {
        return defaultBranch;
      }
      if defaultBranchOverride.Some? && defaultBranchOverride.value != "" {
        defaultBranch := defaultBranchOverride;
        return defaultBranch;
      }
      if baseBranch.Some? {
        defaultBranch := baseBranch;
      }
      return baseBranch;
    }

    /** The rest of the handler, once its queries are answered; the guard is released whatever they say. */
    method Finish(answer: Answer)
      requires isProcessing
      modifies this
      ensures TheCore() == Step(old(TheCore()), defaultBranchOverride, Answered(answer))
    {
      Process(answer);
      isProcessing := false;
    }

    method Process(answer: Answer)
      requires isProcessing
      modifies this
      ensures TheCore() == Finished(old(TheCore()), defaultBranchOverride, answer)
    {
      if answer.Failure? {
        return;
      }
      if answer.Detached? {
        currentState := None;
        settled := settled + [Detachment];
        return;
      }
      var newState := Snapshot(answer.branch, answer.commit);
      var known := GetDefaultBranch(answer.baseBranch);
      if known.None? {
        return;
      }
      var isBaseBranch := ToLowerCase(newState.branch) == ToLowerCase(known.value);
      var event: Event;
      if currentState.Some? {
        var branchChanged := currentState.value.branch != newState.branch;
        var commitChanged := currentState.value.commit != newState.commit;
        if !branchChanged && !commitChanged {
          return;
        }
        if branchChanged {
          event := BranchChanged(currentState.value.branch, newState.branch, isBaseBranch);
        } else {
          event := Commit(currentState.value.commit, newState.commit, newState.branch, isBaseBranch);
        }
      } else {
        event := Commit("", newState.commit, newState.branch, isBaseBranch);
      }
      emitted := emitted + [event];
      if answer.listenerThrows {
        return;
      }
      settled := settled + [Mark.Event(event)];
      currentState := Some(newState);
    }
  }

  // ---------------------------------------------------------------- runs

  /** A watcher and the number of its handlers that wait for answers. */
  datatype System = System(core: Core, inFlight: nat)

  /** Any trigger may come at any time; answers come to a handler that waits for them. */
  function Advance(s: System, override: Option<string>, h: Happening): System {
    match h
    case Trigger => System(Step(s.core, override, h), if s.core.isProcessing then s.inFlight else s.inFlight + 1)
    case Answered(_) => if s.inFlight == 0 then s else System(Step(s.core, override, h), s.inFlight - 1)
  }

  function Begin(initial: Option<Snapshot>): System {
    System(Core(initial, false, None, [], []), 0)
  }

  function Run(initial: Option<Snapshot>, override: Option<string>, hs: seq<Happening>): System {
    if hs == [] then Begin(initial)
    else Advance(Run(initial, override, hs[..|hs| - 1]), override, hs[|hs| - 1])
  }

  /** Whatever triggers come, at most one handler is in flight, exactly while the guard is set. */
  lemma {:induction false} AtMostOneHandler(initial: Option<Snapshot>, override: Option<string>, hs: seq<Happening>)
    ensures var s := Run(initial, override, hs); s.inFlight == if s.core.isProcessing then 1 else 0
  {
    if hs != [] { AtMostOneHandler(initial, override, hs[..|hs| - 1]); }
  }

  // ---------------------------------------------------------------- events form a chain

  function BranchOf(current: Option<Snapshot>): Option<string> {
    if current.Some? then Some(current.value.branch) else None
  }

  /** Whether an event may follow when `branch` is recorded: it starts from that branch, or from nothing. */
  predicate Follows(branch: Option<string>, event: Event) {
    match event
    case BranchChanged(previous, next, _) => branch == Some(previous) && previous != next
    case Commit(previous, _, on, _) => branch == Some(on) || (branch == None && previous == "")
  }

  predicate IsChain(branch: Option<string>, marks: seq<Mark>)
    decreases |marks|
  {
    marks == [] ||
    match marks[0]
    case Detachment => IsChain(None, marks[1..])
    case Event(event) => Follows(branch, event) && IsChain(Some(After(event)), marks[1..])
  }

  /** The branch an event ends on. */
  function After(event: Event): string {
    match event case BranchChanged(_, next, _) => next case Commit(_, _, on, _) => on
  }

  /** The branch after folding all events over the one recorded at first. */
  function FoldBranches(branch: Option<string>, marks: seq<Mark>): Option<string>
    decreases |marks|
  {
    if marks == [] then branch
    else FoldBranches(match marks[0] case Detachment => None case Event(event) => Some(After(event)), marks[1..])
  }

  /** Over every run the recorded events form a chain, and folding them reproduces the recorded branch. */
  lemma {:induction false} RecordedEventsFormAChain(initial: Option<Snapshot>, override: Option<string>, hs: seq<Happening>)
    ensures var core := Run(initial, override, hs).core;
      IsChain(BranchOf(initial), core.settled) && FoldBranches(BranchOf(initial), core.settled) == BranchOf(core.current)
  {
    if hs != [] {
      var before := hs[..|hs| - 1];
      RecordedEventsFormAChain(initial, override, before);
      var s, h := Run(initial, override, before), hs[|hs| - 1];
      if h.Answered? && s.inFlight > 0 && s.core.isProcessing {
        AnswerKeepsChain(BranchOf(initial), s.core, override, h.answer);
      }
    }
  }

  lemma AnswerKeepsChain(first: Option<string>, core: Core, override: Option<string>, answer: Answer)
    requires core.isProcessing
    requires IsChain(first, core.settled) && FoldBranches(first, core.settled) == BranchOf(core.current)
    ensures var after := Finished(core, override, answer);
      IsChain(first, after.settled) && FoldBranches(first, after.settled) == BranchOf(after.current)
  {
    var after := Finished(core, override, answer);
    if after.settled != core.settled {
      var mark := after.settled[|core.settled|];
      assert after.settled == core.settled + [mark];
      ChainAppend(first, core.settled, mark);
    }
  }

  lemma {:induction false} ChainAppend(branch: Option<string>, marks: seq<Mark>, mark: Mark)
    requires IsChain(branch, marks)
    ensures IsChain(branch, marks + [mark]) <==> (mark.Event? ==> Follows(FoldBranches(branch, marks), mark.event))
    ensures FoldBranches(branch, marks + [mark]) == match mark case Detachment => None case Event(event) => Some(After(event))
    decreases |marks|
  {
    if marks == [] {
      assert marks + [mark] == [mark] && [mark][1..] == [];
    } else {
      assert (marks + [mark])[1..] == marks[1..] + [mark];
      ChainAppend(match marks[0] case Detachment => None case Event(event) => Some(After(event)), marks[1..], mark);
    }
  }

  /** The recorded state an event speaks of: its branch, and for a commit the commit it replaces. */
  predicate StartsFrom(current: Option<Snapshot>, event: Event) {
    match event
    case BranchChanged(previous, next, _) => current.Some? && current.value.branch == previous && previous != next
    case Commit(previous, next, on, _) =>
      if current.Some? then current.value == Snapshot(on, previous) && previous != next else previous == ""
  }

  /**
   * Along every run: one happening emits at most one event, which starts from the state recorded
   * then and leads to the state just read; no event comes when that state is the recorded one,
   * and no state is recorded without an event or a detachment.
   */
  lemma EachEventStartsFromTheRecordedState(initial: Option<Snapshot>, override: Option<string>, hs: seq<Happening>, h: Happening)
    ensures var s := Run(initial, override, hs);
      var after := Run(initial, override, hs + [h]);
      && (after.core.emitted == s.core.emitted
          || exists event :: after.core.emitted == s.core.emitted + [event] && StartsFrom(s.core.current, event)
               && h.Answered? && h.answer.State? && After(event) == h.answer.branch
               && (event.Commit? ==> event.newCommit == h.answer.commit))
      && (h.Answered? && h.answer.State? && s.core.current == Some(Snapshot(h.answer.branch, h.answer.commit)) ==>
            after.core.emitted == s.core.emitted && after.core.current == s.core.current)
      && (after.core.current != s.core.current && after.core.emitted == s.core.emitted ==> after.core.current == None)
  {
    var s := Run(initial, override, hs);
    assert (hs + [h])[..|hs|] == hs && (hs + [h])[|hs|] == h;
    if h.Answered? && h.answer.State? && s.inFlight > 0 && s.core.isProcessing {
      var after := Finished(s.core, override, h.answer);
      if after.emitted != s.core.emitted {
        var event := after.emitted[|s.core.emitted|];
        assert after.emitted == s.core.emitted + [event];
      }
    }
  }

  // ---------------------------------------------------------------- what the listeners see

  /** The event a happening hands to the listeners, or the detachment it finds. */
  function Effect(s: System, override: Option<string>, h: Happening): Option<Mark> {
    if !h.Answered? || s.inFlight == 0 || !s.core.isProcessing || h.answer.Failure? then None
    else if h.answer.Detached? then Some(Detachment)
    else
      var defaultBranch := DefaultBranch(s.core.defaultBranch, override, h.answer.baseBranch);
      if defaultBranch.None? then None
      else
        var isBaseBranch := ToLowerCase(h.answer.branch) == ToLowerCase(defaultBranch.value);
        var events := EventsFor(s.core.current, Snapshot(h.answer.branch, h.answer.commit), isBaseBranch);
        if events == [] then None else Some(Mark.Event(events[0]))
  }

  /** The events of a run in the order the listeners get them, with a mark for each detachment. */
  function View(initial: Option<Snapshot>, override: Option<string>, hs: seq<Happening>): seq<Mark> {
    if hs == [] then []
    else
      var before := hs[..|hs| - 1];
      View(initial, override, before) + Added(Effect(Run(initial, override, before), override, hs[|hs| - 1]))
  }

  function Added(mark: Option<Mark>): seq<Mark> {
    if mark.Some? then [mark.value] else []
  }

  function EventsOf(marks: seq<Mark>): seq<Event> {
    if marks == [] then []
    else EventsOf(marks[..|marks| - 1]) + match marks[|marks| - 1] case Detachment => [] case Event(event) => [event]
  }

  lemma EventsOfAdded(marks: seq<Mark>, mark: Option<Mark>)
    ensures EventsOf(marks + Added(mark))
         == EventsOf(marks) + if mark.Some? && mark.value.Event? then [mark.value.event] else []
  {
    if mark.Some? {
      assert (marks + [mark.value])[..|marks|] == marks;
    } else {
      assert marks + [] == marks;
      assert EventsOf(marks) + [] == EventsOf(marks);
    }
  }

  /** The happening hands out an event, and a listener throws. */
  predicate Throws(s: System, override: Option<string>, h: Happening) {
    Effect(s, override, h).Some? && h.answer.State? && h.answer.listenerThrows
  }

  /** What one happening does to the watcher, told by its effect. */
  lemma EffectIs(s: System, override: Option<string>, h: Happening)
    ensures var after, mark := Advance(s, override, h).core, Effect(s, override, h);
      && after.emitted == s.core.emitted + (if mark.Some? && mark.value.Event? then [mark.value.event] else [])
      && after.settled == s.core.settled + (if Throws(s, override, h) then [] else Added(mark))
      && after.current == (if mark.None? || Throws(s, override, h) then s.core.current
                           else if mark.value.Detachment? then None
                           else Some(Snapshot(h.answer.branch, h.answer.commit)))
      && (mark.Some? && mark.value.Event? ==>
            h.answer.State? && StartsFrom(s.core.current, mark.value.event) && After(mark.value.event) == h.answer.branch)
  {
  }

  /** The view holds the emitted events, all of them and in order. */
  lemma {:induction false} ViewIsEmitted(initial: Option<Snapshot>, override: Option<string>, hs: seq<Happening>)
    ensures EventsOf(View(initial, override, hs)) == Run(initial, override, hs).core.emitted
  {
    if hs != [] {
      var before, h := hs[..|hs| - 1], hs[|hs| - 1];
      var s := Run(initial, override, before);
      ViewIsEmitted(initial, override, before);
      EffectIs(s, override, h);
      EventsOfAdded(View(initial, override, before), Effect(s, override, h));
    }
  }

  /** How many events were handed to a listener that threw. */
  function ThrowCount(initial: Option<Snapshot>, override: Option<string>, hs: seq<Happening>): nat {
    if hs == [] then 0
    else
      var before := hs[..|hs| - 1];
      ThrowCount(initial, override, before)
      + if Throws(Run(initial, override, before), override, hs[|hs| - 1]) then 1 else 0
  }

  /** Every event is either recorded or one of those on which a listener threw. */
  lemma {:induction false} EveryEventIsRecordedOrThrown(initial: Option<Snapshot>, override: Option<string>, hs: seq<Happening>)
    ensures var core := Run(initial, override, hs).core;
      && |core.emitted| == |EventsOf(core.settled)| + ThrowCount(initial, override, hs)
      && (ThrowCount(initial, override, hs) == 0 ==> core.settled == View(initial, override, hs))
  {
    if hs != [] {
      var before, h := hs[..|hs| - 1], hs[|hs| - 1];
      var s := Run(initial, override, before);
      EveryEventIsRecordedOrThrown(initial, override, before);
      EffectIs(s, override, h);
      EventsOfAdded(s.core.settled, Effect(s, override, h));
      EventsOfAdded(s.core.settled, None);
    }
  }

  /** The recorded events are all the emitted ones exactly when no listener threw on one. */
  lemma RecordedAreEmittedExactlyWhen(initial: Option<Snapshot>, override: Option<string>, hs: seq<Happening>)
    ensures EventsOf(Run(initial, override, hs).core.settled) == Run(initial, override, hs).core.emitted
       <==> ThrowCount(initial, override, hs) == 0
  {
    EveryEventIsRecordedOrThrown(initial, override, hs);
    ViewIsEmitted(initial, override, hs);
  }

  /**
   * The branch that the last event announced without its being recorded, because a
   * listener threw; none once another event or a detachment has come.
   */
  function Stray(initial: Option<Snapshot>, override: Option<string>, hs: seq<Happening>): Option<string> {
    if hs == [] then None
    else
      var before, h := hs[..|hs| - 1], hs[|hs| - 1];
      var s := Run(initial, override, before);
      if Effect(s, override, h).None? then Stray(initial, override, before)
      else if Throws(s, override, h) && BranchOf(s.core.current) != Some(h.answer.branch) then Some(h.answer.branch)
      else None
  }

  /**
   * Another event follows on one that announced an unrecorded branch: it starts
   * from the recorded branch, or, if none is recorded, is not on the announced one.
   */
  predicate Derails(initial: Option<Snapshot>, override: Option<string>, hs: seq<Happening>, h: Happening) {
    var s, stray := Run(initial, override, hs), Stray(initial, override, hs);
    stray.Some? && Effect(s, override, h).Some? && h.answer.State? && (s.core.current.Some? || Some(h.answer.branch) != stray)
  }

  /** What the listeners take for the branch: the stray one, or else the recorded one. */
  lemma {:induction false} ViewFoldsTo(initial: Option<Snapshot>, override: Option<string>, hs: seq<Happening>)
    ensures var recorded, stray := BranchOf(Run(initial, override, hs).core.current), Stray(initial, override, hs);
      && (stray.Some? ==> stray != recorded)
      && FoldBranches(BranchOf(initial), View(initial, override, hs)) == if stray.Some? then stray else recorded
  {
    if hs != [] {
      var before, h := hs[..|hs| - 1], hs[|hs| - 1];
      var s := Run(initial, override, before);
      var marks, mark := View(initial, override, before), Effect(s, override, h);
      ViewFoldsTo(initial, override, before);
      EffectIs(s, override, h);
      if mark.Some? {
        FoldAppend(BranchOf(initial), marks, mark.value);
      } else {
        assert marks + [] == marks;
      }
    }
  }

  lemma {:induction false} FoldAppend(branch: Option<string>, marks: seq<Mark>, mark: Mark)
    ensures FoldBranches(branch, marks + [mark]) == match mark case Detachment => None case Event(event) => Some(After(event))
    decreases |marks|
  {
    if marks == [] {
      assert marks + [mark] == [mark] && [mark][1..] == [];
    } else {
      assert (marks + [mark])[1..] == marks[1..] + [mark];
      FoldAppend(match marks[0] case Detachment => None case Event(event) => Some(After(event)), marks[1..], mark);
    }
  }

  lemma {:induction false} ChainOfPart(branch: Option<string>, marks: seq<Mark>, mark: Mark)
    requires IsChain(branch, marks + [mark])
    ensures IsChain(branch, marks)
    decreases |marks|
  {
    if marks != [] {
      assert (marks + [mark])[1..] == marks[1..] + [mark];
      ChainOfPart(match marks[0] case Detachment => None case Event(event) => Some(After(event)), marks[1..], mark);
    }
  }

  /** No happening of the run derails the chain. */
  predicate StaysOnTrack(initial: Option<Snapshot>, override: Option<string>, hs: seq<Happening>) {
    forall k :: 0 <= k < |hs| ==> !Derails(initial, override, hs[..k], hs[k])
  }

  lemma OnTrackUntil(initial: Option<Snapshot>, override: Option<string>, hs: seq<Happening>)
    requires hs != []
    ensures var n := |hs| - 1;
      StaysOnTrack(initial, override, hs)
      <==> StaysOnTrack(initial, override, hs[..n]) && !Derails(initial, override, hs[..n], hs[n])
  {
    var before := hs[..|hs| - 1];
    forall k | 0 <= k < |before| ensures before[..k] == hs[..k] && before[k] == hs[k] {
    }
    if StaysOnTrack(initial, override, hs) {
      forall k | 0 <= k < |before| ensures !Derails(initial, override, before[..k], before[k]) {
        assert !Derails(initial, override, hs[..k], hs[k]);
      }
    }
    if StaysOnTrack(initial, override, before) && !Derails(initial, override, before, hs[|before|]) {
      forall k | 0 <= k < |hs| ensures !Derails(initial, override, hs[..k], hs[k]) {
        if k < |before| {
          assert !Derails(initial, override, before[..k], before[k]);
        }
      }
    }
  }

  /** The emitted events form a chain exactly when none of them derails it. */
  lemma {:induction false} EmittedEventsFormAChainExactlyWhen(initial: Option<Snapshot>, override: Option<string>, hs: seq<Happening>)
    ensures IsChain(BranchOf(initial), View(initial, override, hs)) <==> StaysOnTrack(initial, override, hs)
  {
    if hs != [] {
      var before, h := hs[..|hs| - 1], hs[|hs| - 1];
      EmittedEventsFormAChainExactlyWhen(initial, override, before);
      NextEventFollows(initial, override, before, h);
      OnTrackUntil(initial, override, hs);
    }
  }

  lemma NextEventFollows(initial: Option<Snapshot>, override: Option<string>, hs: seq<Happening>, h: Happening)
    ensures var marks, mark := View(initial, override, hs), Effect(Run(initial, override, hs), override, h);
      IsChain(BranchOf(initial), marks + Added(mark))
      <==> IsChain(BranchOf(initial), marks) && !Derails(initial, override, hs, h)
  {
    var s := Run(initial, override, hs);
    var marks, mark := View(initial, override, hs), Effect(s, override, h);
    ViewFoldsTo(initial, override, hs);
    EffectIs(s, override, h);
    if mark.None? {
      assert marks + [] == marks;
    } else if IsChain(BranchOf(initial), marks) {
      ChainAppend(BranchOf(initial), marks, mark.value);
    } else if IsChain(BranchOf(initial), marks + [mark.value]) {
      ChainOfPart(BranchOf(initial), marks, mark.value);
    }
  }

  /** In particular they do when no listener throws, and then folding them reproduces the recorded branch. */
  lemma EventsFormAChain(initial: Option<Snapshot>, override: Option<string>, hs: seq<Happening>)
    requires ThrowCount(initial, override, hs) == 0
    ensures var core, marks := Run(initial, override, hs).core, View(initial, override, hs);
      EventsOf(marks) == core.emitted && IsChain(BranchOf(initial), marks)
      && FoldBranches(BranchOf(initial), marks) == BranchOf(core.current)
  {
    ViewIsEmitted(initial, override, hs);
    EveryEventIsRecordedOrThrown(initial, override, hs);
    RecordedEventsFormAChain(initial, override, hs);
  }

  // ---------------------------------------------------------------- when an event is repeated

  /** The same change, whatever is thought to be the base branch. */
  predicate SameChange(a: Event, b: Event) {
    match a
    case BranchChanged(previous, next, _) => b.BranchChanged? && b.previousBranch == previous && b.newBranch == next
    case Commit(previous, next, on, _) => b.Commit? && b.previousCommit == previous && b.newCommit == next && b.branch == on
  }

  /** Happening `k` of a run hands this event to the listeners. */
  ghost predicate Emits(initial: Option<Snapshot>, override: Option<string>, hs: seq<Happening>, k: nat, event: Event)
    requires k < |hs|
  {
    Effect(Run(initial, override, hs[..k]), override, hs[k]) == Some(Mark.Event(event))
  }

  ghost predicate Quiet(initial: Option<Snapshot>, override: Option<string>, hs: seq<Happening>, k: nat)
    requires k < |hs|
  {
    Effect(Run(initial, override, hs[..k]), override, hs[k]) == None
  }

  /**
   * Of two events with nothing between them, the second repeats the change of the
   * first exactly when a listener threw on the first and the same branch, for a commit
   * event with the same commit, was read again.
   */
  lemma EventsRepeatExactlyWhen(initial: Option<Snapshot>, override: Option<string>, hs: seq<Happening>, i: nat, j: nat, first: Event, second: Event)
    requires i < j < |hs| && Emits(initial, override, hs, i, first) && Emits(initial, override, hs, j, second)
    requires forall k :: i < k < j ==> Quiet(initial, override, hs, k)
    ensures hs[i].Answered? && hs[i].answer.State? && hs[j].Answered? && hs[j].answer.State?
    ensures SameChange(first, second)
       <==> hs[i].answer.listenerThrows && hs[i].answer.branch == hs[j].answer.branch
            && (first.Commit? ==> hs[i].answer.commit == hs[j].answer.commit)
  {
    var s, t := Run(initial, override, hs[..i]), Run(initial, override, hs[..j]);
    EffectIs(s, override, hs[i]);
    RunNext(initial, override, hs, i);
    QuietKeeps(initial, override, hs, i + 1, j);
  }

  lemma RunNext(initial: Option<Snapshot>, override: Option<string>, hs: seq<Happening>, k: nat)
    requires k < |hs|
    ensures Run(initial, override, hs[..k + 1]) == Advance(Run(initial, override, hs[..k]), override, hs[k])
  {
    assert hs[..k + 1][..k] == hs[..k];
  }

  /** While nothing is emitted and no detachment found, the recorded state stays. */
  lemma {:induction false} QuietKeeps(initial: Option<Snapshot>, override: Option<string>, hs: seq<Happening>, i: nat, j: nat)
    requires i <= j <= |hs| && forall k :: i <= k < j ==> Quiet(initial, override, hs, k)
    ensures Run(initial, override, hs[..j]).core.current == Run(initial, override, hs[..i]).core.current
    decreases j
  {
    if i < j {
      QuietKeeps(initial, override, hs, i, j - 1);
      RunNext(initial, override, hs, j - 1);
      assert Quiet(initial, override, hs, j - 1);
      EffectIs(Run(initial, override, hs[..j - 1]), override, hs[j - 1]);
    }
  }

  /**
   * A run on which the emitted events do not form a chain: the same change of branch
   * is reported twice, since a listener threw on the first report.
   */
  lemma ThrowingListenerBreaksTheChain(base: string)
    ensures var hs := [Trigger, Answered(State("b", "2", Some(base), true)), Trigger, Answered(State("b", "2", Some(base), false))];
      !IsChain(Some("a"), View(Some(Snapshot("a", "1")), None, hs))
  {
    var initial := Some(Snapshot("a", "1"));
    var hs := [Trigger, Answered(State("b", "2", Some(base), true)), Trigger, Answered(State("b", "2", Some(base), false))];
    RunNext(initial, None, hs, 0);
    RunNext(initial, None, hs, 1);
    RunNext(initial, None, hs, 2);
    var s := Run(initial, None, hs[..3]);
    StrayNext(initial, None, hs, 1);
    StrayNext(initial, None, hs, 2);
    assert Derails(initial, None, hs[..3], hs[3]);
    EmittedEventsFormAChainExactlyWhen(initial, None, hs);
  }

  /**
   * From any idle state: after a listener throws on a change of branch the state is not
   * recorded, and reading it again emits the same event once more and records it.
   */
  lemma ThrowingListenerRepeatsTheEvent(s: System, was: Snapshot, override: Option<string>, branch: string, commit: string, base: string)
    requires s.inFlight == 0 && !s.core.isProcessing && s.core.current == Some(was) && branch != was.branch
    ensures var failed := Advance(Advance(s, override, Trigger), override, Answered(State(branch, commit, Some(base), true)));
      var passed := Advance(Advance(failed, override, Trigger), override, Answered(State(branch, commit, Some(base), false)));
      && failed.core.current == Some(was) && passed.core.current == Some(Snapshot(branch, commit))
      && |passed.core.emitted| == |s.core.emitted| + 2 && |passed.core.settled| == |s.core.settled| + 1
      && passed.core.emitted[|s.core.emitted|] == passed.core.emitted[|s.core.emitted| + 1]
  {
    var failed := Advance(Advance(s, override, Trigger), override, Answered(State(branch, commit, Some(base), true)));
    assert failed.core.defaultBranch.Some? && failed.core.current == s.core.current;
    assert DefaultBranch(failed.core.defaultBranch, override, Some(base)) == failed.core.defaultBranch;
  }

  lemma StrayNext(initial: Option<Snapshot>, override: Option<string>, hs: seq<Happening>, k: nat)
    requires k < |hs|
    ensures var s := Run(initial, override, hs[..k]);
      Stray(initial, override, hs[..k + 1])
      == if Effect(s, override, hs[k]).None? then Stray(initial, override, hs[..k])
         else if Throws(s, override, hs[k]) && BranchOf(s.core.current) != Some(hs[k].answer.branch) then Some(hs[k].answer.branch)
         else None
  {
    assert hs[..k + 1][..k] == hs[..k];
  }

  // ---------------------------------------------------------------- which event comes, and the default branch

  function FlagOf(event: Event): bool {
    match event case BranchChanged(_, _, isBaseBranch) => isBaseBranch case Commit(_, _, _, isBaseBranch) => isBaseBranch
  }

  /**
   * A handler that has read a state and knows the default branch hands out an event exactly
   * when the state is not the recorded one: a change of branch if there was another branch,
   * and a commit otherwise. Whether it is on the default branch is told without regard to case.
   */
  lemma EventComesExactlyWhen(s: System, override: Option<string>, branch: string, commit: string, baseBranch: Option<string>, throws: bool)
    requires s.inFlight > 0 && s.core.isProcessing
    requires Advance(s, override, Answered(State(branch, commit, baseBranch, throws))).core.defaultBranch.Some?
    requires s.core.defaultBranch.Some? ==> s.core.defaultBranch.value != ""
    ensures var after := Advance(s, override, Answered(State(branch, commit, baseBranch, throws))).core;
      if s.core.current == Some(Snapshot(branch, commit)) then after.emitted == s.core.emitted
      else
        && |after.emitted| == |s.core.emitted| + 1 && after.emitted[..|s.core.emitted|] == s.core.emitted
        && var event := after.emitted[|s.core.emitted|];
           && (event.BranchChanged? <==> s.core.current.Some? && s.core.current.value.branch != branch)
           && (FlagOf(event) <==> SameUpToCase(branch, after.defaultBranch.value))
  {
    var after := Advance(s, override, Answered(State(branch, commit, baseBranch, throws))).core;
    LowerForgetsCase(branch, after.defaultBranch.value);
  }

  /** Over every run a configured default branch is the only one ever known, and otherwise it is one that was read. */
  lemma {:induction false} DefaultBranchComesFrom(initial: Option<Snapshot>, override: Option<string>, hs: seq<Happening>)
    ensures var known := Run(initial, override, hs).core.defaultBranch;
      known.Some? ==>
        if override.Some? && override.value != "" then known == override
        else exists k :: 0 <= k < |hs| && hs[k].Answered? && hs[k].answer.State? && hs[k].answer.baseBranch == known
  {
    if hs != [] {
      var before, h := hs[..|hs| - 1], hs[|hs| - 1];
      DefaultBranchComesFrom(initial, override, before);
      var was, known := Run(initial, override, before).core.defaultBranch, Run(initial, override, hs).core.defaultBranch;
      if k :| 0 <= k < |before| && before[k].Answered? && before[k].answer.State? && before[k].answer.baseBranch == was {
        assert hs[k].Answered? && hs[k].answer.State? && hs[k].answer.baseBranch == was;
      }
    }
  }

  /** A default branch that has become known is never replaced, unless it is empty. */
  lemma {:induction false} DefaultBranchStays(initial: Option<Snapshot>, override: Option<string>, hs: seq<Happening>, k: nat)
    requires k <= |hs|
    ensures var known := Run(initial, override, hs[..k]).core.defaultBranch;
      known.Some? && known.value != "" ==> Run(initial, override, hs).core.defaultBranch == known
    decreases |hs|
  {
    if k == |hs| {
      assert hs[..k] == hs;
    } else {
      assert hs[..|hs| - 1][..k] == hs[..k];
      DefaultBranchStays(initial, override, hs[..|hs| - 1], k);
    }
  }

  // ---------------------------------------------------------------- scanning in batches

  const BATCH_SIZE: nat := 50

  /** The batches of files to scan: full ones, up to the last, that together are all the files in order. */
  method DiffBatches(added: seq<string>, modified: seq<string>) returns (batches: seq<seq<string>>)
    ensures Concat(batches) == added + modified
    ensures forall i :: 0 <= i < |batches| ==> 0 < |batches[i]| <= 50
    ensures forall i :: 0 <= i < |batches| - 1 ==> |batches[i]| == 50
  {
    var filesToScan := added + modified;
    batches := [];
    if |filesToScan| == 0 {
      return;
    }
    var i := 0;
    while i < |filesToScan|
      invariant 0 <= i
      invariant Concat(batches) == filesToScan[..if i < |filesToScan| then i else |filesToScan|]
      invariant forall k :: 0 <= k < |batches| ==> 0 < |batches[k]| <= BATCH_SIZE
      invariant forall k :: 0 <= k < |batches| ==> k < |batches| - 1 || i < |filesToScan| ==> |batches[k]| == BATCH_SIZE
    {
      var end := if i + BATCH_SIZE < |filesToScan| then i + BATCH_SIZE else |filesToScan|;
      var batch := filesToScan[i..end];
      ConcatAppend(batches, [batch]);
      ConcatOne(batch);
      assert filesToScan[..i] + batch == filesToScan[..end];
      batches := batches + [batch];
      i := i + BATCH_SIZE;
    }
    assert filesToScan[..|filesToScan|] == filesToScan;
  }
}
