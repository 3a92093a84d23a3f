/**
 Concurrent calls of the fallback log writer: each call is a primary write, possibly a fallback write
 and possibly an atomic increment, and the steps of different calls interleave freely
 (core/internal/logger/fallback.go).
 */
module FallbackRace {
  import opened Wrappers
  import opened Counter64
  import opened FallbackWriter

  /** How far one call has come; `second` is None when the fallback was not needed. */
  datatype Phase =
    | Ready
    | AfterPrimary(first: Reply)
    | AfterFallback(first: Reply, lost: Reply)
    | Done(first: Reply, second: Option<Reply>)

  /** What one call put into a sink. */
  datatype Piece = Piece(call: nat, octets: string)

  /** `counted` is the number of increments; the program itself has the int64 `drops`. */
  datatype State = State(records: seq<string>, phases: seq<Phase>, primary: seq<Piece>, fallback: seq<Piece>,
                         drops: int, counted: nat)

  datatype Step = Primary(call: nat, reply: Reply) | Fallback(call: nat, reply: Reply) | Count(call: nat)

  function Start(records: seq<string>): State {
    State(records, seq(|records|, _ => Ready), [], [], 0, 0)
  }

  /** One atomic step; a step that its call cannot take leaves everything as it was. */
  function Apply(s: State, step: Step): State
    requires |s.phases| == |s.records|
  {
    var i := step.call;
    if i >= |s.records| then s
    else
      var p := s.records[i];
      match (step, s.phases[i])
      case (Primary(_, r), Ready) =>
        s.(phases := s.phases[i := if r.ok then Done(r, None) else AfterPrimary(r)],
           primary := s.primary + [Piece(i, Taken(r, p))])
      case (Fallback(_, r), AfterPrimary(first)) =>
        s.(phases := s.phases[i := if Dropped(p, first, r) then AfterFallback(first, r) else Done(first, Some(r))],
           fallback := s.fallback + [Piece(i, Taken(r, Remaining(p, first)))])
      case (Count(_), AfterFallback(first, r)) =>
        s.(phases := s.phases[i := Done(first, Some(r))], drops := Int64(s.drops + 1), counted := s.counted + 1)
      case _ => s
  }

  function Run(s: State, steps: seq<Step>): (r: State)
    requires |s.phases| == |s.records|
    ensures |r.phases| == |r.records| && r.records == s.records
    decreases |steps|
  {
    if steps == [] then s else Run(Apply(s, steps[0]), steps[1..])
  }

  // ---------------------------------------------------------------- what the sinks received

  /** The octets of one call in a sink, in order. */
  function Received(log: seq<Piece>, call: nat): string {
    if log == [] then ""
    else (if log[0].call == call then log[0].octets else "") + Received(log[1..], call)
  }

  lemma {:induction false} ReceivedAppend(log: seq<Piece>, piece: Piece, call: nat)
    ensures Received(log + [piece], call) == Received(log, call) + if piece.call == call then piece.octets else ""
  {
    if log == [] {
      assert log + [piece] == [piece];
      assert Received([piece], call) == (if piece.call == call then piece.octets else "") + Received([], call);
    } else {
      assert (log + [piece])[1..] == log[1..] + [piece] && (log + [piece])[0] == log[0];
      ReceivedAppend(log[1..], piece, call);
    }
  }

  // ---------------------------------------------------------------- counting losses

  /** The call has returned although its fallback failed or did not take all that was left for it. */
  predicate Lost(p: string, ph: Phase) {
    ph.Done? && ph.second.Some? && !(ph.second.value.ok && ph.second.value.n == |p| - Claimed(p, ph.first))
  }

  function LostCalls(records: seq<string>, phases: seq<Phase>): set<nat>
    requires |records| == |phases|
  {
    set i: nat | i < |records| && Lost(records[i], phases[i])
  }

  lemma LostCallsUpdate(records: seq<string>, phases: seq<Phase>, i: nat, ph: Phase)
    requires |records| == |phases| && i < |phases| && !Lost(records[i], phases[i])
    ensures |LostCalls(records, phases[i := ph])| ==
            |LostCalls(records, phases)| + if Lost(records[i], ph) then 1 else 0
  {
    var before, after := LostCalls(records, phases), LostCalls(records, phases[i := ph]);
    assert after == before + if Lost(records[i], ph) then {i} else {};
  }

  // ---------------------------------------------------------------- the invariant

  function ToPrimary(p: string, ph: Phase): string {
    if ph.Ready? then "" else Taken(ph.first, p)
  }

  function ToFallback(p: string, ph: Phase): string {
    match ph
    case AfterFallback(first, r) => Taken(r, Remaining(p, first))
    case Done(first, Some(r)) => Taken(r, Remaining(p, first))
    case _ => ""
  }

  predicate PhaseOk(p: string, ph: Phase) {
    match ph
    case Ready => true
    case AfterPrimary(first) => !first.ok
    case AfterFallback(first, r) => Dropped(p, first, r)
    case Done(first, second) => first.ok <==> second.None?
  }

  ghost predicate CallOk(s: State, i: nat)
    requires |s.phases| == |s.records| && i < |s.records|
  {
    && PhaseOk(s.records[i], s.phases[i])
    && Received(s.primary, i) == ToPrimary(s.records[i], s.phases[i])
    && Received(s.fallback, i) == ToFallback(s.records[i], s.phases[i])
  }

  ghost predicate Inv(s: State) {
    && |s.phases| == |s.records|
    && s.drops == Int64(s.counted)
    && s.counted == |LostCalls(s.records, s.phases)|
    && forall i :: 0 <= i < |s.records| ==> CallOk(s, i)
  }

  lemma StepKeepsCall(s: State, step: Step, j: nat)
    requires |s.phases| == |s.records| && j < |s.records|
    requires CallOk(s, j)
    ensures CallOk(Apply(s, step), j)
  {
    var i := step.call;
    if i < |s.records| {
      var p := s.records[i];
      match (step, s.phases[i])
      case (Primary(_, r), Ready) => ReceivedAppend(s.primary, Piece(i, Taken(r, p)), j);
      case (Fallback(_, r), AfterPrimary(first)) =>
        ReceivedAppend(s.fallback, Piece(i, Taken(r, Remaining(p, first))), j);
      case _ =>
    }
  }

  lemma StepKeepsCount(s: State, step: Step)
    requires |s.phases| == |s.records|
    requires step.call < |s.records| ==> CallOk(s, step.call)
    requires s.drops == Int64(s.counted) && s.counted == |LostCalls(s.records, s.phases)|
    ensures var next := Apply(s, step);
            next.drops == Int64(next.counted) && next.counted == |LostCalls(next.records, next.phases)|
  {
    var i := step.call;
    var next := Apply(s, step);
    if i < |s.records| && next != s {
      Int64Next(s.counted);
      assert next.phases == s.phases[i := next.phases[i]];
      LostCallsUpdate(s.records, s.phases, i, next.phases[i]);
    }
  }

  lemma StepKeepsInv(s: State, step: Step)
    requires Inv(s)
    ensures Inv(Apply(s, step))
  {
    StepKeepsCount(s, step);
    forall j | 0 <= j < |s.records| ensures CallOk(Apply(s, step), j) {
      StepKeepsCall(s, step, j);
    }
  }

  lemma StartInv(records: seq<string>)
    ensures Inv(Start(records))
  {
    assert LostCalls(records, Start(records).phases) == {};
  }

  lemma {:induction false} RunKeepsInv(s: State, steps: seq<Step>)
    requires Inv(s)
    ensures Inv(Run(s, steps))
    decreases |steps|
  {
    if steps != [] {
      StepKeepsInv(s, steps[0]);
      RunKeepsInv(Apply(s, steps[0]), steps[1..]);
    }
  }

  // ---------------------------------------------------------------- the promises

  /** The sinks kept their contract towards this call. */
  predicate HonestTowards(p: string, ph: Phase) {
    match ph
    case Ready => true
    case AfterPrimary(first) => Honest(first, p)
    case AfterFallback(first, r) => Honest(first, p) && Honest(r, Remaining(p, first))
    case Done(first, None) => Honest(first, p)
    case Done(first, Some(r)) => Honest(first, p) && Honest(r, Remaining(p, first))
  }

  /**
   At any moment of any interleaving, what a call has put into the two sinks is a prefix of its
   record, and a call that has returned without a loss has put out the whole record.
   */
  lemma NoOctetTwice(records: seq<string>, steps: seq<Step>, i: nat)
    requires i < |records|
    ensures var s := Run(Start(records), steps);
            && |s.phases| == |records|
            && (HonestTowards(records[i], s.phases[i]) ==>
                  var out := Received(s.primary, i) + Received(s.fallback, i);
                  && out <= records[i]
                  && (s.phases[i].Done? && !Lost(records[i], s.phases[i]) ==> out == records[i]))
  {
    StartInv(records);
    RunKeepsInv(Start(records), steps);
    var s := Run(Start(records), steps);
    var p, ph := records[i], s.phases[i];
    assert CallOk(s, i);
    if HonestTowards(p, ph) {
      match ph
      case AfterFallback(first, r) => RecordIsConserved(p, first, r);
      case Done(first, Some(r)) => RecordIsConserved(p, first, r);
      case _ =>
    }
  }

  /**
   At any moment the counter is the number of calls that have returned although the primary failed and
   the fallback failed or did not take all that the primary had left by its own account.
   */
  lemma DropsCountTheLosses(records: seq<string>, steps: seq<Step>)
    ensures var s := Run(Start(records), steps);
            && |s.phases| == |records|
            && var losses := |set i: nat | i < |records| && s.phases[i].Done? && !s.phases[i].first.ok
                               && s.phases[i].second.Some?
                               && !(s.phases[i].second.value.ok
                                    && s.phases[i].second.value.n == |records[i]| - Claimed(records[i], s.phases[i].first))|;
               && s.drops == Int64(losses)
               && (|records| < TWO_63 ==> s.drops == losses)
  {
    StartInv(records);
    RunKeepsInv(Start(records), steps);
    var s := Run(Start(records), steps);
    var losses := set i: nat | i < |records| && s.phases[i].Done? && !s.phases[i].first.ok
                    && s.phases[i].second.Some?
                    && !(s.phases[i].second.value.ok
                         && s.phases[i].second.value.n == |records[i]| - Claimed(records[i], s.phases[i].first));
    forall i: nat | i < |records| ensures PhaseOk(records[i], s.phases[i]) {
      assert CallOk(s, i);
    }
    assert LostCalls(records, s.phases) == losses;
    AtMost(losses, |records|);
  }

  lemma {:induction false} AtMost(a: set<nat>, n: nat)
    requires forall i | i in a :: i < n
    ensures |a| <= n
  {
    if n == 0 {
      assert a == {};
    } else {
      AtMost(a - {n - 1}, n - 1);
    }
  }

  // ---------------------------------------------------------------- one call by itself

  /** A call whose steps are not interleaved does what LogWriter.Write does: pieces sent and counter. */
  lemma UninterruptedCall(s: State, i: nat, first: Reply, second: Reply)
    requires |s.phases| == |s.records| && i < |s.records| && s.phases[i].Ready?
    ensures var p := s.records[i];
            var end := Run(s, [Primary(i, first), Fallback(i, second), Count(i)]);
            && end.phases[i] == Done(first, if first.ok then None else Some(second))
            && end.primary == s.primary + [Piece(i, Taken(first, p))]
            && end.fallback == s.fallback + (if first.ok then [] else [Piece(i, Taken(second, Remaining(p, first)))])
            && end.drops == (if first.ok || (second.ok && second.n == |p| - Claimed(p, first)) then s.drops
                             else Int64(s.drops + 1))
  {
    CountedUnlessTaken(s.records[i], first, second);
    hide Dropped, Claimed, Taken, Remaining, Int64;
    var steps := [Primary(i, first), Fallback(i, second), Count(i)];
    var s1 := Apply(s, steps[0]);
    var s2 := Apply(s1, steps[1]);
    assert steps[1..][1..] == [steps[2]] && [steps[2]][1..] == [];
    assert Run(s2, [steps[2]]) == Apply(s2, steps[2]);
    assert Run(s1, steps[1..]) == Apply(s2, steps[2]);
  }

  // ---------------------------------------------------------------- one call among others

  lemma {:induction false} RunAppend(s: State, a: seq<Step>, b: seq<Step>)
    requires |s.phases| == |s.records|
    ensures Run(s, a + b) == Run(Run(s, a), b)
    decreases |a|
  {
    if a == [] {
      assert a + b == b;
    } else {
      assert (a + b)[1..] == a[1..] + b;
      RunAppend(Apply(s, a[0]), a[1..], b);
    }
  }

  predicate ByOthers(steps: seq<Step>, i: nat) {
    forall k :: 0 <= k < |steps| ==> steps[k].call != i
  }

  /** What the other calls do leaves the phase of a call and its pieces alone. */
  lemma {:induction false} OthersLeaveCall(s: State, steps: seq<Step>, i: nat)
    requires |s.phases| == |s.records| && i < |s.records| && ByOthers(steps, i)
    ensures var end := Run(s, steps);
            && end.phases[i] == s.phases[i]
            && Received(end.primary, i) == Received(s.primary, i)
            && Received(end.fallback, i) == Received(s.fallback, i)
    decreases |steps|
  {
    if steps != [] {
      StepOfAnother(s, steps[0], i);
      OthersLeaveCall(Apply(s, steps[0]), steps[1..], i);
    }
  }

  lemma StepOfAnother(s: State, step: Step, i: nat)
    requires |s.phases| == |s.records| && i < |s.records| && step.call != i
    ensures var end := Apply(s, step);
            && end.phases[i] == s.phases[i]
            && Received(end.primary, i) == Received(s.primary, i)
            && Received(end.fallback, i) == Received(s.fallback, i)
  {
    var j := step.call;
    if j < |s.records| {
      var p := s.records[j];
      match (step, s.phases[j])
      case (Primary(_, r), Ready) => ReceivedAppend(s.primary, Piece(j, Taken(r, p)), i);
      case (Fallback(_, r), AfterPrimary(first)) =>
        ReceivedAppend(s.fallback, Piece(j, Taken(r, Remaining(p, first))), i);
      case _ =>
    }
  }

  /** What a step of call `i` does in the state `s` for that call and the counter. */
  ghost predicate TakesEffect(s: State, step: Step, i: nat, end: State)
    requires |s.phases| == |s.records| == |end.phases| && i < |s.records|
  {
    var p := s.records[i];
    match (step, s.phases[i])
    case (Primary(_, r), Ready) =>
      && end.phases[i] == (if r.ok then Done(r, None) else AfterPrimary(r))
      && Received(end.primary, i) == Received(s.primary, i) + Taken(r, p)
      && Received(end.fallback, i) == Received(s.fallback, i)
      && end.drops == s.drops
    case (Fallback(_, r), AfterPrimary(first)) =>
      && end.phases[i] == (if first.ok || (r.ok && r.n == |p| - Claimed(p, first)) then Done(first, Some(r))
                           else AfterFallback(first, r))
      && Received(end.primary, i) == Received(s.primary, i)
      && Received(end.fallback, i) == Received(s.fallback, i) + Taken(r, Remaining(p, first))
      && end.drops == s.drops
    case (Count(_), AfterFallback(first, r)) =>
      && end.phases[i] == Done(first, Some(r))
      && Received(end.primary, i) == Received(s.primary, i)
      && Received(end.fallback, i) == Received(s.fallback, i)
      && end.drops == Int64(s.drops + 1)
    case _ => end == s
  }

  lemma StepTakesEffect(s: State, step: Step)
    requires |s.phases| == |s.records| && step.call < |s.records|
    ensures TakesEffect(s, step, step.call, Apply(s, step))
  {
    var i := step.call;
    var p := s.records[i];
    match (step, s.phases[i])
    case (Primary(_, r), Ready) => ReceivedAppend(s.primary, Piece(i, Taken(r, p)), i);
    case (Fallback(_, r), AfterPrimary(first)) =>
      CountedUnlessTaken(p, first, r);
      ReceivedAppend(s.fallback, Piece(i, Taken(r, Remaining(p, first))), i);
    case _ =>
  }

  /**
   A step that call `i` can take takes effect whatever steps of other calls come in between: these leave
   its phase and its pieces in the sinks as they were.
   */
  lemma OwnStepTakesEffect(s: State, others: seq<Step>, step: Step, i: nat)
    requires |s.phases| == |s.records| && i < |s.records| && ByOthers(others, i) && step.call == i
    ensures var before, end := Run(s, others), Run(s, others + [step]);
            && before.phases[i] == s.phases[i]
            && Received(before.primary, i) == Received(s.primary, i)
            && Received(before.fallback, i) == Received(s.fallback, i)
            && TakesEffect(before, step, i, end)
  {
    hide TakesEffect, Received;
    var before := Run(s, others);
    RunAppend(s, others, [step]);
    OthersLeaveCall(s, others, i);
    assert [step][1..] == [];
    assert Run(before, [step]) == Run(Apply(before, step), []) == Apply(before, step);
    StepTakesEffect(before, step);
  }
}
