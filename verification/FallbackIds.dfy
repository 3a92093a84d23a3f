/**
 Concurrent callers of newRequestID on the path where the UUID generator fails
 (core/internal/middleware/request_id.go, lines 144-145): an atomic increment, then, at any later
 time, reading the clock and formatting.
 */
module FallbackIds {
  import opened Wrappers
  import opened Counter64
  import opened RequestId

  /** A caller before the atomic increment, after the k-th one, or done. */
  datatype Caller = Waiting | Holding(k: nat) | Issued(k: nat, now: int, id: string)

  /** `taken` counts the increments so far; the program itself only has the int64 `counter`. */
  datatype Pool = Pool(host: string, pid: int, counter: int, taken: nat, callers: seq<Caller>)

  datatype Step = Add(caller: nat) | Print(caller: nat, now: int)

  function Start(host: string, pid: int, callers: nat): Pool {
    Pool(host, pid, 0, 0, seq(callers, _ => Waiting))
  }

  /** One atomic step; a step that its caller cannot take leaves everything as it was. */
  function Apply(p: Pool, s: Step): Pool {
    if s.caller >= |p.callers| then p
    else
      match (s, p.callers[s.caller])
      case (Add(i), Waiting) =>
        p.(counter := Int64(p.counter + 1), taken := p.taken + 1, callers := p.callers[i := Holding(p.taken + 1)])
      case (Print(i, now), Holding(k)) =>
        p.(callers := p.callers[i := Issued(k, now, FallbackId(p.host, p.pid, now, Int64(k)))])
      case _ => p
  }

  function Run(p: Pool, steps: seq<Step>): Pool
    decreases |steps|
  {
    if steps == [] then p else Run(Apply(p, steps[0]), steps[1..])
  }

  function Ordinal(c: Caller): nat {
    if c.Waiting? then 0 else c.k
  }

  /** The number of callers that have passed the increment. */
  function Started(callers: seq<Caller>): (n: nat)
    ensures n <= |callers|
  {
    if callers == [] then 0
    else (if callers[0].Waiting? then 0 else 1) + Started(callers[1..])
  }

  lemma {:induction false} StartedUpdate(callers: seq<Caller>, i: nat, c: Caller)
    requires i < |callers|
    ensures Started(callers[i := c]) ==
            Started(callers) + (if c.Waiting? then 0 else 1) - (if callers[i].Waiting? then 0 else 1)
  {
    if i == 0 {
      assert callers[i := c][1..] == callers[1..];
    } else {
      assert callers[i := c][1..] == callers[1..][i - 1 := c];
      StartedUpdate(callers[1..], i - 1, c);
    }
  }

  lemma {:induction false} NobodyStarted(n: nat)
    ensures Started(seq(n, _ => Waiting)) == 0
  {
    if n > 0 {
      var all: seq<Caller> := seq(n, _ => Waiting);
      var rest: seq<Caller> := seq(n - 1, _ => Waiting);
      assert all[1..] == rest;
      NobodyStarted(n - 1);
    }
  }

  /** No two callers hold the same increment, and every issued identifier prints its own. */
  ghost predicate Inv(p: Pool) {
    && p.counter == Int64(p.taken)
    && p.taken == Started(p.callers)
    && (forall i :: 0 <= i < |p.callers| ==> Ordinal(p.callers[i]) <= p.taken)
    && (forall i :: 0 <= i < |p.callers| && !p.callers[i].Waiting? ==> Ordinal(p.callers[i]) >= 1)
    && (forall i, j :: 0 <= i < j < |p.callers| && Ordinal(p.callers[i]) == Ordinal(p.callers[j]) ==>
          Ordinal(p.callers[i]) == 0)
    && (forall i :: 0 <= i < |p.callers| && p.callers[i].Issued? ==>
          p.callers[i].id == FallbackId(p.host, p.pid, p.callers[i].now, Int64(p.callers[i].k)))
  }

  lemma StepKeepsInv(p: Pool, s: Step)
    requires Inv(p)
    ensures Inv(Apply(p, s)) && |Apply(p, s).callers| == |p.callers|
  {
    if s.caller < |p.callers| && Apply(p, s) != p {
      Int64Next(p.taken);
      StartedUpdate(p.callers, s.caller, Apply(p, s).callers[s.caller]);
    }
  }

  lemma {:induction false} RunKeepsInv(p: Pool, steps: seq<Step>)
    requires Inv(p)
    ensures Inv(Run(p, steps)) && |Run(p, steps).callers| == |p.callers|
    decreases |steps|
  {
    if steps != [] {
      StepKeepsInv(p, steps[0]);
      RunKeepsInv(Apply(p, steps[0]), steps[1..]);
    }
  }

  /** Ids printed after the j-th and k-th increment coincide only for one clock reading and a full turn of the counter. */
  lemma IdsCoincideIff(host: string, pid: int, t1: int, j: int, t2: int, k: int)
    ensures FallbackId(host, pid, t1, Int64(j)) == FallbackId(host, pid, t2, Int64(k)) <==>
            t1 == t2 && (j - k) % TWO_64 == 0
  {
    FallbackIdInjective(host, pid, t1, Int64(j), t2, Int64(k));
    Int64Repeats(j, k);
  }

  /**
   Over every interleaving of at most 2^64 callers, any two identifiers issued by one process differ,
   whatever the clock returned.
   */
  lemma FallbackIdsAreDistinct(host: string, pid: int, callers: nat, steps: seq<Step>, i: nat, j: nat)
    requires callers <= TWO_64
    requires i < callers && j < callers && i != j
    ensures var end := Run(Start(host, pid, callers), steps).callers;
            && |end| == callers
            && (end[i].Issued? && end[j].Issued? ==> end[i].id != end[j].id)
  {
    var p := Start(host, pid, callers);
    NobodyStarted(callers);
    RunKeepsInv(p, steps);
    var q := Run(p, steps);
    if q.callers[i].Issued? && q.callers[j].Issued? {
      IssuedTwiceDiffer(q, i, j);
    }
  }

  lemma IssuedTwiceDiffer(q: Pool, i: nat, j: nat)
    requires Inv(q) && |q.callers| <= TWO_64
    requires i < |q.callers| && j < |q.callers| && i != j && q.callers[i].Issued? && q.callers[j].Issued?
    ensures q.callers[i].id != q.callers[j].id
  {
    var a, b := q.callers[i], q.callers[j];
    assert Ordinal(a) != Ordinal(b);
    NoFullTurn(a.k, b.k);
    IdsCoincideIff(q.host, q.pid, a.now, a.k, b.now, b.k);
  }

  /**
   A caller whose two steps are not interleaved moves the counter and gets its identifier as
   IdSource.NewRequestId does when no UUID could be made.
   */
  lemma UninterruptedCaller(p: Pool, i: nat, now: int)
    requires i < |p.callers| && p.callers[i].Waiting?
    requires p.counter == Int64(p.taken)
    ensures var end := Run(p, [Add(i), Print(i, now)]);
            var n := Int64(p.taken + 1);
            && end.counter == n
            && end.taken == p.taken + 1
            && end.callers == p.callers[i := Issued(p.taken + 1, now, Generated(None, p.host, p.pid, now, n))]
  {
    var k, id := p.taken + 1, FallbackId(p.host, p.pid, now, Int64(p.taken + 1));
    TwoSteps(p, Add(i), Print(i, now));
    AddStep(p, i);
    var held := p.(counter := Int64(k), taken := k, callers := p.callers[i := Holding(k)]);
    PrintStep(held, i, now, k);
    assert held.callers[i := Issued(k, now, id)] == p.callers[i := Issued(k, now, id)];
  }

  lemma AddStep(p: Pool, i: nat)
    requires i < |p.callers| && p.callers[i].Waiting? && p.counter == Int64(p.taken)
    ensures var k := p.taken + 1;
            Apply(p, Add(i)) == p.(counter := Int64(k), taken := k, callers := p.callers[i := Holding(k)])
  {
    Int64Next(p.taken);
  }

  lemma PrintStep(p: Pool, i: nat, now: int, k: nat)
    requires i < |p.callers| && p.callers[i] == Holding(k)
    ensures Apply(p, Print(i, now)) ==
            p.(callers := p.callers[i := Issued(k, now, FallbackId(p.host, p.pid, now, Int64(k)))])
  {
  }

  lemma TwoSteps(p: Pool, a: Step, b: Step)
    ensures Run(p, [a, b]) == Apply(Apply(p, a), b)
  {
    assert [a, b][1..] == [b] && [b][1..] == [];
    assert Run(Apply(p, a), [b]) == Run(Apply(Apply(p, a), b), []);
  }
}
