/**
 The log writer that falls back to a second sink (core/internal/logger/fallback.go).

 A sink is adversarial: each call takes some octets and reports some count and success.
 */
module FallbackWriter {
  import opened Counter64

  /** What one Write call on a sink reports, and how much it really took. */
  datatype Reply = Reply(n: int, ok: bool, took: nat)

  /** The io.Writer contract: the count is true, within bounds, and a short count comes with an error. */
  predicate Honest(r: Reply, p: string) {
    r.n == r.took && r.n <= |p| && (r.n < |p| ==> !r.ok)
  }

  function Taken(r: Reply, p: string): (s: string)
    ensures s <= p
  {
    p[..if r.took <= |p| then r.took else |p|]
  }

  // ---------------------------------------------------------------- one call

  function Clamp(n: int, bound: nat): (c: nat)
    ensures c <= bound
  {
    if n < 0 then 0 else if n > bound then bound else n
  }

  /** What is left for the fallback when the primary sink answers `first`. */
  function Remaining(p: string, first: Reply): string {
    p[Clamp(first.n, |p|)..]
  }

  /** The fallback was needed and did not take all it was given without an error. */
  predicate Dropped(p: string, first: Reply, second: Reply) {
    !first.ok && !(second.ok && second.n == |Remaining(p, first)|)
  }

  function Reported(p: string, first: Reply, second: Reply): int {
    if first.ok then first.n
    else if Dropped(p, first, second) then |p|
    else Clamp(first.n, |p|) + second.n
  }

  /** The octets of the record that went out, primary first. */
  function Delivered(p: string, first: Reply, second: Reply): string {
    Taken(first, p) + if first.ok then "" else Taken(second, Remaining(p, first))
  }

  /** What the primary claims to have taken, brought between 0 and the length of the record. */
  function Claimed(p: string, first: Reply): (n: nat)
    ensures n <= |p|
  {
    if first.n <= 0 then 0 else if first.n >= |p| then |p| else first.n
  }

  /**
   A record is counted exactly unless the primary succeeds, or the fallback succeeds with all that the
   primary left by its own account; with sinks that keep the contract, unless the two took it all.
   */
  lemma CountedUnlessTaken(p: string, first: Reply, second: Reply)
    ensures !Dropped(p, first, second) <==> first.ok || (second.ok && second.n == |p| - Claimed(p, first))
    ensures Honest(first, p) && (!first.ok ==> Honest(second, Remaining(p, first))) ==>
              (!Dropped(p, first, second) <==> first.ok || (second.ok && first.n + second.n == |p|))
    ensures Remaining(p, first) == p[Claimed(p, first)..]
  {
  }

  /** The caller is told what the primary claims if that succeeds, and the full length otherwise. */
  lemma ReportedCount(p: string, first: Reply, second: Reply)
    ensures Reported(p, first, second) == if first.ok then first.n else |p|
  {
  }

  /** The caller is told the full length except when the primary claims success with another count. */
  lemma FullLengthReported(p: string, first: Reply, second: Reply)
    ensures Reported(p, first, second) == |p| <==> first.ok ==> first.n == |p|
  {
  }

  /**
   With sinks that keep the contract, what went out is a prefix of the record, nothing twice and in
   order; the full length is reported; and a record that did not go out in full is counted.
   */
  lemma RecordIsConserved(p: string, first: Reply, second: Reply)
    requires Honest(first, p)
    requires !first.ok ==> Honest(second, Remaining(p, first))
    ensures Delivered(p, first, second) <= p
    ensures Reported(p, first, second) == |p|
    ensures Delivered(p, first, second) != p <==> Dropped(p, first, second) && first.n + second.n < |p|
  {
  }

  /** A fallback that takes everything and still reports an error: the record is complete, yet counted. */
  lemma CountedYetComplete()
    ensures var first, second := Reply(0, false, 0), Reply(1, false, 1);
            && Honest(first, "x") && Honest(second, Remaining("x", first))
            && Delivered("x", first, second) == "x"
            && Dropped("x", first, second)
  {
    assert "x"[0..] == "x" && "x"[..0] == "" && "x"[..1] == "x";
  }

  /** A primary that claims success with a short count: the caller is told that count. */
  lemma FalseSuccessIsReported(second: Reply)
    ensures Reported("xy", Reply(1, true, 1), second) == 1
  {
  }

  // ---------------------------------------------------------------- the writer

  class Sink {
    const plan: nat -> Reply
    var calls: nat
    var received: string

    constructor (plan: nat -> Reply)
      ensures this.plan == plan && calls == 0 && received == ""
    {
      this.plan := plan;
      calls, received := 0, "";
    }

    method Write(p: string) returns (n: int, ok: bool)
      modifies this
      ensures calls == old(calls) + 1
      ensures n == plan(old(calls)).n && ok == plan(old(calls)).ok
      ensures received == old(received) + Taken(plan(old(calls)), p)
    {
      var reply := plan(calls);
      received := received + Taken(reply, p);
      calls := calls + 1;
      n, ok := reply.n, reply.ok;
    }
  }

  class LogWriter {
    const primary: Sink
    const fallback: Sink
    var drops: int

    constructor (primary: Sink, fallback: Sink)
      ensures this.primary == primary && this.fallback == fallback && drops == 0
    {
      this.primary, this.fallback, drops := primary, fallback, 0;
    }

    /**
     Write; it has no error result.  Both sinks may be the same one, which then answers the second call
     with its next reply and receives both parts.
     */
    method Write(p: string) returns (n: int)
      modifies this`drops, primary, fallback
      ensures var first := primary.plan(old(primary.calls));
              var second := fallback.plan(old(fallback.calls) + if primary == fallback then 1 else 0);
              var rest := if first.ok then "" else Taken(second, Remaining(p, first));
              && n == (if first.ok then first.n else |p|)
              && n == Reported(p, first, second)
              && drops == (if first.ok || (second.ok && second.n == |p| - Claimed(p, first)) then old(drops)
                           else Int64(old(drops) + 1))
              && (primary != fallback ==>
                   && primary.received == old(primary.received) + Taken(first, p)
                   && primary.calls == old(primary.calls) + 1
                   && fallback.received == old(fallback.received) + rest
                   && fallback.calls == old(fallback.calls) + if first.ok then 0 else 1)
              && (primary == fallback ==>
                   && primary.received == old(primary.received) + Delivered(p, first, second)
                   && primary.calls == old(primary.calls) + if first.ok then 1 else 2)
    {
      var pn, pok := primary.Write(p);
      if pok {
        return pn;
      }
      if pn < 0 {
        pn := 0;
      }
      if pn > |p| {
        pn := |p|;
      }
      var remaining := p[pn..];
      var fn, fok := fallback.Write(remaining);
      if fok && fn == |remaining| {
        return pn + fn;
      }
      drops := Int64(drops + 1);
      return |p|;
    }
  }
}
