/** The replace driver: an upstream of search events read through a cursor,
    and a replacer.  Each call hands out a buffered unit if there is one,
    otherwise consumes exactly one upstream event. */
module ReplaceIterators {
  import opened Lib
  import opened MaskedBytes
  import opened Patterns
  import opened OptFifos
  import opened Replacers
  import opened SearchIterators

  /** Every match of the upstream has a unit or the pattern does, so that
      its replacement has a first unit to hand out. */
  predicate Replaceable(p: Pattern, es: seq<PatternSearchType>)
  {
    forall i :: 0 <= i < |es| ==> es[i].Match? ==> es[i].data != [] || p.values != []
  }

  /** `next`: a buffered unit comes first; otherwise one upstream event is
      handled, and at the end of the upstream there is nothing more. */
  function ReplaceNext(p: Pattern, es: seq<PatternSearchType>, pos: nat, buffer: Option<seq<bv8>>)
    : (r: (Option<Result<bv8, Error>>, nat, Option<seq<bv8>>))
    requires pos <= |es| && Replaceable(p, es)
    ensures pos <= r.1 <= |es|
    ensures r.0.None? <==> pos == |es| && Queued(buffer) == []
    ensures r.0.None? ==> r.1 == pos && r.2.None?
    ensures r.0.Some? ==> r.1 == pos + 1 || (r.1 == pos && BufferSize(r.2) < BufferSize(buffer))
  {
    var (x, b2) := FifoGet(buffer);
    if x.Some? then (Some(Ok(x.value)), pos, b2)
    else if pos == |es| then (None, pos, b2)
    else
      var (y, b3) := HandleStep(p, b2, es[pos]);
      (Some(y), pos + 1, b3)
  }

  /** All items `next` hands out from this state on, up to the first None. */
  function ReplaceRun(p: Pattern, es: seq<PatternSearchType>, pos: nat, buffer: Option<seq<bv8>>): seq<Result<bv8, Error>>
    requires pos <= |es| && Replaceable(p, es)
    decreases |es| - pos, BufferSize(buffer)
  {
    var (x, pos2, b2) := ReplaceNext(p, es, pos, buffer);
    if x.None? then [] else [x.value] + ReplaceRun(p, es, pos2, b2)
  }

  // ---------------------------------------------------------------------
  // The reference: each event on its own.
  // ---------------------------------------------------------------------

  /** Units handed out as successes. */
  function Oks(v: seq<bv8>): (r: seq<Result<bv8, Error>>)
    ensures |r| == |v|
  {
    if v == [] then [] else [Ok(v[0])] + Oks(v[1..])
  }

  /** What one event becomes: a NonMatch unit as it is, a match as its whole
      replacement, a replacement that is not defined as one error. */
  function EventOutput(p: Pattern, e: PatternSearchType): seq<Result<bv8, Error>>
  {
    match e
    case NonMatch(b) => [Ok(b)]
    case Match(data, _) =>
      match ReplaceResult(p, data)
      case Ok(v) => Oks(v)
      case Err(_) => [Err(ReplaceNotDefined)]
  }

  /** The events from `pos` on, each replaced on its own, in order. */
  function Replaced(p: Pattern, es: seq<PatternSearchType>, pos: nat): seq<Result<bv8, Error>>
    requires pos <= |es|
    decreases |es| - pos
  {
    if pos == |es| then [] else EventOutput(p, es[pos]) + Replaced(p, es, pos + 1)
  }

  /** Buffered units are handed out one per call before anything else. */
  lemma {:induction false} RunDrainsBuffer(p: Pattern, es: seq<PatternSearchType>, pos: nat, v: seq<bv8>)
    requires pos <= |es| && Replaceable(p, es)
    ensures ReplaceRun(p, es, pos, Some(v)) == Oks(v) + ReplaceRun(p, es, pos, None)
  {
    if v != [] {
      RunDrainsBuffer(p, es, pos, v[1..]);
      AppendAssoc([Ok(v[0])], Oks(v[1..]), ReplaceRun(p, es, pos, None));
    } else {
      assert ReplaceNext(p, es, pos, Some(v)) == ReplaceNext(p, es, pos, None);
    }
  }

  /** From a disarmed buffer the driver hands out the first event's output
      and is back at a disarmed buffer after it. */
  lemma RunEvent(p: Pattern, es: seq<PatternSearchType>, pos: nat)
    requires pos < |es| && Replaceable(p, es)
    ensures ReplaceRun(p, es, pos, None) == EventOutput(p, es[pos]) + ReplaceRun(p, es, pos + 1, None)
  {
    var e := es[pos];
    var (y, b) := HandleStep(p, None, e);
    assert ReplaceRun(p, es, pos, None) == [y] + ReplaceRun(p, es, pos + 1, b);
    if e.Match? && ReplaceResult(p, e.data).Ok? {
      var v := ReplaceResult(p, e.data).value;
      RunDrainsBuffer(p, es, pos + 1, v[1..]);
      AppendAssoc([Ok(v[0])], Oks(v[1..]), ReplaceRun(p, es, pos + 1, None));
    }
  }

  /** From a disarmed buffer the driver hands out every event's output in
      order: a match's replacement as consecutive units with nothing in
      between, an undefined replacement as a single error after which the
      next event is handled. */
  lemma {:induction false} ReplaceRunIsReplaced(p: Pattern, es: seq<PatternSearchType>, pos: nat)
    requires pos <= |es| && Replaceable(p, es)
    ensures ReplaceRun(p, es, pos, None) == Replaced(p, es, pos)
    decreases |es| - pos
  {
    if pos < |es| {
      ReplaceRunIsReplaced(p, es, pos + 1);
      ReplacedStep(p, es, pos);
    } else {
      ReplacedEnd(p, es, pos);
    }
  }

  lemma ReplacedEnd(p: Pattern, es: seq<PatternSearchType>, pos: nat)
    requires pos == |es| && Replaceable(p, es)
    ensures ReplaceRun(p, es, pos, None) == Replaced(p, es, pos) == []
  {
  }

  lemma ReplacedStep(p: Pattern, es: seq<PatternSearchType>, pos: nat)
    requires pos < |es| && Replaceable(p, es)
    requires ReplaceRun(p, es, pos + 1, None) == Replaced(p, es, pos + 1)
    ensures ReplaceRun(p, es, pos, None) == Replaced(p, es, pos)
  {
    RunEvent(p, es, pos);
  }

  /** A search's events can always be replaced: each match is as long as the
      search pattern, which is not empty. */
  lemma SearchIsReplaceable(p: Pattern, q: Pattern, input: seq<bv8>)
    requires q.values != []
    ensures Replaceable(p, Search(q, input))
  {
    var es := Search(q, input);
    SearchIsScan(q, input);
    forall i | 0 <= i < |es| && es[i].Match?
      ensures es[i].data != []
    {
      AllValidAt(q.values, es, 0, i);
    }
  }

  class PatternReplaceIterator {
    const events: seq<PatternSearchType>
    var pos: nat
    const replacer: Replacer

    predicate Valid()
      reads this
    {
      pos <= |events| && Replaceable(replacer.pattern, events)
    }

    constructor(events: seq<PatternSearchType>, p: Pattern)
      requires Replaceable(p, events)
      ensures Valid() && this.events == events && pos == 0
      ensures fresh(replacer) && fresh(replacer.buffer)
      ensures replacer.pattern == p && replacer.buffer.data.None?
    {
      this.events := events;
      pos := 0;
      replacer := new Replacer(p);
    }

    method Next() returns (r: Option<Result<bv8, Error>>)
      requires Valid()
      modifies this, replacer.buffer
      ensures Valid()
      ensures (r, pos, replacer.buffer.data)
           == ReplaceNext(replacer.pattern, events, old(pos), old(replacer.buffer.data))
    {
      var x := replacer.HandleExistingData();
      if x.Some? {
        return Some(Ok(x.value));
      }
      if pos < |events| {
        var e := events[pos];
        pos := pos + 1;
        var y := replacer.HandleNext(e);
        return Some(y);
      }
      return None;
    }
  }
}
