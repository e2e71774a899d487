/** The take driver: an upstream of search events read through a cursor,
    and a taker.  Each call hands out a buffered unit as a NonMatch if there
    is one, otherwise consumes exactly one upstream event. */
module TakeIterators {
  import opened Lib
  import opened OptFifos
  import opened Patterns
  import opened Takers
  import opened SearchIterators

  /** Every match of the upstream has a unit, so that a demoted match has a
      first unit to hand out. */
  predicate Takeable(es: seq<PatternSearchType>)
  {
    forall i :: 0 <= i < |es| ==> es[i].Match? ==> es[i].data != []
  }

  /** `next`: a buffered unit comes first, as a NonMatch; otherwise one
      upstream event is handled, and at the end of the upstream there is
      nothing more. */
  function TakeNext(count: nat, es: seq<PatternSearchType>, pos: nat, found: nat, buffer: Option<seq<bv8>>)
    : (r: (Option<PatternSearchType>, nat, nat, Option<seq<bv8>>))
    requires pos <= |es| && Takeable(es)
    ensures pos <= r.1 <= |es| && found <= r.2
    ensures r.0.None? <==> pos == |es| && Queued(buffer) == []
    ensures r.0.None? ==> r.1 == pos && r.2 == found && r.3.None?
    ensures r.0.Some? ==> r.1 == pos + 1 || (r.1 == pos && r.2 == found && BufferSize(r.3) < BufferSize(buffer))
  {
    var (x, b2) := FifoGet(buffer);
    if x.Some? then (Some(NonMatch(x.value)), pos, found, b2)
    else if pos == |es| then (None, pos, found, b2)
    else
      var (y, f3, b3) := TakeStep(count, found, b2, es[pos]);
      (Some(y), pos + 1, f3, b3)
  }

  /** All events `next` hands out from this state on, up to the first None. */
  function TakeRun(count: nat, es: seq<PatternSearchType>, pos: nat, found: nat, buffer: Option<seq<bv8>>)
    : seq<PatternSearchType>
    requires pos <= |es| && Takeable(es)
    decreases |es| - pos, BufferSize(buffer)
  {
    var (x, pos2, found2, b2) := TakeNext(count, es, pos, found, buffer);
    if x.None? then [] else [x.value] + TakeRun(count, es, pos2, found2, b2)
  }

  // ---------------------------------------------------------------------
  // The reference: each event on its own.
  // ---------------------------------------------------------------------

  /** What one event becomes: a demoted match its units one NonMatch each,
      anything else itself. */
  function TakeEvent(count: nat, found: nat, e: PatternSearchType): seq<PatternSearchType>
  {
    if Demoted(count, found, e) then NonMatches(e.data) else [e]
  }

  /** The events from `pos` on, each taken on its own, in order, with `found`
      matches counted before `pos`. */
  function Taken(count: nat, es: seq<PatternSearchType>, pos: nat, found: nat): seq<PatternSearchType>
    requires pos <= |es|
    decreases |es| - pos
  {
    if pos == |es| then []
    else TakeEvent(count, found, es[pos]) + Taken(count, es, pos + 1, found + MatchCount(es[pos]))
  }

  /** Buffered units are handed out one per call, as NonMatch events, before
      anything else. */
  lemma {:induction false} TakeRunDrainsBuffer(count: nat, es: seq<PatternSearchType>, pos: nat, found: nat, v: seq<bv8>)
    requires pos <= |es| && Takeable(es)
    ensures TakeRun(count, es, pos, found, Some(v)) == NonMatches(v) + TakeRun(count, es, pos, found, None)
  {
    if v != [] {
      TakeRunDrainsBuffer(count, es, pos, found, v[1..]);
      AppendAssoc([NonMatch(v[0])], NonMatches(v[1..]), TakeRun(count, es, pos, found, None));
    } else {
      assert TakeNext(count, es, pos, found, Some(v)) == TakeNext(count, es, pos, found, None);
    }
  }

  /** From a disarmed buffer the driver hands out the first event's output
      and is back at a disarmed buffer after it. */
  lemma TakeRunEvent(count: nat, es: seq<PatternSearchType>, pos: nat, found: nat, found2: nat)
    requires pos < |es| && Takeable(es) && found2 == found + MatchCount(es[pos])
    ensures TakeRun(count, es, pos, found, None)
         == TakeEvent(count, found, es[pos]) + TakeRun(count, es, pos + 1, found2, None)
  {
    var e := es[pos];
    var (y, f, b) := TakeStep(count, found, None, e);
    assert TakeRun(count, es, pos, found, None) == [y] + TakeRun(count, es, pos + 1, found2, b);
    if Demoted(count, found, e) {
      TakeRunDrainsBuffer(count, es, pos + 1, found2, e.data[1..]);
      AppendAssoc([NonMatch(e.data[0])], NonMatches(e.data[1..]), TakeRun(count, es, pos + 1, found2, None));
    }
  }

  /** From a disarmed buffer the driver hands out every event's output in
      order: the matches within the count as they are, every later match as
      consecutive NonMatch events of its units with nothing in between. */
  lemma {:induction false} TakeRunIsTaken(count: nat, es: seq<PatternSearchType>, pos: nat, found: nat)
    requires pos <= |es| && Takeable(es)
    ensures TakeRun(count, es, pos, found, None) == Taken(count, es, pos, found)
    decreases |es| - pos
  {
    if pos < |es| {
      var found2 := found + MatchCount(es[pos]);
      TakeRunIsTaken(count, es, pos + 1, found2);
      TakenStep(count, es, pos, found, found2);
    } else {
      TakenEnd(count, es, pos, found);
    }
  }

  lemma TakenEnd(count: nat, es: seq<PatternSearchType>, pos: nat, found: nat)
    requires pos == |es| && Takeable(es)
    ensures TakeRun(count, es, pos, found, None) == Taken(count, es, pos, found) == []
  {
  }

  lemma TakenStep(count: nat, es: seq<PatternSearchType>, pos: nat, found: nat, found2: nat)
    requires pos < |es| && Takeable(es) && found2 == found + MatchCount(es[pos])
    requires TakeRun(count, es, pos + 1, found2, None) == Taken(count, es, pos + 1, found2)
    ensures TakeRun(count, es, pos, found, None) == Taken(count, es, pos, found)
  {
    TakeRunEvent(count, es, pos, found, found2);
  }

  // ---------------------------------------------------------------------
  // What the reference keeps.
  // ---------------------------------------------------------------------

  /** The units of the events from `pos` on. */
  function UnitsFrom(es: seq<PatternSearchType>, pos: nat): seq<bv8>
    requires pos <= |es|
    decreases |es| - pos
  {
    if pos == |es| then [] else Units(es[pos]) + UnitsFrom(es, pos + 1)
  }

  /** Taking changes no unit: the units handed out are the upstream's units
      in order. */
  lemma {:induction false} TakenKeepsUnits(count: nat, es: seq<PatternSearchType>, pos: nat, found: nat)
    requires pos <= |es|
    ensures Flatten(Taken(count, es, pos, found)) == UnitsFrom(es, pos)
    decreases |es| - pos
  {
    if pos < |es| {
      var found2 := found + MatchCount(es[pos]);
      TakenKeepsUnits(count, es, pos + 1, found2);
      TakenKeepsUnitsStep(count, es, pos, found, found2);
    }
  }

  lemma TakenKeepsUnitsStep(count: nat, es: seq<PatternSearchType>, pos: nat, found: nat, found2: nat)
    requires pos < |es| && found2 == found + MatchCount(es[pos])
    requires Flatten(Taken(count, es, pos + 1, found2)) == UnitsFrom(es, pos + 1)
    ensures Flatten(Taken(count, es, pos, found)) == UnitsFrom(es, pos)
  {
    var head, tail := TakeEvent(count, found, es[pos]), Taken(count, es, pos + 1, found2);
    FlattenAppend(head, tail);
    EventKeepsUnits(count, found, es[pos]);
  }

  lemma EventKeepsUnits(count: nat, found: nat, e: PatternSearchType)
    ensures Flatten(TakeEvent(count, found, e)) == Units(e)
  {
    if Demoted(count, found, e) {
      FlattenNonMatches(e.data);
    } else {
      assert [e][1..] == [];
    }
  }

  /** The units of a whole upstream, read from the start, are its flattening. */
  lemma {:induction false} UnitsFromFlatten(es: seq<PatternSearchType>, pos: nat)
    requires pos <= |es|
    ensures UnitsFrom(es, pos) == Flatten(es[pos..])
    decreases |es| - pos
  {
    if pos < |es| {
      UnitsFromFlatten(es, pos + 1);
      assert es[pos..][1..] == es[pos + 1..];
      assert es[pos..][0] == es[pos];
    }
  }

  /** The matches of an event stream, in order. */
  function MatchesOf(es: seq<PatternSearchType>): seq<PatternSearchType>
  {
    if es == [] then [] else (if es[0].Match? then [es[0]] else []) + MatchesOf(es[1..])
  }

  lemma {:induction false} MatchesOfAppend(a: seq<PatternSearchType>, b: seq<PatternSearchType>)
    ensures MatchesOf(a + b) == MatchesOf(a) + MatchesOf(b)
  {
    if a == [] {
      assert a + b == b;
    } else {
      assert (a + b)[1..] == a[1..] + b;
      MatchesOfAppend(a[1..], b);
      AppendAssoc(if a[0].Match? then [a[0]] else [], MatchesOf(a[1..]), MatchesOf(b));
    }
  }

  lemma {:induction false} MatchesOfNonMatches(units: seq<bv8>)
    ensures MatchesOf(NonMatches(units)) == []
  {
    if units != [] {
      assert NonMatches(units)[1..] == NonMatches(units[1..]);
      MatchesOfNonMatches(units[1..]);
    }
  }

  /** The matches of the upstream from `pos` on. */
  function MatchesFrom(es: seq<PatternSearchType>, pos: nat): seq<PatternSearchType>
    requires pos <= |es|
    decreases |es| - pos
  {
    if pos == |es| then []
    else (if es[pos].Match? then [es[pos]] else []) + MatchesFrom(es, pos + 1)
  }

  /** The first `n` elements, or all when there are fewer. */
  function Keep<T>(s: seq<T>, n: int): (r: seq<T>)
    ensures |r| <= |s| && (n <= 0 ==> r == []) && (0 <= n ==> |r| <= n)
  {
    if n <= 0 then [] else if n >= |s| then s else s[..n]
  }

  lemma KeepCons<T>(x: T, s: seq<T>, n: int)
    requires n > 0
    ensures Keep([x] + s, n) == [x] + Keep(s, n - 1)
  {
    if n - 1 < |s| {
      assert ([x] + s)[..n] == [x] + s[..n - 1];
    }
  }

  /** Exactly the first `count` matches of the upstream, less those already
      found, come out, unchanged and in order. */
  lemma {:induction false} TakenKeepsFirstMatches(count: nat, es: seq<PatternSearchType>, pos: nat, found: nat)
    requires pos <= |es|
    ensures MatchesOf(Taken(count, es, pos, found)) == Keep(MatchesFrom(es, pos), count - found)
    decreases |es| - pos
  {
    if pos < |es| {
      var found2 := found + MatchCount(es[pos]);
      TakenKeepsFirstMatches(count, es, pos + 1, found2);
      TakenMatchesStep(count, es, pos, found, found2);
    }
  }

  lemma TakenMatchesStep(count: nat, es: seq<PatternSearchType>, pos: nat, found: nat, found2: nat)
    requires pos < |es| && found2 == found + MatchCount(es[pos])
    requires MatchesOf(Taken(count, es, pos + 1, found2)) == Keep(MatchesFrom(es, pos + 1), count - found2)
    ensures MatchesOf(Taken(count, es, pos, found)) == Keep(MatchesFrom(es, pos), count - found)
  {
    var e := es[pos];
    var head, tail := TakeEvent(count, found, e), Taken(count, es, pos + 1, found2);
    var rest := MatchesFrom(es, pos + 1);
    MatchesOfAppend(head, tail);
    if Demoted(count, found, e) {
      MatchesOfNonMatches(e.data);
      assert MatchesFrom(es, pos) == [e] + rest;
    } else if e.Match? {
      assert MatchesOf(head) == [e] by {
        assert head[1..] == [];
      }
      assert MatchesFrom(es, pos) == [e] + rest;
      KeepCons(e, rest, count - found);
    } else {
      assert MatchesOf(head) == [] by {
        assert head[1..] == [];
      }
      assert MatchesFrom(es, pos) == [] + rest;
    }
  }

  /** Taking from the start: the units are the upstream's, in order, and the
      matches that come out are the first `count` of the upstream. */
  lemma TakeRunFromStart(count: nat, es: seq<PatternSearchType>)
    requires Takeable(es)
    ensures Flatten(TakeRun(count, es, 0, 0, None)) == Flatten(es)
    ensures MatchesOf(TakeRun(count, es, 0, 0, None)) == Keep(MatchesFrom(es, 0), count)
    ensures |MatchesOf(TakeRun(count, es, 0, 0, None))| <= count
  {
    TakeRunIsTaken(count, es, 0, 0);
    TakenKeepsUnits(count, es, 0, 0);
    UnitsFromFlatten(es, 0);
    assert es[0..] == es;
    TakenKeepsFirstMatches(count, es, 0, 0);
  }

  /** A search's events can always be taken: each match is as long as the
      search pattern, which is not empty. */
  lemma SearchIsTakeable(q: Pattern, input: seq<bv8>)
    requires q.values != []
    ensures Takeable(Search(q, input))
  {
    var es := Search(q, input);
    SearchIsScan(q, input);
    forall i | 0 <= i < |es| && es[i].Match?
      ensures es[i].data != []
    {
      AllValidAt(q.values, es, 0, i);
    }
  }

  class PatternTakeIterator {
    const events: seq<PatternSearchType>
    var pos: nat
    const taker: Taker

    predicate Valid()
      reads this
    {
      pos <= |events| && Takeable(events)
    }

    constructor(events: seq<PatternSearchType>, count: nat)
      requires Takeable(events)
      ensures Valid() && this.events == events && pos == 0
      ensures fresh(taker) && fresh(taker.buffer)
      ensures taker.count == count && taker.found == 0 && taker.buffer.data.None?
    {
      this.events := events;
      pos := 0;
      taker := new Taker(count);
    }

    method Next() returns (r: Option<PatternSearchType>)
      requires Valid()
      modifies this, taker, taker.buffer
      ensures Valid()
      ensures (r, pos, taker.found, taker.buffer.data)
           == TakeNext(taker.count, events, old(pos), old(taker.found), old(taker.buffer.data))
    {
      var x := taker.HandleExistingData();
      if x.Some? {
        return Some(NonMatch(x.value));
      }
      if pos < |events| {
        var e := events[pos];
        pos := pos + 1;
        var y := taker.HandleNext(e);
        return Some(y);
      }
      return None;
    }
  }
}
