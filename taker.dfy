/** The taker: lets the first `count` matches of a search through and turns
    every later match back into its units, handed out as NonMatch events one
    per request. */
module Takers {
  import opened Lib
  import opened OptFifos

  /** Whether an event is a match, as a count. */
  function MatchCount(e: PatternSearchType): nat
  {
    if e.Match? then 1 else 0
  }

  /** Whether a match is demoted: it is beyond the first `count`, counting
      itself among the `found` so far. */
  predicate Demoted(count: nat, found: nat, e: PatternSearchType)
  {
    e.Match? && found + 1 > count
  }

  /** What `handle_next` needs so as not to panic: a demoted match has a
      first unit (`remove(0)` on an empty vector panics) and the buffer is
      disarmed (`set` asserts it). */
  predicate CanTake(count: nat, found: nat, buffer: Option<seq<bv8>>, e: PatternSearchType)
  {
    Demoted(count, found, e) ==> buffer.None? && e.data != []
  }

  /** `handle_next`: every match is counted; one within the count passes
      through with the same data and index, a later one hands out its first
      unit as a NonMatch and buffers the others; a NonMatch passes through. */
  function TakeStep(count: nat, found: nat, buffer: Option<seq<bv8>>, e: PatternSearchType)
    : (r: (PatternSearchType, nat, Option<seq<bv8>>))
    requires CanTake(count, found, buffer, e)
    ensures r.1 == found + MatchCount(e)
    ensures !Demoted(count, found, e) ==> r == (e, r.1, buffer)
    ensures Demoted(count, found, e) ==> r.0 == NonMatch(e.data[0]) && r.1 > count && r.2.Some?
  {
    match e
    case NonMatch(_) => (e, found, buffer)
    case Match(data, index) =>
      if found + 1 > count then (NonMatch(data[0]), found + 1, Some(data[1..]))
      else (Match(data, index), found + 1, buffer)
  }

  /** Nothing is lost, added or reordered: the units handed out followed by
      the units buffered are the event's units followed by those buffered
      before. */
  lemma TakeStepConserves(count: nat, found: nat, buffer: Option<seq<bv8>>, e: PatternSearchType)
    requires CanTake(count, found, buffer, e)
    ensures var r := TakeStep(count, found, buffer, e);
      Units(r.0) + Queued(r.2) == Units(e) + Queued(buffer)
  {
    if Demoted(count, found, e) {
      assert [e.data[0]] + e.data[1..] == e.data;
    }
  }

  class Taker {
    var found: nat
    const count: nat
    const buffer: OptFifo<bv8>

    /** `new`: no match seen yet and the buffer disarmed. */
    constructor(count: nat)
      ensures this.count == count && found == 0
      ensures fresh(buffer) && buffer.data.None?
    {
      found := 0;
      this.count := count;
      buffer := new OptFifo();
    }

    /** `handle_existing_data`: the buffer's `get`. */
    method HandleExistingData() returns (r: Option<bv8>)
      modifies buffer
      ensures (r, buffer.data) == FifoGet(old(buffer.data))
    {
      r := buffer.Get();
    }

    /** `handle_next`: handles one search event. */
    method HandleNext(e: PatternSearchType) returns (r: PatternSearchType)
      requires CanTake(count, found, buffer.data, e)
      modifies this, buffer
      ensures (r, found, buffer.data) == TakeStep(count, old(found), old(buffer.data), e)
    {
      match e
      case Match(data, index) =>
        found := found + 1;
        if found > count {
          var b := data[0];
          buffer.Set(data[1..]);
          return NonMatch(b);
        } else {
          return Match(data, index);
        }
      case NonMatch(_) =>
        return e;
    }
  }
}
