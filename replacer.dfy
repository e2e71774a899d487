/** The replacer: turns search events into output units, overwriting every
    match with the replace pattern and buffering the rest of the replaced
    match to be handed out unit by unit. */
module Replacers {
  import opened Lib
  import opened MaskedBytes
  import opened Patterns
  import opened OptFifos

  /** What `handle_next` needs so as not to panic: a match that is replaced
      is only handled while the buffer is disarmed (`set` asserts it) and its
      replacement has a first unit to hand out (`remove(0)` on an empty
      vector panics).  A replacement that fails returns before either. */
  predicate CanHandle(p: Pattern, buffer: Option<seq<bv8>>, e: PatternSearchType)
  {
    e.Match? && ReplaceResult(p, e.data).Ok? ==> buffer.None? && (e.data != [] || p.values != [])
  }

  /** A replacement is empty exactly when both the matched data and the
      pattern are, so `CanHandle` asks for no more than a first unit. */
  lemma ReplaceEmptyIff(p: Pattern, data: seq<bv8>)
    requires ReplaceResult(p, data).Ok?
    ensures ReplaceResult(p, data).value == [] <==> data == [] && p.values == []
  {
    ReplaceMatches(p, data);
  }

  /** `handle_next`: a NonMatch unit is handed out as it is and the buffer is
      left alone.  A match, whatever its index, is replaced: the replacement's
      first unit is handed out and all the others are buffered in order.  A
      replacement that is not defined is reported and the buffer left alone. */
  function HandleStep(p: Pattern, buffer: Option<seq<bv8>>, e: PatternSearchType): (r: (Result<bv8, Error>, Option<seq<bv8>>))
    requires CanHandle(p, buffer, e)
    ensures e.NonMatch? ==> r == (Ok(e.unit), buffer)
    ensures e.Match? && ReplaceResult(p, e.data).Ok? ==> r.0.Ok? && r.1.Some?
    ensures e.Match? && ReplaceResult(p, e.data).Err? ==> r == (Err(ReplaceNotDefined), buffer)
  {
    match e
    case NonMatch(b) => (Ok(b), buffer)
    case Match(data, _) =>
      match ReplaceResult(p, data)
      case Ok(v) => (Ok(v[0]), Some(v[1..]))
      case Err(_) => (Err(ReplaceNotDefined), buffer)
  }

  /** A replaced match is split into the unit handed out and the units
      buffered, with nothing lost, added or reordered. */
  lemma HandleStepSplits(p: Pattern, buffer: Option<seq<bv8>>, e: PatternSearchType)
    requires CanHandle(p, buffer, e) && e.Match? && ReplaceResult(p, e.data).Ok?
    ensures [HandleStep(p, buffer, e).0.value] + HandleStep(p, buffer, e).1.value == ReplaceResult(p, e.data).value
  {
    var v := ReplaceResult(p, e.data).value;
    assert [v[0]] + v[1..] == v;
  }

  class Replacer {
    const pattern: Pattern
    const buffer: OptFifo<bv8>

    /** `new`: the buffer starts disarmed. */
    constructor(p: Pattern)
      ensures pattern == p && fresh(buffer) && buffer.data.None?
    {
      pattern := p;
      buffer := new OptFifo();
    }

    /** `handle_existing_data`: the buffer's `get`. */
    method HandleExistingData() returns (r: Option<bv8>)
      modifies buffer
      ensures (r, buffer.data) == FifoGet(old(buffer.data))
    {
      r := buffer.Get();
    }

    /** `handle_next`: handles one search event. */
    method HandleNext(e: PatternSearchType) returns (r: Result<bv8, Error>)
      requires CanHandle(pattern, buffer.data, e)
      modifies buffer
      ensures (r, buffer.data) == HandleStep(pattern, old(buffer.data), e)
    {
      match e
      case NonMatch(b) =>
        return Ok(b);
      case Match(data, _) =>
        var replaced := Replace(pattern, data);
        match replaced
        case Ok(item) =>
          ReplaceEmptyIff(pattern, data);
          var b := item[0];
          buffer.Set(item[1..]);
          return Ok(b);
        case Err(error) =>
          return Err(error);
    }
  }
}
