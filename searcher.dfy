/** The search state machine: a window holding the units of a possible match
    that is still open, and the number of units taken from the input. */
module Searchers {
  import opened Lib
  import opened MaskedBytes
  import opened Patterns

  /** The searcher's fields other than the pattern. */
  datatype SearchState = SearchState(data: seq<bv8>, taken: nat)

  /** The window never holds a whole pattern, since a full window is handed
      out as a match at once; in particular the pattern is not empty.  Every
      window unit was taken from the input. */
  predicate WindowFits(p: Pattern, st: SearchState)
  {
    |st.data| < |p.values| && |st.data| <= st.taken
  }

  /** The units an optional event carries. */
  function EventUnits(r: Option<PatternSearchType>): seq<bv8>
  {
    match r
    case None => []
    case Some(e) => Units(e)
  }

  /** `handle_existing_data`: hands out the oldest unit of the window as a
      NonMatch, and nothing when the window is empty. */
  function Drain(st: SearchState): (r: (Option<PatternSearchType>, SearchState))
    ensures r.0.None? <==> st.data == []
    ensures r.1.taken == st.taken && |r.1.data| <= |st.data|
  {
    if st.data != [] then (Some(NonMatch(st.data[0])), SearchState(st.data[1..], st.taken))
    else (None, st)
  }

  /** Draining hands out exactly the oldest unit: what is handed out followed
      by the new window is the old window. */
  lemma DrainConserves(st: SearchState)
    ensures Drain(st).0.Some? ==> Drain(st).0.value.NonMatch?
    ensures EventUnits(Drain(st).0) + Drain(st).1.data == st.data
  {
    if st.data != [] {
      assert [st.data[0]] + st.data[1..] == st.data;
    }
  }

  /** `handle_next`: the unit joins the window and is checked against the
      pattern unit at its own position in the window.  A full window of
      matching units is a match; a mismatch hands out the oldest unit and
      keeps the others, not checked again.  Either way the unit is taken and
      the window still fits. */
  function Advance(p: Pattern, st: SearchState, b: bv8): (r: (Option<PatternSearchType>, SearchState))
    requires WindowFits(p, st)
    ensures r.1.taken == st.taken + 1
    ensures WindowFits(p, r.1)
  {
    var data := st.data + [b];
    var taken := st.taken + 1;
    if Matches(p.values[|data| - 1], b) then
      if |data| == |p.values| then (Some(Match(data, taken - |p.values|)), SearchState([], taken))
      else (None, SearchState(data, taken))
    else (Some(NonMatch(data[0])), SearchState(data[1..], taken))
  }

  /** No unit is lost or repeated: what is handed out followed by the new
      window is the old window followed by the unit. */
  lemma AdvanceConserves(p: Pattern, st: SearchState, b: bv8)
    requires WindowFits(p, st)
    ensures EventUnits(Advance(p, st, b).0) + Advance(p, st, b).1.data == st.data + [b]
  {
    var data := st.data + [b];
    assert [data[0]] + data[1..] == data;
  }

  /** The window after a step that hands nothing out is still a run of units
      each matching the pattern unit at its position. */
  lemma AdvanceKeepsPrefix(p: Pattern, st: SearchState, b: bv8)
    requires WindowFits(p, st)
    requires forall i :: 0 <= i < |st.data| ==> Matches(p.values[i], st.data[i])
    ensures var (r, st2) := Advance(p, st, b);
      r.None? ==> forall i :: 0 <= i < |st2.data| ==> Matches(p.values[i], st2.data[i])
  {
  }

  /** A match carries one unit per pattern unit, each matching it, and its
      index is the position in the input of its first unit. */
  lemma AdvanceMatch(p: Pattern, st: SearchState, b: bv8)
    requires WindowFits(p, st)
    requires forall i :: 0 <= i < |st.data| ==> Matches(p.values[i], st.data[i])
    ensures var r := Advance(p, st, b).0;
      r.Some? && r.value.Match? ==>
        |r.value.data| == |p.values| && (forall i :: 0 <= i < |p.values| ==> Matches(p.values[i], r.value.data[i])) &&
        r.value.index + |p.values| == st.taken + 1
  {
  }

  class Searcher {
    const pattern: Pattern
    var data: seq<bv8>
    var taken: nat

    function State(): SearchState
      reads this
    {
      SearchState(data, taken)
    }

    predicate Valid()
      reads this
    {
      WindowFits(pattern, State())
    }

    constructor(p: Pattern)
      ensures pattern == p && data == [] && taken == 0
    {
      pattern := p;
      data := [];
      taken := 0;
    }

    /** Hands out the oldest unit of a window left over by a mismatch. */
    method HandleExistingData() returns (r: Option<PatternSearchType>)
      modifies this
      ensures old(data) == [] ==> r.None? && data == []
      ensures old(data) != [] ==> r == Some(NonMatch(old(data)[0])) && data == old(data)[1..]
      ensures taken == old(taken)
      ensures (r, State()) == Drain(old(State()))
    {
      if data != [] {
        var b := data[0];
        data := data[1..];
        return Some(NonMatch(b));
      }
      return None;
    }

    /** Takes the next input unit. */
    method HandleNext(b: bv8) returns (r: Option<PatternSearchType>)
      requires Valid()
      modifies this
      ensures Valid()
      ensures taken == old(taken) + 1
      ensures (r, State()) == Advance(pattern, old(State()), b)
    {
      taken := taken + 1;
      data := data + [b];
      var m := Get(pattern, |data| - 1);
      if Matches(m.value, b) {
        if |data| == Len(pattern) {
          var other := data;
          data := [];
          return Some(Match(other, taken - Len(pattern)));
        }
        return None;
      } else {
        var first := data[0];
        data := data[1..];
        return Some(NonMatch(first));
      }
    }
  }
}
