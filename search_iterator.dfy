/** The search driver: an input stream read through a cursor, and a searcher.
    Each call hands out one event; together the events are a reading of the
    whole input as matches and single non-matching units. */
module SearchIterators {
  import opened Lib
  import opened MaskedBytes
  import opened Patterns
  import opened Searchers

  /** What is left to do: units still to read plus units still to drain.
      Every call that hands out an event makes it smaller. */
  function Pending(input: seq<bv8>, pos: nat, st: SearchState): nat
    requires pos <= |input|
  {
    |input| - pos + |st.data|
  }

  /** The loop of `next`: reads units until the searcher hands out an event,
      then, at the end of the input, drains the window. */
  function PullEvent(p: Pattern, input: seq<bv8>, pos: nat, st: SearchState): (r: (Option<PatternSearchType>, nat, SearchState))
    requires WindowFits(p, st) && pos <= |input|
    ensures WindowFits(p, r.2) && pos <= r.1 <= |input|
    ensures r.0.None? ==> r.1 == |input| && r.2.data == []
    ensures r.0.Some? ==> Pending(input, r.1, r.2) < Pending(input, pos, st)
    ensures r.2.taken == st.taken + (r.1 - pos)
    decreases |input| - pos
  {
    if pos == |input| then
      var (e, st2) := Drain(st);
      (e, pos, st2)
    else
      var (e, st2) := Advance(p, st, input[pos]);
      if e.Some? then (e, pos + 1, st2) else PullEvent(p, input, pos + 1, st2)
  }

  /** `next`: a unit left in the window comes first; otherwise read on. */
  function NextEvent(p: Pattern, input: seq<bv8>, pos: nat, st: SearchState): (r: (Option<PatternSearchType>, nat, SearchState))
    requires WindowFits(p, st) && pos <= |input|
    ensures WindowFits(p, r.2) && pos <= r.1 <= |input|
    ensures r.0.None? ==> r.1 == |input| && r.2.data == []
    ensures r.0.Some? ==> Pending(input, r.1, r.2) < Pending(input, pos, st)
    ensures r.2.taken == st.taken + (r.1 - pos)
  {
    var (e, st2) := Drain(st);
    if e.Some? then (e, pos, st2) else PullEvent(p, input, pos, st2)
  }

  /** All events `next` hands out from this state on, up to the first None. */
  function Run(p: Pattern, input: seq<bv8>, pos: nat, st: SearchState): seq<PatternSearchType>
    requires WindowFits(p, st) && pos <= |input|
    decreases Pending(input, pos, st)
  {
    var (e, pos2, st2) := NextEvent(p, input, pos, st);
    if e.None? then [] else [e.value] + Run(p, input, pos2, st2)
  }

  /** The events of a search over the whole input. */
  function Search(p: Pattern, input: seq<bv8>): seq<PatternSearchType>
    requires p.values != []
  {
    Run(p, input, 0, SearchState([], 0))
  }

  // ---------------------------------------------------------------------
  // The reference reading of the input.
  // ---------------------------------------------------------------------

  /** Counting on from `k`: how many units of the input from `start` on match
      the pattern unit at their position. */
  function MatchLenFrom(ps: seq<MaskedByte>, input: seq<bv8>, start: nat, k: nat): (n: nat)
    requires k <= |ps| && start + k <= |input|
    ensures k <= n <= |ps| && start + n <= |input|
    decreases |ps| - k
  {
    if k == |ps| || start + k == |input| || !Matches(ps[k], input[start + k]) then k
    else MatchLenFrom(ps, input, start, k + 1)
  }

  /** How many units of the input from `start` on match the pattern unit at
      their position. */
  function MatchLen(ps: seq<MaskedByte>, input: seq<bv8>, start: nat): (n: nat)
    requires start <= |input|
    ensures n <= |ps| && start + n <= |input|
  {
    MatchLenFrom(ps, input, start, 0)
  }

  lemma {:induction false} MatchLenFromFits(ps: seq<MaskedByte>, input: seq<bv8>, start: nat, k: nat)
    requires k <= |ps| && start + k <= |input|
    ensures var n := MatchLenFrom(ps, input, start, k);
      && (forall i :: k <= i < n ==> Matches(ps[i], input[start + i]))
      && (n < |ps| && start + n < |input| ==> !Matches(ps[n], input[start + n]))
    decreases |ps| - k
  {
    if !(k == |ps| || start + k == |input| || !Matches(ps[k], input[start + k])) {
      MatchLenFromFits(ps, input, start, k + 1);
    }
  }

  /** The units counted fit the pattern and the next one, if any, does not. */
  lemma MatchLenFits(ps: seq<MaskedByte>, input: seq<bv8>, start: nat)
    requires start <= |input|
    ensures forall i :: 0 <= i < MatchLen(ps, input, start) ==> Matches(ps[i], input[start + i])
    ensures var n := MatchLen(ps, input, start);
      n < |ps| && start + n < |input| ==> !Matches(ps[n], input[start + n])
  {
    MatchLenFromFits(ps, input, start, 0);
  }

  /** Whether the attempt at `start` matches the whole pattern. */
  predicate Found(ps: seq<MaskedByte>, input: seq<bv8>, start: nat)
    requires start <= |input|
  {
    MatchLen(ps, input, start) == |ps|
  }

  /** How many units the attempt at `start` consumes: the whole pattern when
      it is found, otherwise the units that fit and the first one that does
      not, or all the rest of the input when it ends first. */
  function Cut(ps: seq<MaskedByte>, input: seq<bv8>, start: nat): (c: nat)
    requires ps != [] && start < |input|
    ensures 0 < c && start + c <= |input|
    ensures Found(ps, input, start) ==> c == |ps|
  {
    var k := MatchLen(ps, input, start);
    if k == |ps| || start + k == |input| then k else k + 1
  }

  /** The units of the input from `from` up to `to`, one NonMatch each. */
  function PassThrough(input: seq<bv8>, from: nat, to: nat): (es: seq<PatternSearchType>)
    requires from <= to <= |input|
    ensures from + |es| == to
    decreases (to as int) - from
  {
    if from == to then [] else [NonMatch(input[from])] + PassThrough(input, from + 1, to)
  }

  lemma {:induction false} PassThroughIsNonMatches(input: seq<bv8>, from: nat, to: nat)
    requires from <= to <= |input|
    ensures PassThrough(input, from, to) == NonMatches(input[from..to])
    decreases (to as int) - from
  {
    if from < to {
      PassThroughIsNonMatches(input, from + 1, to);
      SliceTail(input, from, to);
    }
  }

  /** The events of the attempt at `start`: a match, or its units passed
      through one by one, not looked at again. */
  function Head(ps: seq<MaskedByte>, input: seq<bv8>, start: nat): (es: seq<PatternSearchType>)
    requires ps != [] && start < |input|
    ensures es != []
  {
    var c := Cut(ps, input, start);
    if Found(ps, input, start) then [Match(input[start..start + c], start)]
    else PassThrough(input, start, start + c)
  }

  lemma HeadFlattens(ps: seq<MaskedByte>, input: seq<bv8>, start: nat)
    requires ps != [] && start < |input|
    ensures Flatten(Head(ps, input, start)) == input[start..start + Cut(ps, input, start)]
  {
    var c := Cut(ps, input, start);
    if Found(ps, input, start) {
      assert Head(ps, input, start)[1..] == [];
    } else {
      PassThroughIsNonMatches(input, start, start + c);
      FlattenNonMatches(input[start..start + c]);
    }
  }

  /** A match in the reading: as many units as the pattern, each matching its
      pattern unit, found at offset `index` of the input. */
  predicate ValidMatch(ps: seq<MaskedByte>, e: PatternSearchType, index: nat)
  {
    e.Match? ==>
      && |e.data| == |ps|
      && (forall i :: 0 <= i < |ps| ==> Matches(ps[i], e.data[i]))
      && e.index == index
  }

  /** Every event of `es` that is a match is valid at offset `o` plus the
      number of units before it. */
  predicate AllValid(ps: seq<MaskedByte>, es: seq<PatternSearchType>, o: nat)
  {
    es == [] || (ValidMatch(ps, es[0], o) && AllValid(ps, es[1..], o + |Units(es[0])|))
  }

  /** The same, event by event. */
  lemma {:induction false} AllValidAt(ps: seq<MaskedByte>, es: seq<PatternSearchType>, o: nat, i: nat)
    requires AllValid(ps, es, o) && i < |es|
    ensures ValidMatch(ps, es[i], o + |Flatten(es[..i])|)
  {
    if i > 0 {
      AllValidAt(ps, es[1..], o + |Units(es[0])|, i - 1);
      assert es[..i] == [es[0]] + es[1..][..i - 1];
      FlattenAppend([es[0]], es[1..][..i - 1]);
      assert Flatten([es[0]]) == Units(es[0]);
    }
  }

  lemma {:induction false} NonMatchesValid(ps: seq<MaskedByte>, units: seq<bv8>, o: nat)
    ensures AllValid(ps, NonMatches(units), o)
  {
    if units != [] {
      assert NonMatches(units)[1..] == NonMatches(units[1..]);
      NonMatchesValid(ps, units[1..], o + 1);
    }
  }

  lemma HeadValid(ps: seq<MaskedByte>, input: seq<bv8>, start: nat)
    requires ps != [] && start < |input|
    ensures AllValid(ps, Head(ps, input, start), start)
  {
    var c := Cut(ps, input, start);
    if Found(ps, input, start) {
      var e := Head(ps, input, start)[0];
      MatchLenFits(ps, input, start);
      assert forall i :: 0 <= i < |ps| ==> e.data[i] == input[start + i];
      assert ValidMatch(ps, e, start);
      assert Head(ps, input, start)[1..] == [];
    } else {
      PassThroughIsNonMatches(input, start, start + c);
      NonMatchesValid(ps, input[start..start + c], start);
    }
  }

  lemma {:induction false} AllValidAppend(ps: seq<MaskedByte>, head: seq<PatternSearchType>,
                                         tail: seq<PatternSearchType>, o: nat, n: nat)
    requires n == |Flatten(head)|
    requires AllValid(ps, head, o) && AllValid(ps, tail, o + n)
    ensures AllValid(ps, head + tail, o)
  {
    if head == [] {
      assert head + tail == tail;
    } else {
      assert (head + tail)[1..] == head[1..] + tail;
      assert Flatten(head) == Units(head[0]) + Flatten(head[1..]);
      AllValidAppend(ps, head[1..], tail, o + |Units(head[0])|, n - |Units(head[0])|);
    }
  }

  /** The input read from `pos` on, one attempt after another. */
  function Scan(ps: seq<MaskedByte>, input: seq<bv8>, pos: nat): seq<PatternSearchType>
    requires ps != [] && pos <= |input|
    decreases |input| - pos
  {
    if pos == |input| then [] else
      Head(ps, input, pos) + Scan(ps, input, pos + Cut(ps, input, pos))
  }

  /** Every unit comes out once, in order, and every match of the reading is
      a real occurrence of the pattern whose index is its offset in the input. */
  lemma ScanReadsInput(ps: seq<MaskedByte>, input: seq<bv8>, pos: nat)
    requires ps != [] && pos <= |input|
    ensures Flatten(Scan(ps, input, pos)) == input[pos..]
    ensures AllValid(ps, Scan(ps, input, pos), pos)
  {
    ScanFlattens(ps, input, pos);
    ScanValid(ps, input, pos);
  }

  lemma {:induction false} ScanFlattens(ps: seq<MaskedByte>, input: seq<bv8>, pos: nat)
    requires ps != [] && pos <= |input|
    ensures Flatten(Scan(ps, input, pos)) == input[pos..]
    decreases |input| - pos
  {
    if pos < |input| {
      var n := pos + Cut(ps, input, pos);
      ScanFlattens(ps, input, n);
      ScanAttemptFlattens(ps, input, pos, n);
    }
  }

  lemma {:induction false} ScanValid(ps: seq<MaskedByte>, input: seq<bv8>, pos: nat)
    requires ps != [] && pos <= |input|
    ensures AllValid(ps, Scan(ps, input, pos), pos)
    decreases |input| - pos
  {
    if pos < |input| {
      var n := pos + Cut(ps, input, pos);
      ScanValid(ps, input, n);
      ScanAttemptValid(ps, input, pos, n);
    }
  }

  lemma ScanAttemptFlattens(ps: seq<MaskedByte>, input: seq<bv8>, pos: nat, n: nat)
    requires ps != [] && pos < |input| && n == pos + Cut(ps, input, pos)
    requires Flatten(Scan(ps, input, n)) == input[n..]
    ensures Flatten(Scan(ps, input, pos)) == input[pos..]
  {
    var head, tail := Head(ps, input, pos), Scan(ps, input, n);
    ScanUnfolds(ps, input, pos, n);
    HeadFlattens(ps, input, pos);
    FlattenJoin(Scan(ps, input, pos), head, tail, input, pos, n);
  }

  /** Events that read the input up to `n` followed by events that read the
      rest read the input. */
  lemma FlattenJoin(whole: seq<PatternSearchType>, head: seq<PatternSearchType>, tail: seq<PatternSearchType>,
                    input: seq<bv8>, pos: nat, n: nat)
    requires pos <= n <= |input| && whole == head + tail
    requires Flatten(head) == input[pos..n] && Flatten(tail) == input[n..]
    ensures Flatten(whole) == input[pos..]
  {
    FlattenAppend(head, tail);
    SliceJoin(input, pos, n, Flatten(head), Flatten(tail));
  }

  lemma ScanUnfolds(ps: seq<MaskedByte>, input: seq<bv8>, pos: nat, n: nat)
    requires ps != [] && pos < |input| && n == pos + Cut(ps, input, pos)
    ensures Scan(ps, input, pos) == Head(ps, input, pos) + Scan(ps, input, n)
  {
  }

  lemma ScanAttemptValid(ps: seq<MaskedByte>, input: seq<bv8>, pos: nat, n: nat)
    requires ps != [] && pos < |input| && n == pos + Cut(ps, input, pos)
    requires AllValid(ps, Scan(ps, input, n), n)
    ensures AllValid(ps, Scan(ps, input, pos), pos)
  {
    var head, tail := Head(ps, input, pos), Scan(ps, input, n);
    HeadFlattens(ps, input, pos);
    HeadValid(ps, input, pos);
    AllValidAppend(ps, head, tail, pos, n - pos);
  }

  /** No match of a valid stream starts before the stream's offset. */
  lemma {:induction false} AllValidAfter(ps: seq<MaskedByte>, es: seq<PatternSearchType>, o: nat, k: nat)
    requires AllValid(ps, es, o) && k < |es| && es[k].Match?
    ensures o <= es[k].index
  {
    if k > 0 {
      AllValidAfter(ps, es[1..], o + |Units(es[0])|, k - 1);
    }
  }

  lemma {:induction false} AllValidDisjoint(ps: seq<MaskedByte>, es: seq<PatternSearchType>, o: nat, i: nat, j: nat)
    requires AllValid(ps, es, o) && i < j < |es| && es[i].Match? && es[j].Match?
    ensures es[i].index + |ps| <= es[j].index
  {
    if i > 0 {
      AllValidDisjoint(ps, es[1..], o + |Units(es[0])|, i - 1, j - 1);
    } else {
      AllValidAfter(ps, es[1..], o + |Units(es[0])|, j - 1);
    }
  }

  /** Matches do not overlap and come in the order of the input. */
  lemma ScanMatchesDisjoint(ps: seq<MaskedByte>, input: seq<bv8>, i: nat, j: nat)
    requires ps != []
    requires i < j < |Scan(ps, input, 0)|
    requires Scan(ps, input, 0)[i].Match? && Scan(ps, input, 0)[j].Match?
    ensures Scan(ps, input, 0)[i].index + |ps| <= Scan(ps, input, 0)[j].index
  {
    ScanReadsInput(ps, input, 0);
    AllValidDisjoint(ps, Scan(ps, input, 0), 0, i, j);
  }

  // ---------------------------------------------------------------------
  // The driver reads the input exactly as the reference does.
  // ---------------------------------------------------------------------

  /** Units left in the window are drained one per call before anything else. */
  lemma {:induction false} RunDrainsWindow(p: Pattern, input: seq<bv8>, pos: nat, st: SearchState)
    requires WindowFits(p, st) && pos <= |input|
    ensures Run(p, input, pos, st) == NonMatches(st.data) + Run(p, input, pos, SearchState([], st.taken))
    decreases |st.data|
  {
    if st.data != [] {
      var st2 := SearchState(st.data[1..], st.taken);
      RunDrainsWindow(p, input, pos, st2);
      assert NonMatches(st.data) == [NonMatch(st.data[0])] + NonMatches(st.data[1..]);
    }
  }

  /** The window holds the units of an attempt started at `start` and read
      up to `pos`, one fewer than the pattern at most, and the searcher has
      taken every unit read. */
  predicate Window(p: Pattern, input: seq<bv8>, start: nat, pos: nat, st: SearchState)
  {
    && start < |input| && start <= pos <= |input|
    && st.data == input[start..pos]
    && st.taken == pos
    && pos - start < |p.values|
  }

  /** The unit read fits and the window is not yet full: nothing is handed
      out and the unit joins the window. */
  lemma StepFits(p: Pattern, st: SearchState, b: bv8)
    requires WindowFits(p, st) && Matches(p.values[|st.data|], b) && |st.data| + 1 < |p.values|
    ensures Advance(p, st, b) == (None, SearchState(st.data + [b], st.taken + 1))
  {
  }

  /** The unit read fits and fills the window: a match. */
  lemma StepFound(p: Pattern, input: seq<bv8>, start: nat, pos: nat, st: SearchState)
    requires Window(p, input, start, pos, st) && pos < |input|
    requires Matches(p.values[pos - start], input[pos]) && pos + 1 - start == |p.values|
    ensures PullEvent(p, input, pos, st) == (Some(Match(input[start..pos + 1], start)), pos + 1, SearchState([], pos + 1))
  {
    SliceSnoc(input, start, pos);
  }

  /** The unit read does not fit: the attempt's first unit is handed out. */
  lemma StepMismatch(p: Pattern, input: seq<bv8>, start: nat, pos: nat, st: SearchState)
    requires Window(p, input, start, pos, st) && pos < |input|
    requires !Matches(p.values[pos - start], input[pos])
    ensures PullEvent(p, input, pos, st)
         == (Some(NonMatch(input[start])), pos + 1, SearchState(input[start + 1..pos + 1], pos + 1))
  {
    SliceSnoc(input, start, pos);
    SliceTail(input, start, pos + 1);
  }

  /** The input ends inside the attempt: its first unit is handed out. */
  lemma StepDrain(p: Pattern, input: seq<bv8>, start: nat, pos: nat, st: SearchState)
    requires Window(p, input, start, pos, st) && pos == |input|
    ensures PullEvent(p, input, pos, st)
         == (Some(NonMatch(input[start])), pos, SearchState(input[start + 1..pos], pos))
  {
    SliceTail(input, start, pos);
  }

  /** Where the attempt at `start` leaves the driver: its first event, the
      input position after it and the window left to drain. */
  function Finish(p: Pattern, input: seq<bv8>, start: nat): (Option<PatternSearchType>, nat, SearchState)
    requires p.values != [] && start < |input|
  {
    var c := Cut(p.values, input, start);
    (Some(Head(p.values, input, start)[0]), start + c,
     SearchState(if Found(p.values, input, start) then [] else input[start + 1..start + c], start + c))
  }

  lemma FinishFound(p: Pattern, input: seq<bv8>, start: nat)
    requires p.values != [] && start < |input| && Found(p.values, input, start)
    ensures var n := start + |p.values|;
      Finish(p, input, start) == (Some(Match(input[start..n], start)), n, SearchState([], n))
  {
  }

  lemma FinishCut(p: Pattern, input: seq<bv8>, start: nat)
    requires p.values != [] && start < |input| && !Found(p.values, input, start)
    ensures var n := start + Cut(p.values, input, start);
      Finish(p, input, start) == (Some(NonMatch(input[start])), n, SearchState(input[start + 1..n], n))
  {
  }

  /** How an attempt whose window is as long as its fitting units ends. */
  lemma AttemptEnds(p: Pattern, input: seq<bv8>, start: nat, pos: nat, st: SearchState)
    requires Window(p, input, start, pos, st) && pos - start <= MatchLen(p.values, input, start)
    requires !(pos < |input| && pos - start < MatchLen(p.values, input, start) && pos + 1 - start < |p.values|)
    ensures PullEvent(p, input, pos, st) == Finish(p, input, start)
  {
    var k := MatchLen(p.values, input, start);
    MatchLenFits(p.values, input, start);
    if pos == |input| {
      StepDrain(p, input, start, pos, st);
      FinishCut(p, input, start);
    } else if pos - start == k {
      assert !Matches(p.values[k], input[start + k]);
      StepMismatch(p, input, start, pos, st);
      FinishCut(p, input, start);
    } else {
      assert Matches(p.values[pos - start], input[start + (pos - start)]);
      StepFound(p, input, start, pos, st);
      FinishFound(p, input, start);
    }
  }

  /** Reading on from an attempt finishes it the way the reference does. */
  lemma {:induction false} PullFinishesAttempt(p: Pattern, input: seq<bv8>, start: nat, pos: nat, st: SearchState)
    requires Window(p, input, start, pos, st) && pos - start <= MatchLen(p.values, input, start)
    ensures PullEvent(p, input, pos, st) == Finish(p, input, start)
    decreases |input| - pos
  {
    if pos < |input| && pos - start < MatchLen(p.values, input, start) && pos + 1 - start < |p.values| {
      PullFinishesAttempt(p, input, start, pos + 1, SearchState(input[start..pos + 1], pos + 1));
      AttemptContinues(p, input, start, pos, st);
    } else {
      AttemptEnds(p, input, start, pos, st);
    }
  }

  /** A unit that fits an attempt whose window is not yet full is read on. */
  lemma AttemptContinues(p: Pattern, input: seq<bv8>, start: nat, pos: nat, st: SearchState)
    requires Window(p, input, start, pos, st) && pos < |input|
    requires pos - start < MatchLen(p.values, input, start) && pos + 1 - start < |p.values|
    ensures PullEvent(p, input, pos, st) == PullEvent(p, input, pos + 1, SearchState(input[start..pos + 1], pos + 1))
  {
    MatchLenFits(p.values, input, start);
    assert Matches(p.values[pos - start], input[start + (pos - start)]);
    StepFits(p, st, input[pos]);
    SliceSnoc(input, start, pos);
  }

  /** The attempt's first event followed by the window it leaves are its events. */
  lemma HeadSplits(p: Pattern, input: seq<bv8>, start: nat)
    requires p.values != [] && start < |input|
    ensures [Finish(p, input, start).0.value] + NonMatches(Finish(p, input, start).2.data)
         == Head(p.values, input, start)
  {
    if !Found(p.values, input, start) {
      var c := Cut(p.values, input, start);
      PassThroughIsNonMatches(input, start + 1, start + c);
    }
  }

  /** From an empty window the driver's first event is the attempt's first. */
  lemma RunFirst(p: Pattern, input: seq<bv8>, pos: nat)
    requires p.values != [] && pos < |input|
    ensures var f := Finish(p, input, pos);
      Run(p, input, pos, SearchState([], pos)) == [f.0.value] + Run(p, input, f.1, f.2)
  {
    var st := SearchState([], pos);
    assert Window(p, input, pos, pos, st);
    PullFinishesAttempt(p, input, pos, pos, st);
    assert NextEvent(p, input, pos, st) == Finish(p, input, pos);
  }

  lemma Regroup<T>(whole: seq<T>, e: T, rest: seq<T>, window: seq<T>, tail: seq<T>, head: seq<T>)
    requires whole == [e] + rest && rest == window + tail && [e] + window == head
    ensures whole == head + tail
  {
    AppendAssoc([e], window, tail);
  }

  /** From an empty window the driver hands out one attempt's events and is
      back at an empty window after it. */
  lemma RunAttempt(p: Pattern, input: seq<bv8>, pos: nat)
    requires p.values != [] && pos < |input|
    ensures var c := Cut(p.values, input, pos);
      Run(p, input, pos, SearchState([], pos))
        == Head(p.values, input, pos) + Run(p, input, pos + c, SearchState([], pos + c))
  {
    var f := Finish(p, input, pos);
    var n := pos + Cut(p.values, input, pos);
    FinishLeaves(p, input, pos);
    RunFirst(p, input, pos);
    RunDrainsWindow(p, input, n, f.2);
    HeadSplits(p, input, pos);
    Regroup(Run(p, input, pos, SearchState([], pos)), f.0.value, Run(p, input, n, f.2),
            NonMatches(f.2.data), Run(p, input, n, SearchState([], n)), Head(p.values, input, pos));
  }

  /** An attempt leaves the driver after its cut with a window that fits. */
  lemma FinishLeaves(p: Pattern, input: seq<bv8>, start: nat)
    requires p.values != [] && start < |input|
    ensures var n := start + Cut(p.values, input, start);
      Finish(p, input, start).1 == n && Finish(p, input, start).2.taken == n
      && n <= |input| && WindowFits(p, Finish(p, input, start).2)
  {
  }

  /** From an empty window the driver hands out the reference reading of the
      rest of the input. */
  lemma {:induction false} RunIsScan(p: Pattern, input: seq<bv8>, pos: nat)
    requires p.values != [] && pos <= |input|
    ensures Run(p, input, pos, SearchState([], pos)) == Scan(p.values, input, pos)
    decreases |input| - pos
  {
    if pos < |input| {
      RunIsScan(p, input, pos + Cut(p.values, input, pos));
      RunScanStep(p, input, pos);
    }
  }

  lemma RunScanStep(p: Pattern, input: seq<bv8>, pos: nat)
    requires p.values != [] && pos < |input|
    requires var n := pos + Cut(p.values, input, pos);
      Run(p, input, n, SearchState([], n)) == Scan(p.values, input, n)
    ensures Run(p, input, pos, SearchState([], pos)) == Scan(p.values, input, pos)
  {
    RunAttempt(p, input, pos);
  }

  /** The search reads the whole input the way the reference does; so its
      events flattened are the input, and its matches are real, ordered and
      indexed by their offset in the input. */
  lemma SearchIsScan(p: Pattern, input: seq<bv8>)
    requires p.values != []
    ensures Search(p, input) == Scan(p.values, input, 0)
    ensures Flatten(Search(p, input)) == input
    ensures AllValid(p.values, Search(p, input), 0)
  {
    RunIsScan(p, input, 0);
    ScanReadsInput(p.values, input, 0);
    assert input[0..] == input;
  }
  // ---------------------------------------------------------------------
  // The driver object.
  // ---------------------------------------------------------------------

  class PatternSearchIterator {
    const input: seq<bv8>
    var pos: nat
    const searcher: Searcher

    predicate Valid()
      reads this, searcher
    {
      pos <= |input| && searcher.Valid()
    }

    constructor(input: seq<bv8>, p: Pattern)
      ensures this.input == input && pos == 0 && fresh(searcher)
      ensures searcher.pattern == p && searcher.State() == SearchState([], 0)
    {
      this.input := input;
      pos := 0;
      searcher := new Searcher(p);
    }

    /** Hands out a unit left in the window, else reads units until the
      searcher hands out an event, else drains the window at the end. */
    method Next() returns (r: Option<PatternSearchType>)
      requires Valid()
      modifies this, searcher
      ensures Valid()
      ensures (r, pos, searcher.State()) == NextEvent(searcher.pattern, input, old(pos), old(searcher.State()))
    {
      r := searcher.HandleExistingData();
      if r.Some? {
        return;
      }
      ghost var goal := PullEvent(searcher.pattern, input, pos, searcher.State());
      while pos < |input|
        invariant Valid()
        invariant PullEvent(searcher.pattern, input, pos, searcher.State()) == goal
        decreases |input| - pos
      {
        var b := input[pos];
        pos := pos + 1;
        r := searcher.HandleNext(b);
        if r.Some? {
          return;
        }
      }
      r := searcher.HandleExistingData();
    }
  }

  // ---------------------------------------------------------------------
  // Examples.
  // ---------------------------------------------------------------------

  /** The pattern `0b???0???? 0b???1????` and the input `1a 2b 3c 4d 5e 6f`. */
  const ExamplePattern: seq<MaskedByte> := [MaskedByte(0x00, 0x10), MaskedByte(0x10, 0x10)]
  const ExampleInput: seq<bv8> := [0x1A, 0x2B, 0x3C, 0x4D, 0x5E, 0x6F]

  /** The two literals of the source's search test read as the units of
      `ExamplePattern`: all bits wildcards except bit 4. */
  lemma ExampleLowLiteral()
    ensures Parse("0b???0????") == Ok(ExamplePattern[0])
  {
    assert "0b???0????"[..2] == "0b" && "0b???0????"[2..] == "???0????";
    assert "???0????"[..7] == "???0???" && "???0???"[..6] == "???0??" && "???0??"[..5] == "???0?";
    assert "???0?"[..4] == "???0" && "???0"[..3] == "???" && "???"[..2] == "??" && "??"[..1] == "?" && "?"[..0] == "";
    assert Accumulate("?", 1) == Ok(MaskedByte(0x00, 0xFE));
    assert Accumulate("??", 1) == Ok(MaskedByte(0x00, 0xFC));
    assert Accumulate("???", 1) == Ok(MaskedByte(0x00, 0xF8));
    assert Accumulate("???0", 1) == Ok(MaskedByte(0x00, 0xF1));
    assert Accumulate("???0?", 1) == Ok(MaskedByte(0x00, 0xE2));
    assert Accumulate("???0??", 1) == Ok(MaskedByte(0x00, 0xC4));
    assert Accumulate("???0???", 1) == Ok(MaskedByte(0x00, 0x88));
  }

  lemma ExampleHighLiteral()
    ensures Parse("0b???1????") == Ok(ExamplePattern[1])
  {
    assert "0b???1????"[..2] == "0b" && "0b???1????"[2..] == "???1????";
    assert "???1????"[..7] == "???1???" && "???1???"[..6] == "???1??" && "???1??"[..5] == "???1?";
    assert "???1?"[..4] == "???1" && "???1"[..3] == "???" && "???"[..2] == "??" && "??"[..1] == "?" && "?"[..0] == "";
    assert Accumulate("?", 1) == Ok(MaskedByte(0x00, 0xFE));
    assert Accumulate("??", 1) == Ok(MaskedByte(0x00, 0xFC));
    assert Accumulate("???", 1) == Ok(MaskedByte(0x00, 0xF8));
    assert Accumulate("???1", 1) == Ok(MaskedByte(0x01, 0xF1));
    assert Accumulate("???1?", 1) == Ok(MaskedByte(0x02, 0xE2));
    assert Accumulate("???1??", 1) == Ok(MaskedByte(0x04, 0xC4));
    assert Accumulate("???1???", 1) == Ok(MaskedByte(0x08, 0x88));
  }

  lemma ScanAt(ps: seq<MaskedByte>, input: seq<bv8>, pos: nat, c: nat, head: seq<PatternSearchType>)
    requires ps != [] && pos < |input|
    requires Cut(ps, input, pos) == c && Head(ps, input, pos) == head
    ensures Scan(ps, input, pos) == head + Scan(ps, input, pos + c)
  {
  }

  lemma ExampleEnd()
    ensures Scan(ExamplePattern, ExampleInput, 5) == [NonMatch(0x6F)]
  {
    var ps, d := ExamplePattern, ExampleInput;
    assert MatchLenFrom(ps, d, 5, 1) == 1;
    assert MatchLen(ps, d, 5) == 1;
    ScanAt(ps, d, 5, 1, [NonMatch(0x6F)]);
  }

  lemma ExampleMatches()
    ensures Scan(ExamplePattern, ExampleInput, 1)
         == [Match([0x2B, 0x3C], 1), Match([0x4D, 0x5E], 3)] + Scan(ExamplePattern, ExampleInput, 5)
  {
    var ps, d := ExamplePattern, ExampleInput;
    assert MatchLenFrom(ps, d, 3, 1) == 2;
    assert MatchLen(ps, d, 3) == 2;
    assert d[3..5] == [0x4D, 0x5E];
    ScanAt(ps, d, 3, 2, [Match([0x4D, 0x5E], 3)]);
    assert MatchLenFrom(ps, d, 1, 1) == 2;
    assert MatchLen(ps, d, 1) == 2;
    assert d[1..3] == [0x2B, 0x3C];
    ScanAt(ps, d, 1, 2, [Match([0x2B, 0x3C], 1)]);
  }

  lemma ExampleScan()
    ensures Scan(ExamplePattern, ExampleInput, 0)
         == [NonMatch(0x1A), Match([0x2B, 0x3C], 1), Match([0x4D, 0x5E], 3), NonMatch(0x6F)]
  {
    var ps, d := ExamplePattern, ExampleInput;
    assert MatchLen(ps, d, 0) == 0;
    ScanAt(ps, d, 0, 1, [NonMatch(0x1A)]);
    ExampleMatches();
    ExampleEnd();
  }

  /** The search of `0b???0???? 0b???1????` over `1a 2b 3c 4d 5e 6f`: the last
      unit starts an attempt the input ends inside of. */
  lemma SearchExample()
    ensures Search(Pattern(ExamplePattern), ExampleInput)
         == [NonMatch(0x1A), Match([0x2B, 0x3C], 1), Match([0x4D, 0x5E], 3), NonMatch(0x6F)]
  {
    SearchIsScan(Pattern(ExamplePattern), ExampleInput);
    ExampleScan();
  }

  /** Units passed through after a mismatch are not looked at again, so an
      occurrence overlapping a failed attempt is missed. */
  lemma MissedOverlapExample()
    ensures var ps := [MaskedByte(1, 0xFF), MaskedByte(2, 0xFF)];
      var d: seq<bv8> := [1, 1, 2];
      && (forall i :: 0 <= i < 2 ==> Matches(ps[i], d[1 + i]))
      && Search(Pattern(ps), d) == NonMatches(d)
  {
    var ps := [MaskedByte(1, 0xFF), MaskedByte(2, 0xFF)];
    var d: seq<bv8> := [1, 1, 2];
    SearchIsScan(Pattern(ps), d);
    OverlapScan();
    assert NonMatches(d) == [NonMatch(1), NonMatch(1), NonMatch(2)];
  }

  lemma OverlapScan()
    ensures Scan([MaskedByte(1, 0xFF), MaskedByte(2, 0xFF)], [1, 1, 2], 0) == [NonMatch(1), NonMatch(1), NonMatch(2)]
  {
    var ps := [MaskedByte(1, 0xFF), MaskedByte(2, 0xFF)];
    var d: seq<bv8> := [1, 1, 2];
    assert MatchLen(ps, d, 2) == 0;
    ScanAt(ps, d, 2, 1, [NonMatch(2)]);
    assert MatchLenFrom(ps, d, 0, 1) == 1;
    assert MatchLen(ps, d, 0) == 1;
    assert PassThrough(d, 0, 2) == [NonMatch(1), NonMatch(1)];
    ScanAt(ps, d, 0, 2, [NonMatch(1), NonMatch(1)]);
  }

}
