/** Shared types of the library: optional values, results, the error kinds
    and the event a search produces for every step of the input stream. */
module Lib {

  datatype Option<+T> = None | Some(value: T)

  datatype Result<+T, +E> = Ok(value: T) | Err(error: E)

  /** Why a single literal such as `0x?5` could not be parsed. */
  datatype ByteError =
    | NumberTooBig        // a digit or a wildcard would not fit into the unit
    | InvalidChar(c: char) // a character that is neither `?` nor a digit of the radix
    | UnknownPrefix       // the literal does not start with `0b`, `0o` or `0x`

  /** The library's error type. */
  datatype Error =
    | ParseError(literal: string, source: ByteError)
    | ReplaceNotDefined   // an overhanging replace unit has wildcard bits
    | IteratorError       // raised only by the fallible-upstream adapters, which are not modelled

  /** One event of a search: a run of units that matched the whole pattern,
      with the stream offset of its first unit, or a single unit that did not. */
  datatype PatternSearchType =
    | Match(data: seq<bv8>, index: nat)
    | NonMatch(unit: bv8)

  /** The units an event carries, in order. */
  function Units(e: PatternSearchType): seq<bv8>
  {
    match e
    case Match(data, _) => data
    case NonMatch(b) => [b]
  }

  /** The units of a stream of events, each Match expanded in place. */
  function Flatten(es: seq<PatternSearchType>): seq<bv8>
  {
    if es == [] then [] else Units(es[0]) + Flatten(es[1..])
  }

  lemma {:induction false} FlattenAppend(a: seq<PatternSearchType>, b: seq<PatternSearchType>)
    ensures Flatten(a + b) == Flatten(a) + Flatten(b)
  {
    if a == [] {
      assert a + b == b;
    } else {
      assert (a + b)[1..] == a[1..] + b;
      FlattenAppend(a[1..], b);
    }
  }

  /** One NonMatch event per unit, in order. */
  function NonMatches(units: seq<bv8>): (es: seq<PatternSearchType>)
    ensures |es| == |units|
  {
    if units == [] then [] else [NonMatch(units[0])] + NonMatches(units[1..])
  }

  lemma {:induction false} NonMatchesAt(units: seq<bv8>, i: nat)
    requires i < |units|
    ensures NonMatches(units)[i] == NonMatch(units[i])
  {
    if i > 0 {
      NonMatchesAt(units[1..], i - 1);
    }
  }

  lemma {:induction false} FlattenNonMatches(units: seq<bv8>)
    ensures Flatten(NonMatches(units)) == units
  {
    if units != [] {
      assert NonMatches(units)[1..] == NonMatches(units[1..]);
      FlattenNonMatches(units[1..]);
    }
  }

  lemma AppendAssoc<T>(a: seq<T>, b: seq<T>, c: seq<T>)
    ensures a + (b + c) == (a + b) + c
  {
  }

  lemma SliceJoin<T>(s: seq<T>, i: nat, j: nat, a: seq<T>, b: seq<T>)
    requires i <= j <= |s| && a == s[i..j] && b == s[j..]
    ensures a + b == s[i..]
  {
  }

  lemma SliceSnoc<T>(s: seq<T>, i: nat, j: nat)
    requires i <= j < |s|
    ensures s[i..j + 1] == s[i..j] + [s[j]]
  {
  }

  lemma SliceTail<T>(s: seq<T>, i: nat, j: nat)
    requires i < j <= |s|
    ensures s[i..j][1..] == s[i + 1..j]
  {
  }

  /** The elements in the opposite order. */
  function Reverse<T>(s: seq<T>): (r: seq<T>)
    ensures |r| == |s|
    ensures forall i :: 0 <= i < |s| ==> r[i] == s[|s| - 1 - i]
  {
    if s == [] then [] else Reverse(s[1..]) + [s[0]]
  }

  lemma ReverseSnoc<T>(s: seq<T>, x: T)
    ensures Reverse(s + [x]) == [x] + Reverse(s)
  {
  }
}
