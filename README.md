# ppatch in Dafny

A model of the core of `ppatch`, a streaming search and replace engine for
binary data. A pattern is a list of masked units: each unit has a value and a
mask, and only the mask's bits take part in matching, so clear mask bits are
wildcards. The engine reads an input stream unit by unit and turns it into
events. Each event is either a `Match` (the units of one occurrence of the
pattern, with the stream offset of its first unit) or a `NonMatch` (a single
unit that is not part of a match). Two combinators consume those events:

- the replacer overwrites each match with a replace pattern and hands out the
  result unit by unit;
- the taker lets the first `count` matches through and turns every later
  match back into plain units.

Both buffer a match's remaining units in a single-vector buffer.

The unit type is fixed to `bv8`, the width the library's matching and parsing tests use.

| module | file | source |
|---|---|---|
| `Lib` | lib.dfy | the error kinds and the event type of `src/lib.rs` |
| `MaskedBytes` | masked_byte.dfy | `src/masked_byte.rs`: matching, setting, defined units, the literal parser, the bit rendering |
| `Patterns` | patterns.dfy | `src/pattern.rs`: the whitespace-separated pattern parser, `get`/`len`/`is_empty`, `replace` |
| `Searchers` | searcher.dfy | `src/searcher.rs`: the window state machine |
| `SearchIterators` | search_iterator.dfy | `src/pattern_search_iterator.rs`: the driver loop, and a reference reading of the whole input |
| `OptFifos` | opt_fifo.dfy | `src/opt_fifo.rs`: the armed/disarmed single-vector buffer |
| `Replacers` | replacer.dfy | `src/replacer.rs` |
| `ReplaceIterators` | replace_iterator.dfy | `src/pattern_replace_iterator.rs` |
| `Takers` | taker.dfy | `src/taker.rs` |
| `TakeIterators` | take_iterator.dfy | `src/pattern_take_iterator.rs` |

How the source's forms become Dafny:

- **Objects become classes that update fields in place.**
  - The searcher becomes `Searcher`, with the fields `data` and `taken`.
  - The buffer becomes `OptFifo`, with an `Option<seq<T>>` field.
  - The replacer, the taker and the three iterators are classes as well.
- **Each method is tied to a pure step function.** Its `ensures` equates the
  result and the new fields with a function of the old fields (`Drain`,
  `Advance`, `FifoGet`, `HandleStep`, `TakeStep`, `NextEvent`,
  `ReplaceNext`, `TakeNext`).
- **Loops are `while` loops with invariants.** This covers the literal
  parser, the bit rendering, the pattern parser, `replace` and the search
  driver's read loop. Each is proved equal to a specification function.
- **The upstream is a fixed sequence.** Each driver reads its upstream (bytes
  for the search, events for replace and take) as a `seq` with a cursor.
- **Each driver has a `Run` function.** `Run`, `ReplaceRun` and `TakeRun`
  collect everything the driver hands out until its first `None`.
- **Each `Run` is proved equal to an independent reference.** The references
  are `Scan`, `Replaced` and `Taken`. The lemmas about the source's promises
  (conservation of units, validity and order of matches, the first `count`
  matches kept) are proved about those references.

## Model

| member | source | states |
|---|---|---|
| `MaskedBytes.MatchesIgnoresWildcards` | src/masked_byte.rs:100-102 | flipping data bits outside the mask never changes whether the unit matches |
| `MaskedBytes.SetPins` | src/masked_byte.rs:105-107 | `set` takes the value's bits where the mask is 1 and keeps the data's bits where it is 0, so its result always matches |
| `MaskedBytes.SetIdempotent` | src/masked_byte.rs:100-107 | setting twice is setting once, and `set` leaves a unit unchanged exactly when it already matches |
| `MaskedBytes.MatchesAndSetsExample` | src/masked_byte.rs:221-230 | the source's test: value 0b10101010 with mask 0b00001111 matches 0b10011010 and sets 0b10011101 to 0b10011010 |
| `MaskedBytes.DefinedPins` | src/masked_byte.rs:110-116 | a defined unit's value matches it and setting it onto any data yields that value |
| `MaskedBytes.DefinedIffUnique` | src/masked_byte.rs:110-116 | `defined` is Some exactly when a single unit value matches |
| `MaskedBytes.Bits` | src/masked_byte.rs:32-37 | the number of zero bits of 0 is the width, 8 |
| `MaskedBytes.CharDigitInverse` | src/masked_byte.rs:152 | every digit value below 36 has its character, and upper-case letters stand for what lower-case ones do |
| `MaskedBytes.DigitValue` | src/masked_byte.rs:149-156 | a character is a digit of radix 2^bits exactly when its value is below the radix, and then it only fills the lowest group of bits |
| `MaskedBytes.AccumulateErrSticks` | src/masked_byte.rs:126-158 | once a prefix of the digits fails, the whole literal fails with that same error |
| `MaskedBytes.FromStringWithoutHeader` | src/masked_byte.rs:118-161 | the loop rotates, checks for overflow and ors in each digit exactly as the left-to-right fold `Accumulate` does, starting from value 0 with all bits pinned |
| `MaskedBytes.AccumulateDefinedIff` | src/masked_byte.rs:118-161 | digits that read successfully leave every mask bit pinned exactly when none of them is a `?` |
| `MaskedBytes.PrefixBits` | src/masked_byte.rs:186-195 | `0b`, `0o` and `0x` select 1, 3 and 4 bits per character, each width exactly for its prefix; any other prefix selects none |
| `MaskedBytes.FromStr` | src/masked_byte.rs:185-199 | the prefix dispatch: an unknown prefix gives `UnknownPrefix`, otherwise the rest is read and every error is wrapped with the literal |
| `MaskedBytes.AccumulateClearsWildcards` | src/masked_byte.rs:126-158 | digits that read successfully leave the value clear wherever the mask is: a `?` clears its group of both value and mask bits |
| `MaskedBytes.ParseClearsWildcards` | src/masked_byte.rs:185-199 | a literal that parses has its value clear wherever its mask is |
| `MaskedBytes.ParseDefinedIff` | src/masked_byte.rs:185-199 | a literal that parses gives a unit whose `defined` is Some exactly when the literal contains no `?` |
| `MaskedBytes.BinaryLiteralExample` | src/masked_byte.rs:233-237 | `0b?01?` reads as value 0b00000010, mask 0b11110110 |
| `MaskedBytes.HexLiteralExample` | src/masked_byte.rs:240-244 | `0x?a` reads as value 0x0a, mask 0x0f |
| `MaskedBytes.OctalLiteralExample` | src/masked_byte.rs:247-251 | `0o3?7` reads as value 0o307, mask 0o307 |
| `MaskedBytes.FullOctalExample` | src/masked_byte.rs:185-199 | `0o377` is the largest octal literal that fits: value 0xff, mask 0xff |
| `MaskedBytes.LeadingZerosExample` | src/masked_byte.rs:254-258 | leading zero digits do not overflow: `0x0000ff` reads as 0xff, 0xff |
| `MaskedBytes.TooBigExample` | src/masked_byte.rs:261-264 | `0o777` has one bit too many and fails with `NumberTooBig` |
| `MaskedBytes.BitChar` | src/masked_byte.rs:64-68 | a bit is shown as `?` exactly when its mask bit is 0, and as `1` exactly when it is pinned and set |
| `MaskedBytes.Display` | src/masked_byte.rs:58-77 | the loop that pushes low bits first and reverses yields exactly 8 characters, most significant bit first |
| `MaskedBytes.RenderedBitsRead` | src/masked_byte.rs:58-77 | reading the rendering of the low n bits as binary digits gives back those bits' value and mask |
| `MaskedBytes.DisplayParses` | src/masked_byte.rs:58-77 | `0b` followed by the rendering parses back to the same unit, with the value's wildcard bits cleared |
| `Patterns.ParseOneLiteral` | src/pattern.rs:27-35 | a text holding one literal parses to the pattern of that literal's unit |
| `Patterns.ParseLiteralThen` | src/pattern.rs:27-35 | a literal, a space and a text that parses: the literal's unit comes first, then the units of the rest |
| `Patterns.ParsePatternLen` | src/pattern.rs:27-35 | the `len` of a parsed pattern is the number of whitespace-separated words in its text: one unit per literal |
| `Patterns.IsEmpty` | src/pattern.rs:85-87 | empty exactly when there are no units |
| `Patterns.Get` | src/pattern.rs:77-79 | Some exactly when the index is below the length, and then the unit at the index |
| `Patterns.Words` | src/pattern.rs:30 | every word of the split is non-empty and contains no whitespace |
| `Patterns.WordsOfJoined` | src/pattern.rs:30 | splitting words written out with single spaces gives back the same words |
| `Patterns.TwoWordsExample` | src/pattern.rs:115-121 | `0b?01? 0x?f` splits into its two literals |
| `Patterns.HexWildcardHighExample` | src/pattern.rs:117 | `0x?f` reads as value 0x0f, mask 0x0f |
| `Patterns.TwoLiteralsExample` | src/pattern.rs:115-121 | the source's test pattern parses into two units |
| `Patterns.ParseLiteralsOk` | src/pattern.rs:30-34 | parsing succeeds exactly when every literal parses, and then gives one unit per literal, in order |
| `Patterns.ParseLiteralsFirstError` | src/pattern.rs:31 | the first literal that fails decides the error, and no partial pattern is returned |
| `Patterns.ParseLiteralsAll` | src/pattern.rs:30-34 | when all literals parse, the pattern is their units in order |
| `Patterns.FromStr` | src/pattern.rs:27-35 | the loop that pushes unit after unit computes `ParsePattern` |
| `Patterns.Replace` | src/pattern.rs:90-107 | the indexed walk that overwrites in place, pushes the overhang and returns early on an undefined unit computes `ReplaceResult` |
| `Patterns.ReplaceFailsIff` | src/pattern.rs:98-100 | replacing fails, always with `ReplaceNotDefined`, exactly when a pattern unit past the data's end has a wildcard bit |
| `Patterns.ReplaceMatches` | src/pattern.rs:90-107 | on success the length is the longer of the two, each covered data unit is `set` by its pattern unit, the overhang is the pattern values in order, data past the pattern is unchanged, and every pattern position matches |
| `Patterns.ReplaceIdempotent` | src/pattern.rs:93-99 | replacing the result of a replace changes nothing |
| `Patterns.ReplaceShorterText` | src/pattern.rs:125 | the text `0x?a` parses to the one-unit pattern (0x0a, 0x0f) |
| `Patterns.HexHighWildcardExample` | src/pattern.rs:135-144 | `0x2?` reads as (0x20, 0xf0) and `0x3?` as (0x30, 0xf0) |
| `Patterns.HexDefinedExample` | src/pattern.rs:135 | `0x3c` reads as (0x3c, 0xff) and `0x4d` as (0x4d, 0xff) |
| `Patterns.ReplaceShorterExample` | src/pattern.rs:124-130 | `0x?a` on `[0x12, 0x1b]` gives `[0x1a, 0x1b]` |
| `Patterns.ReplaceLongerExample` | src/pattern.rs:133-139 | the units of `0x?a 0x2? 0x3c 0x4d`, written out by hand (each literal is proved to read as its unit, the whole text is not parsed), replace `[0x12, 0x1b]` by `[0x1a, 0x2b, 0x3c, 0x4d]` |
| `Patterns.ReplaceUndefinedExample` | src/pattern.rs:142-147 | the units of `0x?a 0x2? 0x3?`, written out by hand (each literal is proved to read as its unit, the whole text is not parsed), fail to replace `[0x12, 0x1b]` with `ReplaceNotDefined` |
| `Searchers.Drain` | src/searcher.rs:37-43 | nothing is handed out exactly when the window is empty, and `taken` is unchanged |
| `Searchers.DrainConserves` | src/searcher.rs:37-43 | what is handed out is a NonMatch, and it followed by the new window is the old window |
| `Searchers.Advance` | src/searcher.rs:47-66 | `taken` grows by exactly one and the window stays shorter than the pattern |
| `Searchers.AdvanceConserves` | src/searcher.rs:47-66 | the units handed out followed by the new window are the old window followed by the new unit |
| `Searchers.AdvanceKeepsPrefix` | src/searcher.rs:51-61 | a step that hands nothing out leaves a window whose units each match the pattern unit at their position |
| `Searchers.AdvanceMatch` | src/searcher.rs:52-59 | a match has one unit per pattern unit, each matching it, and its index is `taken` minus the pattern length |
| `Searchers.Searcher.constructor` | src/searcher.rs:26-34 | an empty window and nothing taken |
| `Searchers.Searcher.HandleExistingData` | src/searcher.rs:37-43 | an empty window gives None and stays empty; otherwise the first unit is removed and handed out as a NonMatch |
| `Searchers.Searcher.HandleNext` | src/searcher.rs:47-66 | the new state and result are `Advance` of the old state, `taken` grows by one and the window keeps fitting |
| `SearchIterators.PullEvent` | src/pattern_search_iterator.rs:54-60 | the read loop never passes the end, keeps the window fitting and counts every unit read; None only at the end with an empty window; every event shrinks the work left |
| `SearchIterators.NextEvent` | src/pattern_search_iterator.rs:49-61 | the same for a whole call, which drains a leftover unit first |
| `SearchIterators.PatternSearchIterator.constructor` | src/pattern_search_iterator.rs:25-30 | the cursor at the start and a fresh searcher with an empty window |
| `SearchIterators.PatternSearchIterator.Next` | src/pattern_search_iterator.rs:49-61 | drain, then read until the searcher hands out an event, then drain at the end: the result and new state are `NextEvent` of the old state |
| `SearchIterators.MatchLenFits` | src/searcher.rs:51 | the units counted at an attempt each match their pattern position and the next unit, if any, does not |
| `SearchIterators.Cut` | src/searcher.rs:51-64 | an attempt consumes at least one unit, and exactly the pattern's length when found |
| `SearchIterators.HeadFlattens` | src/searcher.rs:52-64 | an attempt's events carry exactly the units it consumes |
| `SearchIterators.ScanReadsInput` | src/pattern_search_iterator.rs:49-61 | the reference reading hands out every input unit once, in order, and each of its matches has the pattern's length, matches it unit by unit and is indexed by its offset |
| `SearchIterators.ScanMatchesDisjoint` | src/searcher.rs:52-59 | matches do not overlap and come in the order of the input |
| `SearchIterators.RunDrainsWindow` | src/pattern_search_iterator.rs:50-52 | leftover window units come out one NonMatch per call before anything else |
| `SearchIterators.PullFinishesAttempt` | src/searcher.rs:47-66 | reading on from an open attempt ends it with the event and leftover window the reference predicts |
| `SearchIterators.RunAttempt` | src/pattern_search_iterator.rs:49-61 | from an empty window the driver hands out one attempt's events and is back at an empty window after it |
| `SearchIterators.RunIsScan` | src/pattern_search_iterator.rs:49-61 | from every empty-window position the driver's events are the reference reading |
| `SearchIterators.SearchIsScan` | src/pattern_search_iterator.rs:49-61 | a whole search is the reference reading: flattened it is the input, and all its matches are valid |
| `SearchIterators.ExampleLowLiteral` | src/pattern_search_iterator.rs:108 | `0b???0????` reads as a unit with only bit 4 pinned, to 0 |
| `SearchIterators.ExampleHighLiteral` | src/pattern_search_iterator.rs:108 | `0b???1????` reads as a unit with only bit 4 pinned, to 1 |
| `SearchIterators.SearchExample` | src/pattern_search_iterator.rs:104-127 | the source's test, on the two units of its pattern written out by hand (each literal is proved to read as its unit, the whole text is not parsed): NonMatch 0x1a, Match [0x2b, 0x3c] at 1, Match [0x4d, 0x5e] at 3, NonMatch 0x6f, then nothing |
| `SearchIterators.MissedOverlapExample` | src/searcher.rs:62-64 | a pattern `[1, 2]` occurs in `[1, 1, 2]` at offset 1, yet the search hands out three NonMatch events, because a failed window is not scanned again |
| `OptFifos.FifoGet` | src/opt_fifo.rs:20-30 | an element comes out exactly when one is queued, and then exactly one is removed; a request that finds nothing disarms |
| `OptFifos.GetConserves` | src/opt_fifo.rs:20-30 | the element given out followed by those still queued are the elements queued before |
| `OptFifos.GetsDisarmed` | src/opt_fifo.rs:21-29 | a disarmed buffer answers every request with None and stays disarmed |
| `OptFifos.GetsAfterSet` | src/opt_fifo.rs:13-30 | after `set(v)` the requests give out v's elements in order, then None, which disarms, and None ever after |
| `OptFifos.LifecycleExample` | src/opt_fifo.rs:38-52 | the source's lifecycle test: None, then 2, 3, None, None after `set([2, 3])` |
| `OptFifos.OptFifo.constructor` | src/opt_fifo.rs:8-10 | disarmed |
| `OptFifos.OptFifo.Set` | src/opt_fifo.rs:13-16 | only a disarmed buffer can be set, and it then holds the vector |
| `OptFifos.OptFifo.Get` | src/opt_fifo.rs:20-30 | the reply and the new contents are `FifoGet` of the old contents |
| `Replacers.ReplaceEmptyIff` | src/replacer.rs:43 | a replacement is empty exactly when both the match data and the pattern are |
| `Replacers.HandleStep` | src/replacer.rs:38-50 | a NonMatch unit comes out as Ok and the buffer is left alone; a replaced match arms the buffer; an undefined replacement is an error and leaves the buffer alone |
| `Replacers.HandleStepSplits` | src/replacer.rs:41-45 | the unit handed out followed by the units buffered are the whole replacement |
| `Replacers.Replacer.constructor` | src/replacer.rs:23-28 | a fresh disarmed buffer |
| `Replacers.Replacer.HandleExistingData` | src/replacer.rs:32-34 | exactly the buffer's `get` |
| `Replacers.Replacer.HandleNext` | src/replacer.rs:38-50 | calls `Replace` and `set`; the result and the new buffer are `HandleStep` of the old buffer |
| `ReplaceIterators.ReplaceNext` | src/pattern_replace_iterator.rs:47-56 | the cursor only moves forward, by at most one; None exactly when the upstream is exhausted and the buffer is drained; a call that pulls nothing shrinks the buffer |
| `ReplaceIterators.RunDrainsBuffer` | src/pattern_replace_iterator.rs:48-50 | buffered units come out as Ok, one per call, before any upstream pull |
| `ReplaceIterators.RunEvent` | src/pattern_replace_iterator.rs:52-55 | one upstream event becomes its whole output (a unit, a whole replacement, or one error) and the next event follows |
| `ReplaceIterators.ReplaceRunIsReplaced` | src/pattern_replace_iterator.rs:47-56 | everything the driver hands out is each event's output in order: NonMatch units as Ok, each replacement as consecutive Ok units, each undefined replacement as one error |
| `ReplaceIterators.SearchIsReplaceable` | src/replacer.rs:43-44 | a search's matches are never empty, so replacing them never removes from an empty vector |
| `ReplaceIterators.PatternReplaceIterator.constructor` | src/pattern_replace_iterator.rs:23-28 | the cursor at the start and a replacer with a fresh disarmed buffer |
| `ReplaceIterators.PatternReplaceIterator.Next` | src/pattern_replace_iterator.rs:47-56 | the result and new state are `ReplaceNext` of the old state |
| `Takers.TakeStep` | src/taker.rs:22-36 | `found` grows by one per match and never on a NonMatch; an event that is not a demoted match passes unchanged and leaves the buffer alone; a match beyond `count` gives its first unit as a NonMatch and arms the buffer |
| `Takers.TakeStepConserves` | src/taker.rs:22-36 | the units handed out followed by the units buffered are the event's units followed by those buffered before |
| `Takers.Taker.constructor` | src/taker.rs:10-16 | no match found yet and a fresh disarmed buffer |
| `Takers.Taker.HandleExistingData` | src/taker.rs:18-20 | exactly the buffer's `get` |
| `Takers.Taker.HandleNext` | src/taker.rs:22-36 | the result, the counter and the new buffer are `TakeStep` of the old state |
| `TakeIterators.TakeNext` | src/pattern_take_iterator.rs:26-35 | the cursor only moves forward, by at most one, and the counter never falls; None exactly when the upstream is exhausted and the buffer is drained; a call that pulls nothing shrinks the buffer |
| `TakeIterators.TakeRunDrainsBuffer` | src/pattern_take_iterator.rs:27-29 | buffered units come out as NonMatch events, one per call, before any upstream pull |
| `TakeIterators.TakeRunEvent` | src/pattern_take_iterator.rs:31-34 | one upstream event becomes its whole output and the next event follows with the counter advanced |
| `TakeIterators.TakeRunIsTaken` | src/pattern_take_iterator.rs:26-35 | everything the driver hands out is each event's output in order: matches within the count unchanged, every later match as consecutive NonMatch events of its units |
| `TakeIterators.TakenKeepsUnits` | src/taker.rs:22-36 | taking changes no unit: the output flattened is the upstream flattened |
| `TakeIterators.TakenKeepsFirstMatches` | src/taker.rs:25-31 | the matches that come out are exactly the upstream's first `count` matches, less those already found, unchanged and in order |
| `TakeIterators.TakeRunFromStart` | src/pattern_take_iterator.rs:26-35 | a whole take run keeps the upstream's units in order and lets exactly its first `count` matches through, so at most `count` |
| `TakeIterators.SearchIsTakeable` | src/taker.rs:27 | a search's matches are never empty, so demoting them never removes from an empty vector |
| `TakeIterators.PatternTakeIterator.constructor` | src/pattern_take_iterator.rs:12-17 | the cursor at the start and a taker with nothing found and a fresh disarmed buffer |
| `TakeIterators.PatternTakeIterator.Next` | src/pattern_take_iterator.rs:26-35 | the result and new state are `TakeNext` of the old state |

## Left out

- Width polymorphism: every unit is a `bv8`. `bits` is modelled for this width only, so the source's unit test on `i8` and `u32` widths is not.
- Upstream iterators: each driver reads from a finite `seq` through a cursor. A lazy or unbounded upstream, and end of input that arrives late, are not modelled.
- The `ref` and `result` variants of the drivers repeat the same loops over borrowed or fallible input. They are not modelled, so `IteratorError` is declared but never produced.
- The skip drivers depend on `Skipper`, whose source is not part of this model.
- The extension traits (`search_pattern`, `replace_pattern`, `take_pattern`) are construction plumbing and are not modelled. `Pattern::new` is the empty pattern `Pattern([])`.
- `Debug` formatting of units and patterns, and `Display` of patterns, are not modelled.
- `from_str_radix` on a one-character string is replaced by `CharDigit`/`DigitValue`: ASCII digits, then letters in either case. The `ParseIntError` wrapped inside `InvalidChar` is dropped, as are the error messages.
- The literal parser's `&string[..2]` panics on literals shorter than two bytes and slices UTF-8 bytes. `Parse` and `FromStr` instead require that the literal starts with two ASCII characters (`LiteralShaped`). The pattern parser requires this only of the literals it reaches: those up to and including the first that fails (`LiteralsShaped`), since collecting stops at the first error.
- MaskedBytes.FromStringWithoutHeader: the numeric value of a parsed literal, digit by digit and for every radix, is not proved in general. What is proved in general is whether every bit is pinned (`AccumulateDefinedIff`), that the value is clear wherever the mask is (`AccumulateClearsWildcards`), and the binary `Display` round trip. Which mask bits each `?` clears, and octal and hex values, are proved only on examples.
- `Searcher::matched` is written but never read, so it is dropped. `Vec::with_capacity` and `mem::swap` are modelled as handing over the window and resetting it to empty.
- Counters (`taken`, `found`, match indices) are unbounded `nat`s. A `usize` overflow is not modelled.
- Panics become preconditions:
  - a search with an empty pattern (the `unwrap` at src/searcher.rs:51). The source panics only once a unit is handled, so an empty pattern over empty input, which just returns None, is excluded as well;
  - a second `set` on an armed buffer. `CanHandle` asks for a disarmed buffer only when the replacement succeeds, since a failing one returns before `set`;
  - `remove(0)` on an empty replacement or an empty demoted match (`CanHandle`, `CanTake`).
  - Lemmas show that a search's output always meets the last one (`SearchIsReplaceable`, `SearchIsTakeable`).
- TakeIterators.Takeable: the take driver requires every upstream match to be non-empty. `CanTake`, like the source, asks this only of demoted matches, so an upstream with an empty match within the count is excluded although the source accepts it. A search never produces one (`SearchIsTakeable`).
- `Pattern::replace` overwrites a local sequence value rather than the caller's `Vec`. The caller gives the vector up anyway, so nothing is shared.
