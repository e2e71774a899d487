/** A pattern: the units to look for, in order, each with its own wildcard
    bits.  Written down as literals separated by whitespace. */
module Patterns {
  import opened Lib
  import opened MaskedBytes

  datatype Pattern = Pattern(values: seq<MaskedByte>)

  function Len(p: Pattern): nat
  {
    |p.values|
  }

  function IsEmpty(p: Pattern): (b: bool)
    ensures b <==> p.values == []
  {
    Len(p) == 0
  }

  /** The unit at `index`, if the pattern is that long. */
  function Get(p: Pattern, index: nat): (r: Option<MaskedByte>)
    ensures r.Some? <==> index < Len(p)
    ensures r.Some? ==> r.value == p.values[index]
  {
    if index < |p.values| then Some(p.values[index]) else None
  }

  // ---------------------------------------------------------------------
  // Splitting on whitespace.
  // ---------------------------------------------------------------------

  /** The characters Unicode gives the White_Space property, which is what
      separates the words of a pattern. */
  predicate IsWhitespace(c: char)
  {
    || '\U{0009}' <= c <= '\U{000D}'
    || c == '\U{0020}' || c == '\U{0085}' || c == '\U{00A0}' || c == '\U{1680}'
    || '\U{2000}' <= c <= '\U{200A}'
    || c == '\U{2028}' || c == '\U{2029}' || c == '\U{202F}' || c == '\U{205F}' || c == '\U{3000}'
  }

  predicate IsWord(w: string)
  {
    w != [] && forall i :: 0 <= i < |w| ==> !IsWhitespace(w[i])
  }

  /** Length of the run of non-whitespace characters `s` starts with. */
  function WordLength(s: string): (n: nat)
    ensures n <= |s|
    ensures forall i :: 0 <= i < n ==> !IsWhitespace(s[i])
    ensures n < |s| ==> IsWhitespace(s[n])
  {
    if s == [] || IsWhitespace(s[0]) then 0 else 1 + WordLength(s[1..])
  }

  /** The maximal runs of non-whitespace characters, in order. */
  function Words(s: string): (ws: seq<string>)
    ensures forall i :: 0 <= i < |ws| ==> IsWord(ws[i])
    decreases |s|
  {
    if s == [] then []
    else if IsWhitespace(s[0]) then Words(s[1..])
    else
      var n := WordLength(s);
      [s[..n]] + Words(s[n..])
  }

  /** The words written out with one space between neighbours. */
  function Joined(ws: seq<string>): string
  {
    if ws == [] then "" else if |ws| == 1 then ws[0] else ws[0] + " " + Joined(ws[1..])
  }

  lemma {:induction false} WordLengthOfWord(w: string, rest: string)
    requires IsWord(w) && (rest == [] || IsWhitespace(rest[0]))
    ensures WordLength(w + rest) == |w|
    decreases |w|
  {
    var s := w + rest;
    if |w| > 1 {
      assert s[1..] == w[1..] + rest;
      WordLengthOfWord(w[1..], rest);
    } else {
      assert s[1..] == rest;
    }
  }

  /** Splitting words written out with spaces between them gives the words back. */
  lemma {:induction false} WordsOfJoined(ws: seq<string>)
    requires forall i :: 0 <= i < |ws| ==> IsWord(ws[i])
    ensures Words(Joined(ws)) == ws
  {
    if |ws| == 1 {
      WordsOfWord(ws[0]);
    } else if ws != [] {
      WordsOfJoined(ws[1..]);
      WordsOfJoinedStep(ws);
    }
  }

  lemma WordsOfJoinedStep(ws: seq<string>)
    requires |ws| > 1 && IsWord(ws[0])
    requires Words(Joined(ws[1..])) == ws[1..]
    ensures Words(Joined(ws)) == ws
  {
    var w, rest := ws[0], Joined(ws[1..]);
    assert Joined(ws) == w + (" " + rest);
    WordsOfWordThenSpace(w, rest);
    assert [w] + ws[1..] == ws;
  }

  lemma WordsOfWord(w: string)
    requires IsWord(w)
    ensures Words(w) == [w]
  {
    WordLengthOfWord(w, "");
    assert w + "" == w && w[..|w|] == w && w[|w|..] == "";
  }

  lemma WordsOfWordThenSpace(w: string, rest: string)
    requires IsWord(w)
    ensures Words(w + (" " + rest)) == [w] + Words(rest)
  {
    var s := w + (" " + rest);
    WordLengthOfWord(w, " " + rest);
    assert s[..|w|] == w;
    assert s[|w|..] == " " + rest;
    assert (" " + rest)[1..] == rest;
  }

  // ---------------------------------------------------------------------
  // Parsing a pattern.
  // ---------------------------------------------------------------------

  /** Every literal the parser reaches starts with two ASCII characters:
      those up to and including the first that fails to parse. */
  predicate LiteralsShaped(ws: seq<string>)
    decreases |ws|
  {
    ws != [] ==> LiteralShaped(ws[0]) && (Parse(ws[0]).Ok? ==> LiteralsShaped(ws[1..]))
  }

  /** The literals parsed in order; the first one that fails decides the error. */
  function ParseLiterals(ws: seq<string>): Result<seq<MaskedByte>, Error>
    requires LiteralsShaped(ws)
  {
    if ws == [] then Ok([])
    else
      match Parse(ws[0])
      case Err(e) => Err(e)
      case Ok(m) =>
        match ParseLiterals(ws[1..])
        case Err(e) => Err(e)
        case Ok(ms) => Ok([m] + ms)
  }

  /** Parsing succeeds exactly when every literal parses, and then yields one
      unit per literal. */
  lemma {:induction false} ParseLiteralsOk(ws: seq<string>)
    requires LiteralsShaped(ws)
    ensures ParseLiterals(ws).Ok? <==> forall i :: 0 <= i < |ws| ==> LiteralShaped(ws[i]) && Parse(ws[i]).Ok?
    ensures ParseLiterals(ws).Ok? ==>
      |ParseLiterals(ws).value| == |ws| &&
      forall i :: 0 <= i < |ws| ==> ParseLiterals(ws).value[i] == Parse(ws[i]).value
  {
    if ws != [] && Parse(ws[0]).Ok? {
      ParseLiteralsOk(ws[1..]);
      if ParseLiterals(ws[1..]).Ok? {
        var ms := ParseLiterals(ws).value;
        assert forall i :: 1 <= i < |ws| ==> ms[i] == ParseLiterals(ws[1..]).value[i - 1];
      } else {
        var k :| 0 <= k < |ws[1..]| && !(LiteralShaped(ws[1..][k]) && Parse(ws[1..][k]).Ok?);
        assert !(LiteralShaped(ws[k + 1]) && Parse(ws[k + 1]).Ok?);
      }
    }
  }

  /** When the literals before `i` parse and literal `i` does not, parsing
      stops there with that literal's error. */
  lemma {:induction false} ParseLiteralsFirstError(ws: seq<string>, i: nat)
    requires LiteralsShaped(ws) && i < |ws|
    requires forall j :: 0 <= j < i ==> LiteralShaped(ws[j]) && Parse(ws[j]).Ok?
    requires LiteralShaped(ws[i]) && Parse(ws[i]).Err?
    ensures ParseLiterals(ws) == Err(Parse(ws[i]).error)
  {
    if i > 0 {
      assert forall j :: 0 <= j < i - 1 ==> ws[1..][j] == ws[j + 1];
      ParseLiteralsFirstError(ws[1..], i - 1);
    }
  }

  /** When all literals parse, the result is the units in order. */
  lemma {:induction false} ParseLiteralsAll(ws: seq<string>, ms: seq<MaskedByte>)
    requires LiteralsShaped(ws) && |ms| == |ws|
    requires forall j :: 0 <= j < |ws| ==> LiteralShaped(ws[j]) && Parse(ws[j]) == Ok(ms[j])
    ensures ParseLiterals(ws) == Ok(ms)
  {
    if ws != [] {
      assert forall j :: 0 <= j < |ws| - 1 ==> ws[1..][j] == ws[j + 1] && ms[1..][j] == ms[j + 1];
      ParseLiteralsAll(ws[1..], ms[1..]);
      assert ms == [ms[0]] + ms[1..];
    }
  }

  /** A pattern from its text: every whitespace-separated word is a literal. */
  function ParsePattern(s: string): Result<Pattern, Error>
    requires LiteralsShaped(Words(s))
  {
    match ParseLiterals(Words(s))
    case Ok(ms) => Ok(Pattern(ms))
    case Err(e) => Err(e)
  }

  /** A text of one literal parses to the pattern of its unit. */
  lemma ParseOneLiteral(w: string, m: MaskedByte)
    requires IsWord(w) && LiteralShaped(w) && Parse(w) == Ok(m)
    ensures LiteralsShaped(Words(w))
    ensures ParsePattern(w) == Ok(Pattern([m]))
  {
    WordsOfWord(w);
    assert [w][1..] == [] && LiteralsShaped([w][1..]) && ParseLiterals([w][1..]) == Ok([]);
    assert [m] + [] == [m];
  }

  /** A literal, a space and a text that parses: the literal's unit comes
      first, then the units of the rest. */
  lemma ParseLiteralThen(text: string, w: string, rest: string, m: MaskedByte, ms: seq<MaskedByte>)
    requires text == w + " " + rest
    requires IsWord(w) && LiteralShaped(w) && Parse(w) == Ok(m)
    requires LiteralsShaped(Words(rest)) && ParsePattern(rest) == Ok(Pattern(ms))
    ensures LiteralsShaped(Words(text))
    ensures ParsePattern(text) == Ok(Pattern([m] + ms))
  {
    assert text == w + (" " + rest);
    WordsOfWordThenSpace(w, rest);
    assert ([w] + Words(rest))[1..] == Words(rest);
  }

  /** A parsed pattern has one unit per word of its text. */
  lemma ParsePatternLen(s: string)
    requires LiteralsShaped(Words(s))
    ensures ParsePattern(s).Ok? ==> Len(ParsePattern(s).value) == |Words(s)|
  {
    ParseLiteralsOk(Words(s));
  }

  /** Parses the words one at a time, pushing each unit, and returns the
      first error as soon as it occurs. */
  method FromStr(s: string) returns (r: Result<Pattern, Error>)
    requires LiteralsShaped(Words(s))
    ensures r == ParsePattern(s)
  {
    var words := Words(s);
    var values: seq<MaskedByte> := [];
    var i := 0;
    while i < |words|
      invariant i <= |words| && |values| == i
      invariant forall j :: 0 <= j < i ==> LiteralShaped(words[j]) && Parse(words[j]) == Ok(values[j])
      invariant LiteralsShaped(words[i..])
    {
      assert words[i..][1..] == words[i + 1..];
      var v := MaskedBytes.FromStr(words[i]);
      if v.Err? {
        ParseLiteralsFirstError(words, i);
        return Err(v.error);
      }
      values := values + [v.value];
      i := i + 1;
    }
    ParseLiteralsAll(words, values);
    return Ok(Pattern(values));
  }

  // ---------------------------------------------------------------------
  // Replacing.
  // ---------------------------------------------------------------------

  /** The pattern units past the end of the data, which replacing appends,
      all have every bit pinned. */
  predicate OverhangDefined(values: seq<MaskedByte>, n: nat)
  {
    forall i :: n <= i < |values| ==> Defined(values[i]).Some?
  }

  /** What replacing produces at position `i`: the pattern unit set onto the
      data where both exist, the data unit beyond the pattern, and the pattern
      unit's value beyond the data. */
  function ReplacedAt(values: seq<MaskedByte>, data: seq<bv8>, i: nat): bv8
    requires i < |values| || i < |data|
  {
    if i < |values| && i < |data| then Set(values[i], data[i])
    else if i < |data| then data[i]
    else values[i].value
  }

  function Max(a: nat, b: nat): nat
  {
    if a < b then b else a
  }

  /** The data overwritten by the pattern and extended by the overhang, or
      `ReplaceNotDefined` when an overhang unit has wildcard bits. */
  function ReplaceResult(p: Pattern, data: seq<bv8>): Result<seq<bv8>, Error>
  {
    if !OverhangDefined(p.values, |data|) then Err(ReplaceNotDefined)
    else Ok(seq(Max(|data|, |p.values|), i requires 0 <= i < Max(|data|, |p.values|) => ReplacedAt(p.values, data, i)))
  }

  /** Walks the pattern with an index: overwrites the data unit at the index
      when there is one, otherwise appends the pattern unit's value when it is
      defined and fails when it is not. */
  method Replace(p: Pattern, data: seq<bv8>) returns (r: Result<seq<bv8>, Error>)
    ensures r == ReplaceResult(p, data)
  {
    var out := data;
    var index := 0;
    while index < |p.values|
      invariant index <= |p.values|
      invariant |out| == Max(|data|, index)
      invariant forall j :: 0 <= j < |out| ==>
        out[j] == if j < index then ReplacedAt(p.values, data, j) else data[j]
      invariant forall j :: |data| <= j < index ==> Defined(p.values[j]).Some?
    {
      var m := p.values[index];
      if index < |out| {
        out := out[index := Set(m, out[index])];
      } else {
        var d := Defined(m);
        if d.None? {
          assert !OverhangDefined(p.values, |data|) by {
            assert |data| <= index < |p.values| && Defined(p.values[index]).None?;
          }
          return Err(ReplaceNotDefined);
        }
        out := out + [d.value];
      }
      index := index + 1;
    }
    assert out == ReplaceResult(p, data).value;
    return Ok(out);
  }

  /** Replacing fails exactly when some pattern unit past the end of the data
      has a wildcard bit. */
  lemma ReplaceFailsIff(p: Pattern, data: seq<bv8>)
    ensures ReplaceResult(p, data).Err? <==> exists i :: |data| <= i < |p.values| && p.values[i].mask != 0xFF
    ensures ReplaceResult(p, data).Err? ==> ReplaceResult(p, data).error == ReplaceNotDefined
  {
  }

  /** On success every position the pattern covers matches it: the data there
      is overwritten on the pinned bits, and the overhang is the pattern
      units' values in order; the data past the pattern is untouched, and the
      length is the longer of the two. */
  lemma ReplaceMatches(p: Pattern, data: seq<bv8>)
    requires ReplaceResult(p, data).Ok?
    ensures |ReplaceResult(p, data).value| == Max(|data|, |p.values|)
    ensures forall i :: 0 <= i < |p.values| ==> Matches(p.values[i], ReplaceResult(p, data).value[i])
    ensures forall i :: 0 <= i < |p.values| && i < |data| ==> ReplaceResult(p, data).value[i] == Set(p.values[i], data[i])
    ensures forall i :: |data| <= i < |p.values| ==> ReplaceResult(p, data).value[i] == p.values[i].value
    ensures forall i :: |p.values| <= i < |data| ==> ReplaceResult(p, data).value[i] == data[i]
  {
    var out := ReplaceResult(p, data).value;
    forall i | 0 <= i < |p.values|
      ensures Matches(p.values[i], out[i])
    {
      if i >= |data| {
        assert Defined(p.values[i]).Some?;
      }
    }
  }

  /** Replacing data that already carries the pattern changes nothing more. */
  lemma ReplaceIdempotent(p: Pattern, data: seq<bv8>)
    requires ReplaceResult(p, data).Ok?
    ensures ReplaceResult(p, ReplaceResult(p, data).value) == ReplaceResult(p, data)
  {
    var out := ReplaceResult(p, data).value;
    assert OverhangDefined(p.values, |out|);
    var again := ReplaceResult(p, out).value;
    forall i | 0 <= i < |out|
      ensures again[i] == out[i]
    {
      if i < |p.values| && i < |data| {
        SetIdempotent(p.values[i], data[i]);
      }
    }
    assert again == out;
  }

  // ---------------------------------------------------------------------
  // The source's own examples.
  // ---------------------------------------------------------------------

  lemma TwoWordsExample()
    ensures Words("0b?01? 0x?f") == ["0b?01?", "0x?f"]
  {
    assert IsWord("0b?01?") && IsWord("0x?f");
    assert Joined(["0b?01?", "0x?f"]) == "0b?01? 0x?f";
    WordsOfJoined(["0b?01?", "0x?f"]);
  }

  lemma HexWildcardHighExample()
    ensures Parse("0x?f") == Ok(MaskedByte(0x0F, 0x0F))
  {
    var f := "0x?f";
    assert f[..2] == "0x" && f[2..] == "?f" && "?f"[..1] == "?" && "?"[..0] == "";
    assert Accumulate("?", 4) == Ok(MaskedByte(0x00, 0xF0));
  }

  /** The two words are literals of two units. */
  lemma TwoLiteralsExample()
    ensures LiteralsShaped(["0b?01?", "0x?f"])
    ensures ParseLiterals(["0b?01?", "0x?f"]) == Ok([MaskedByte(0x02, 0xF6), MaskedByte(0x0F, 0x0F)])
  {
    BinaryLiteralExample();
    HexWildcardHighExample();
    ParseLiteralsAll(["0b?01?", "0x?f"], [MaskedByte(0x02, 0xF6), MaskedByte(0x0F, 0x0F)]);
  }

  /** The other literals of the source's replace tests. */
  lemma HexHighWildcardExample()
    ensures Parse("0x2?") == Ok(MaskedByte(0x20, 0xF0))
    ensures Parse("0x3?") == Ok(MaskedByte(0x30, 0xF0))
  {
    assert "0x2?"[..2] == "0x" && "0x2?"[2..] == "2?" && "2?"[..1] == "2" && "2"[..0] == "";
    assert Accumulate("2", 4) == Ok(MaskedByte(0x02, 0xFF));
    assert "0x3?"[..2] == "0x" && "0x3?"[2..] == "3?" && "3?"[..1] == "3" && "3"[..0] == "";
    assert Accumulate("3", 4) == Ok(MaskedByte(0x03, 0xFF));
  }

  lemma HexDefinedExample()
    ensures Parse("0x3c") == Ok(MaskedByte(0x3C, 0xFF))
    ensures Parse("0x4d") == Ok(MaskedByte(0x4D, 0xFF))
  {
    assert "0x3c"[..2] == "0x" && "0x3c"[2..] == "3c" && "3c"[..1] == "3" && "3"[..0] == "";
    assert Accumulate("3", 4) == Ok(MaskedByte(0x03, 0xFF));
    assert "0x4d"[..2] == "0x" && "0x4d"[2..] == "4d" && "4d"[..1] == "4" && "4"[..0] == "";
    assert Accumulate("4", 4) == Ok(MaskedByte(0x04, 0xFF));
  }

  /** The pattern text of the source's shorter replace test parses to the
      unit the example below uses. */
  lemma ReplaceShorterText()
    ensures LiteralsShaped(Words("0x?a"))
    ensures ParsePattern("0x?a") == Ok(Pattern([MaskedByte(0x0A, 0x0F)]))
  {
    HexLiteralExample();
    assert IsWord("0x?a");
    ParseOneLiteral("0x?a", MaskedByte(0x0A, 0x0F));
  }

  /** A pattern shorter than the data leaves the rest of the data alone. */
  lemma ReplaceShorterExample()
    ensures ReplaceResult(Pattern([MaskedByte(0x0A, 0x0F)]), [0x12, 0x1B]) == Ok([0x1A, 0x1B])
  {
    var r := ReplaceResult(Pattern([MaskedByte(0x0A, 0x0F)]), [0x12, 0x1B]).value;
    assert |r| == 2 && r[0] == 0x1A && r[1] == 0x1B;
    assert r == [0x1A, 0x1B];
  }

  /** A pattern longer than the data appends its defined units. */
  lemma ReplaceLongerExample()
    ensures ReplaceResult(Pattern([MaskedByte(0x0A, 0x0F), MaskedByte(0x20, 0xF0),
                                   MaskedByte(0x3C, 0xFF), MaskedByte(0x4D, 0xFF)]), [0x12, 0x1B])
         == Ok([0x1A, 0x2B, 0x3C, 0x4D])
  {
    var p := Pattern([MaskedByte(0x0A, 0x0F), MaskedByte(0x20, 0xF0),
                      MaskedByte(0x3C, 0xFF), MaskedByte(0x4D, 0xFF)]);
    assert OverhangDefined(p.values, 2);
    var r := ReplaceResult(p, [0x12, 0x1B]).value;
    assert |r| == 4 && r[0] == 0x1A && r[1] == 0x2B && r[2] == 0x3C && r[3] == 0x4D;
    assert r == [0x1A, 0x2B, 0x3C, 0x4D];
  }

  /** An overhang unit with wildcard bits has no value to append. */
  lemma ReplaceUndefinedExample()
    ensures ReplaceResult(Pattern([MaskedByte(0x0A, 0x0F), MaskedByte(0x20, 0xF0),
                                   MaskedByte(0x30, 0xF0)]), [0x12, 0x1B])
         == Err(ReplaceNotDefined)
  {
    var p := Pattern([MaskedByte(0x0A, 0x0F), MaskedByte(0x20, 0xF0), MaskedByte(0x30, 0xF0)]);
    assert Defined(p.values[2]).None?;
  }
}
