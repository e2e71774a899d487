/** One unit of a pattern: a value together with a mask of the bits that
    are pinned.  Where a mask bit is 0 the value bit carries no meaning. */
module MaskedBytes {
  import opened Lib

  datatype MaskedByte = MaskedByte(value: bv8, mask: bv8)

  /** Bit `k` of `x`, counted from the least significant bit. */
  predicate Bit(x: bv8, k: nat)
    requires k < 8
  {
    (x >> k) & 1 == 1
  }

  /** `d` agrees with `m.value` on every pinned bit; wildcard bits are ignored. */
  predicate Matches(m: MaskedByte, d: bv8)
  {
    d & m.mask == m.value & m.mask
  }

  /** Only the pinned bits of the data take part in matching. */
  lemma MatchesIgnoresWildcards(m: MaskedByte, d: bv8, x: bv8)
    requires x & m.mask == 0
    ensures Matches(m, d ^ x) <==> Matches(m, d)
  {
    FlipOutsideMask(m.mask, d, x);
  }

  lemma FlipOutsideMask(mask: bv8, d: bv8, x: bv8)
    requires x & mask == 0
    ensures (d ^ x) & mask == d & mask
  {
  }

  /** Overwrites the pinned bits of `d` with the value's bits and keeps the others. */
  function Set(m: MaskedByte, d: bv8): bv8
  {
    (d & !m.mask) | (m.value & m.mask)
  }

  /** The pinned bits of the result are the value's, the free bits are the
      data's, so the result matches. */
  lemma SetPins(m: MaskedByte, d: bv8)
    ensures Set(m, d) & m.mask == m.value & m.mask
    ensures Set(m, d) & !m.mask == d & !m.mask
    ensures Matches(m, Set(m, d))
  {
  }

  /** Overwriting twice is overwriting once, and a unit that already matches is left alone. */
  lemma SetIdempotent(m: MaskedByte, d: bv8)
    ensures Set(m, Set(m, d)) == Set(m, d)
    ensures Matches(m, d) <==> Set(m, d) == d
  {
  }

  /** The value of a unit whose every bit is pinned, otherwise nothing. */
  function Defined(m: MaskedByte): Option<bv8>
  {
    if m.mask == 0xFF then Some(m.value) else None
  }

  /** A defined unit's value matches it, and setting it onto any data gives
      that value. */
  lemma DefinedPins(m: MaskedByte)
    requires Defined(m).Some?
    ensures Matches(m, Defined(m).value) && forall d :: Set(m, d) == Defined(m).value
  {
  }

  /** A unit is defined exactly when it matches a single value. */
  lemma DefinedIffUnique(m: MaskedByte)
    ensures Defined(m).Some? <==> forall d, e :: Matches(m, d) && Matches(m, e) ==> d == e
  {
    if m.mask != 0xFF {
      var lo, hi := Set(m, 0), Set(m, 0xFF);
      assert Matches(m, lo) && Matches(m, hi) && lo != hi;
    }
  }

  /** Bit width of the unit type: the number of zero bits of 0. */
  function Bits(): (n: nat)
    ensures n == 8
  {
    CountZeros(0, 8)
  }

  /** Number of zero bits among the lowest `k` bits of `x`. */
  function CountZeros(x: bv8, k: nat): nat
    requires k <= 8
  {
    if k == 0 then 0 else CountZeros(x, k - 1) + (if Bit(x, k - 1) then 0 else 1)
  }

  // ---------------------------------------------------------------------
  // Parsing a literal: a radix prefix, then digits or `?` wildcards.
  // ---------------------------------------------------------------------

  /** The radix of a digit group `bits` wide: two to the power `bits`. */
  function Radix(bits: nat): nat
    requires 1 <= bits <= 5
  {
    if bits == 1 then 2 else if bits == 2 then 4 else if bits == 3 then 8
    else if bits == 4 then 16 else 32
  }

  /** The bits of one digit group: the radix minus one. */
  function PartMask(bits: nat): bv8
    requires 1 <= bits <= 5
  {
    if bits == 1 then 0x01 else if bits == 2 then 0x03 else if bits == 3 then 0x07
    else if bits == 4 then 0x0F else 0x1F
  }

  /** The digits and letters in order of their value. */
  const DigitChars: string := "0123456789abcdefghijklmnopqrstuvwxyz"

  /** The value of an ASCII digit or letter, letters in either case standing
      for 10 to 35; 36 for every other character. */
  function CharDigit(c: char): (d: nat)
    ensures d <= 36
  {
    if '0' <= c <= '9' then c as int - '0' as int
    else if 'a' <= c <= 'z' then c as int - 'a' as int + 10
    else if 'A' <= c <= 'Z' then c as int - 'A' as int + 10
    else 36
  }

  /** Every value below 36 has a digit character, and upper-case letters mean
      what lower-case ones do. */
  lemma CharDigitInverse(d: nat)
    requires d < 36
    ensures CharDigit(DigitChars[d]) == d
    ensures d >= 10 ==> CharDigit((DigitChars[d] as int - 32) as char) == d
  {
  }

  /** The value of `c` as a single digit of radix `2^bits`; nothing if `c` is
      no digit of that radix. */
  function DigitValue(c: char, bits: nat): (r: Option<bv8>)
    requires 1 <= bits <= 5
    ensures r.Some? <==> CharDigit(c) < Radix(bits)
    ensures r.Some? ==> r.value as int == CharDigit(c) && r.value & !PartMask(bits) == 0
  {
    var d := CharDigit(c);
    if d < Radix(bits) then Some(PartMask(bits) & d as bv8) else None
  }

  /** `x` rotated left by `n` bits, one bit at a time: the bits leaving at the
      top come back at the bottom. */
  function RotateUp(x: bv8, n: nat): bv8
    requires 1 <= n <= 5
  {
    if n == 1 then x.RotateLeft(1) else if n == 2 then x.RotateLeft(2)
    else if n == 3 then x.RotateLeft(3) else if n == 4 then x.RotateLeft(4)
    else x.RotateLeft(5)
  }

  /** One character of the digits: the groups so far move up by one group
      width, failing if a set value bit or a cleared mask bit would leave the
      unit, and the new low group is a wildcard (`?`) or the digit. */
  function FeedChar(acc: MaskedByte, c: char, bits: nat): Result<MaskedByte, ByteError>
    requires 1 <= bits <= 5
  {
    var pm := PartMask(bits);
    if RotateUp(acc.value, bits) & pm != 0 then Err(NumberTooBig)
    else if RotateUp(acc.mask, bits) & pm != pm then Err(NumberTooBig)
    else if c == '?' then Ok(MaskedByte(RotateUp(acc.value, bits) & !pm, RotateUp(acc.mask, bits) & !pm))
    else if DigitValue(c, bits).None? then Err(InvalidChar(c))
    else Ok(MaskedByte((RotateUp(acc.value, bits) & !pm) | DigitValue(c, bits).value,
                       (RotateUp(acc.mask, bits) & !pm) | pm))
  }

  /** The digits read left to right, starting from value 0 with every bit pinned;
      the first failing character decides the error. */
  function Accumulate(s: string, bits: nat): Result<MaskedByte, ByteError>
    requires 1 <= bits <= 5
    decreases |s|
  {
    if s == [] then Ok(MaskedByte(0x00, 0xFF))
    else
      match Accumulate(s[..|s| - 1], bits)
      case Err(e) => Err(e)
      case Ok(acc) => FeedChar(acc, s[|s| - 1], bits)
  }

  /** Once a prefix of the digits fails, the whole literal fails the same way. */
  lemma {:induction false} AccumulateErrSticks(s: string, i: nat, bits: nat)
    requires 1 <= bits <= 5 && i <= |s|
    requires Accumulate(s[..i], bits).Err?
    ensures Accumulate(s, bits) == Accumulate(s[..i], bits)
  {
    if i < |s| {
      assert s[..|s| - 1][..i] == s[..i];
      AccumulateErrSticks(s[..|s| - 1], i, bits);
    } else {
      assert s[..i] == s;
    }
  }

  /** Reads the digits after the prefix, `bits` bits per character, one
      `FeedChar` step per character and stopping at the first error. */
  method FromStringWithoutHeader(s: string, bits: nat) returns (r: Result<MaskedByte, ByteError>)
    requires 1 <= bits <= 5
    ensures r == Accumulate(s, bits)
  {
    var acc := MaskedByte(0x00, 0xFF);
    var i := 0;
    while i < |s|
      invariant i <= |s|
      invariant Accumulate(s[..i], bits) == Ok(acc)
    {
      assert s[..i + 1][..i] == s[..i];
      var step := FeedChar(acc, s[i], bits);
      if step.Err? {
        AccumulateErrSticks(s, i + 1, bits);
        return Err(step.error);
      }
      acc := step.value;
      i := i + 1;
    }
    assert s[..i] == s;
    return Ok(acc);
  }

  /** The slice `[..2]` of the source is taken on bytes; with two ASCII
      characters in front it is exactly the first two characters. */
  predicate LiteralShaped(s: string)
  {
    |s| >= 2 && s[0] < 128 as char && s[1] < 128 as char
  }

  /** A group width that one of the radix prefixes selects: binary, octal
      or hexadecimal digits. */
  predicate PrefixWidth(bits: nat)
  {
    bits == 1 || bits == 3 || bits == 4
  }

  /** Group width selected by a radix prefix, or 0 for an unknown prefix. */
  function PrefixBits(prefix: string): (bits: nat)
    ensures bits == 0 || PrefixWidth(bits)
    ensures (bits == 1 <==> prefix == "0b") && (bits == 3 <==> prefix == "0o") && (bits == 4 <==> prefix == "0x")
  {
    if prefix == "0b" then 1 else if prefix == "0x" then 4 else if prefix == "0o" then 3 else 0
  }

  /** A whole literal: the prefix picks the group width, the rest are the digits. */
  function Parse(s: string): Result<MaskedByte, Error>
    requires LiteralShaped(s)
  {
    var bits := PrefixBits(s[..2]);
    if bits == 0 then Err(ParseError(s, UnknownPrefix))
    else
      match Accumulate(s[2..], bits)
      case Ok(m) => Ok(m)
      case Err(e) => Err(ParseError(s, e))
  }

  method FromStr(s: string) returns (r: Result<MaskedByte, Error>)
    requires LiteralShaped(s)
    ensures r == Parse(s)
  {
    var bits := PrefixBits(s[..2]);
    if bits == 0 {
      return Err(ParseError(s, UnknownPrefix));
    }
    var inner := FromStringWithoutHeader(s[2..], bits);
    match inner
    case Ok(m) => return Ok(m);
    case Err(e) => return Err(ParseError(s, e));
  }

  /** A rotation loses no bit, so only the unit with every bit set rotates
      to every bit set. */
  lemma RotateUpFull(x: bv8, n: nat)
    requires 1 <= n <= 5
    ensures RotateUp(x, n) == 0xFF <==> x == 0xFF
  {
  }

  /** One character keeps every bit pinned exactly when every bit was
      pinned before and the character is a digit rather than `?`. */
  lemma FeedCharDefined(acc: MaskedByte, c: char, bits: nat)
    requires 1 <= bits <= 5 && FeedChar(acc, c, bits).Ok?
    ensures FeedChar(acc, c, bits).value.mask == 0xFF <==> acc.mask == 0xFF && c != '?'
  {
    RotateUpFull(acc.mask, bits);
  }

  /** Digits that read successfully pin every bit exactly when none of them
      is a `?`. */
  lemma {:induction false} AccumulateDefinedIff(s: string, bits: nat)
    requires 1 <= bits <= 5 && Accumulate(s, bits).Ok?
    ensures Accumulate(s, bits).value.mask == 0xFF <==> '?' !in s
  {
    if s != [] {
      var init := s[..|s| - 1];
      AccumulateDefinedIff(init, bits);
      FeedCharDefined(Accumulate(init, bits).value, s[|s| - 1], bits);
      assert s == init + [s[|s| - 1]];
    }
  }

  /** One character keeps the value's bits clear wherever the mask is: the
      rotation moves value and mask bits together, a `?` clears both in the
      new group and a digit pins the whole group. */
  lemma FeedCharClearsWildcards(acc: MaskedByte, c: char, bits: nat)
    requires 1 <= bits <= 5 && FeedChar(acc, c, bits).Ok?
    requires acc.value & !acc.mask == 0
    ensures FeedChar(acc, c, bits).value.value & !FeedChar(acc, c, bits).value.mask == 0
  {
    RotateUpKeepsClear(acc.value, acc.mask, bits);
    if c == '?' {
      FeedWildcardClears(acc, bits);
    } else {
      FeedDigitClears(acc, c, bits);
    }
  }

  /** A `?` clears the new low group of both value and mask. */
  lemma FeedWildcardClears(acc: MaskedByte, bits: nat)
    requires 1 <= bits <= 5 && FeedChar(acc, '?', bits).Ok?
    requires RotateUp(acc.value, bits) & !RotateUp(acc.mask, bits) == 0
    ensures FeedChar(acc, '?', bits).value.value & !FeedChar(acc, '?', bits).value.mask == 0
  {
    var rv, rm, pm := RotateUp(acc.value, bits), RotateUp(acc.mask, bits), PartMask(bits);
    assert FeedChar(acc, '?', bits).value == MaskedByte((rv & !pm) | 0, (rm & !pm) | 0);
    GroupClearsWildcards(rv, rm, pm, 0, 0);
  }

  /** A digit fills the new low group of the value and pins it in the mask. */
  lemma FeedDigitClears(acc: MaskedByte, c: char, bits: nat)
    requires 1 <= bits <= 5 && c != '?' && FeedChar(acc, c, bits).Ok?
    requires RotateUp(acc.value, bits) & !RotateUp(acc.mask, bits) == 0
    ensures FeedChar(acc, c, bits).value.value & !FeedChar(acc, c, bits).value.mask == 0
  {
    var rv, rm, pm := RotateUp(acc.value, bits), RotateUp(acc.mask, bits), PartMask(bits);
    var d := DigitValue(c, bits).value;
    assert FeedChar(acc, c, bits).value == MaskedByte((rv & !pm) | d, (rm & !pm) | pm);
    GroupClearsWildcards(rv, rm, pm, d, pm);
  }

  /** Rotating value and mask alike keeps the value clear outside the mask. */
  lemma RotateUpKeepsClear(v: bv8, m: bv8, n: nat)
    requires 1 <= n <= 5 && v & !m == 0
    ensures RotateUp(v, n) & !RotateUp(m, n) == 0
  {
  }

  /** Replacing the low group of value and mask by a digit inside that group
      (or by nothing) keeps the value clear outside the mask. */
  lemma GroupClearsWildcards(rv: bv8, rm: bv8, pm: bv8, d: bv8, dm: bv8)
    requires rv & !rm == 0 && d & !dm == 0 && dm & !pm == 0
    ensures ((rv & !pm) | d) & !((rm & !pm) | dm) == 0
  {
  }

  /** The value of a literal read successfully has every wildcard bit clear:
      a `?` clears a group of both value and mask bits. */
  lemma {:induction false} AccumulateClearsWildcards(s: string, bits: nat)
    requires 1 <= bits <= 5 && Accumulate(s, bits).Ok?
    ensures Accumulate(s, bits).value.value & !Accumulate(s, bits).value.mask == 0
  {
    if s != [] {
      var init := s[..|s| - 1];
      AccumulateClearsWildcards(init, bits);
      FeedCharClearsWildcards(Accumulate(init, bits).value, s[|s| - 1], bits);
    }
  }

  /** A literal that parses gives a defined unit exactly when it contains no
      `?`. */
  lemma ParseDefinedIff(s: string)
    requires LiteralShaped(s) && Parse(s).Ok?
    ensures Defined(Parse(s).value).Some? <==> '?' !in s
  {
    AccumulateDefinedIff(s[2..], PrefixBits(s[..2]));
    assert s == s[..2] + s[2..];
    assert '?' !in s[..2];
  }

  /** A literal that parses has its value clear wherever its mask is. */
  lemma ParseClearsWildcards(s: string)
    requires LiteralShaped(s) && Parse(s).Ok?
    ensures Parse(s).value.value & !Parse(s).value.mask == 0
  {
    AccumulateClearsWildcards(s[2..], PrefixBits(s[..2]));
  }

  // ---------------------------------------------------------------------
  // The source's own examples of reading literals.
  // ---------------------------------------------------------------------

  lemma MatchesAndSetsExample()
    ensures Matches(MaskedByte(0xAA, 0x0F), 0x9A)
    ensures Set(MaskedByte(0xAA, 0x0F), 0x9D) == 0x9A
  {
  }

  /** A binary literal with wildcards at both ends. */
  lemma BinaryLiteralExample()
    ensures Parse("0b?01?") == Ok(MaskedByte(0x02, 0xF6))
  {
    assert "0b?01?"[..2] == "0b" && "0b?01?"[2..] == "?01?";
    assert "?01?"[..3] == "?01" && "?01"[..2] == "?0" && "?0"[..1] == "?" && "?"[..0] == "";
    assert Accumulate("?", 1) == Ok(MaskedByte(0x00, 0xFE));
    assert Accumulate("?0", 1) == Ok(MaskedByte(0x00, 0xFD));
    assert Accumulate("?01", 1) == Ok(MaskedByte(0x01, 0xFB));
  }

  /** A hexadecimal literal whose high digit is a wildcard. */
  lemma HexLiteralExample()
    ensures Parse("0x?a") == Ok(MaskedByte(0x0A, 0x0F))
  {
    assert "0x?a"[..2] == "0x" && "0x?a"[2..] == "?a";
    assert "?a"[..1] == "?" && "?"[..0] == "";
    assert Accumulate("?", 4) == Ok(MaskedByte(0x00, 0xF0));
  }

  /** An octal literal with a wildcard in the middle group. */
  lemma OctalLiteralExample()
    ensures Parse("0o3?7") == Ok(MaskedByte(0xC7, 0xC7))
  {
    assert "0o3?7"[..2] == "0o" && "0o3?7"[2..] == "3?7";
    assert "3?7"[..2] == "3?" && "3?"[..1] == "3" && "3"[..0] == "";
    assert Accumulate("3", 3) == Ok(MaskedByte(0x03, 0xFF));
    assert Accumulate("3?", 3) == Ok(MaskedByte(0x18, 0xF8));
  }

  /** The largest octal literal that fits pins every bit. */
  lemma FullOctalExample()
    ensures Parse("0o377") == Ok(MaskedByte(0xFF, 0xFF))
  {
    assert "0o377"[..2] == "0o" && "0o377"[2..] == "377";
    assert "377"[..2] == "37" && "37"[..1] == "3" && "3"[..0] == "";
    assert Accumulate("3", 3) == Ok(MaskedByte(0x03, 0xFF));
    assert Accumulate("37", 3) == Ok(MaskedByte(0x1F, 0xFF));
  }

  /** Leading zero digits do not count against the width of the unit. */
  lemma LeadingZerosExample()
    ensures Parse("0x0000ff") == Ok(MaskedByte(0xFF, 0xFF))
  {
    assert "0x0000ff"[..2] == "0x" && "0x0000ff"[2..] == "0000ff";
    assert "0000ff"[..5] == "0000f" && "0000f"[..4] == "0000" && "0000"[..3] == "000";
    assert "000"[..2] == "00" && "00"[..1] == "0" && "0"[..0] == "";
    assert Accumulate("0", 4) == Ok(MaskedByte(0x00, 0xFF));
    assert Accumulate("00", 4) == Ok(MaskedByte(0x00, 0xFF));
    assert Accumulate("000", 4) == Ok(MaskedByte(0x00, 0xFF));
    assert Accumulate("0000", 4) == Ok(MaskedByte(0x00, 0xFF));
    assert Accumulate("0000f", 4) == Ok(MaskedByte(0x0F, 0xFF));
  }

  /** Three octal digits are nine bits: one too many. */
  lemma TooBigExample()
    ensures Parse("0o777") == Err(ParseError("0o777", NumberTooBig))
  {
    assert "0o777"[..2] == "0o" && "0o777"[2..] == "777";
    assert "777"[..2] == "77" && "77"[..1] == "7" && "7"[..0] == "";
    assert Accumulate("7", 3) == Ok(MaskedByte(0x07, 0xFF));
    assert Accumulate("77", 3) == Ok(MaskedByte(0x3F, 0xFF));
  }

  // ---------------------------------------------------------------------
  // Showing a unit: one character per bit, highest bit first.
  // ---------------------------------------------------------------------

  /** The character for the low bit: `?` where it is not pinned, else its value. */
  function BitChar(value: bv8, mask: bv8): (c: char)
    ensures c == '?' <==> mask & 1 == 0
    ensures c == '1' <==> mask & 1 == 1 && value & 1 == 1
  {
    if mask & 1 == 0 then '?' else if value & 1 == 0 then '0' else '1'
  }

  /** The characters for the low `n` bits, highest first. */
  function RenderBits(value: bv8, mask: bv8, n: nat): (s: string)
    ensures |s| == n
    decreases n
  {
    if n == 0 then [] else RenderBits(value >> 1, mask >> 1, n - 1) + [BitChar(value, mask)]
  }

  /** Collects the characters of every bit, low bit first, shifting value
      and mask down after each, and returns them in reverse. */
  method Display(m: MaskedByte) returns (s: string)
    ensures |s| == Bits()
    ensures s == RenderBits(m.value, m.mask, 8)
  {
    var pushed := "";
    var value, mask := m.value, m.mask;
    var i := 0;
    while i < Bits()
      invariant i <= 8
      invariant RenderBits(value, mask, 8 - i) + Reverse(pushed) == RenderBits(m.value, m.mask, 8)
    {
      ghost var rest := RenderBits(value >> 1, mask >> 1, 8 - i - 1);
      var c := BitChar(value, mask);
      ReverseSnoc(pushed, c);
      assert rest + [c] + Reverse(pushed) == rest + Reverse(pushed + [c]);
      pushed := pushed + [c];
      mask := mask >> 1;
      value := value >> 1;
      i := i + 1;
    }
    s := Reverse(pushed);
  }

  /** The low `n` bits set, for `n` up to the width of the unit. */
  function LowBits(n: nat): bv8
    requires n <= 8
  {
    if n == 0 then 0x00 else if n == 1 then 0x01 else if n == 2 then 0x03
    else if n == 3 then 0x07 else if n == 4 then 0x0F else if n == 5 then 0x1F
    else if n == 6 then 0x3F else if n == 7 then 0x7F else 0xFF
  }

  lemma LowBitsStep(n: nat)
    requires n < 8
    ensures LowBits(n + 1) == LowBits(n) * 2 + 1
    ensures LowBits(n) & 0x80 == 0
  {
  }

  /** What reading the rendering of the low `n` bits yields: the pinned value
      bits and the wildcards among those `n` bits, and every bit above them
      pinned to 0. */
  function LowPart(value: bv8, mask: bv8, n: nat): MaskedByte
    requires n <= 8
  {
    MaskedByte(value & mask & LowBits(n), !(!mask & LowBits(n)))
  }

  // The bit identities behind one binary step, each on its own.

  lemma RotatedValueLowClear(v: bv8, m: bv8, l: bv8)
    ensures ((v >> 1) & (m >> 1) & l).RotateLeft(1) & 1 == 0
  {
  }

  lemma RotatedMaskLowSet(m: bv8, l: bv8)
    requires l & 0x80 == 0
    ensures (!(!(m >> 1) & l)).RotateLeft(1) & 1 == 1
  {
  }

  lemma RotatedValueUp(v: bv8, m: bv8, l: bv8)
    ensures ((v >> 1) & (m >> 1) & l).RotateLeft(1) & !1 == v & m & (l * 2)
  {
  }

  lemma ValueLowBit(v: bv8, m: bv8, l: bv8)
    ensures (v & m & (l * 2)) | (v & m & 1) == v & m & (l * 2 + 1)
  {
  }

  lemma RotatedMaskPinned(m: bv8, l: bv8)
    requires m & 1 == 1
    ensures ((!(!(m >> 1) & l)).RotateLeft(1) & !1) | 1 == !(!m & (l * 2 + 1))
  {
  }

  lemma RotatedMaskWild(m: bv8, l: bv8)
    requires m & 1 == 0
    ensures (!(!(m >> 1) & l)).RotateLeft(1) & !1 == !(!m & (l * 2 + 1))
  {
  }

  lemma WildValueBit(v: bv8, m: bv8)
    requires m & 1 == 0
    ensures v & m & 1 == 0
  {
  }

  lemma ReadWildBit(v: bv8, m: bv8, n: nat)
    requires n < 8 && m & 1 == 0
    ensures FeedChar(LowPart(v >> 1, m >> 1, n), '?', 1) == Ok(LowPart(v, m, n + 1))
  {
    LowBitsStep(n);
    var l := LowBits(n);
    RotatedValueLowClear(v, m, l);
    RotatedMaskLowSet(m, l);
    RotatedValueUp(v, m, l);
    ValueLowBit(v, m, l);
    RotatedMaskWild(m, l);
    WildValueBit(v, m);
  }

  lemma ReadZeroBit(v: bv8, m: bv8, n: nat)
    requires n < 8 && m & 1 == 1 && v & 1 == 0
    ensures FeedChar(LowPart(v >> 1, m >> 1, n), '0', 1) == Ok(LowPart(v, m, n + 1))
  {
    LowBitsStep(n);
    var l := LowBits(n);
    RotatedValueLowClear(v, m, l);
    RotatedMaskLowSet(m, l);
    RotatedValueUp(v, m, l);
    ValueLowBit(v, m, l);
    RotatedMaskPinned(m, l);
    assert v & m & 1 == 0;
  }

  lemma ReadOneBit(v: bv8, m: bv8, n: nat)
    requires n < 8 && m & 1 == 1 && v & 1 == 1
    ensures FeedChar(LowPart(v >> 1, m >> 1, n), '1', 1) == Ok(LowPart(v, m, n + 1))
  {
    LowBitsStep(n);
    var l := LowBits(n);
    RotatedValueLowClear(v, m, l);
    RotatedMaskLowSet(m, l);
    RotatedValueUp(v, m, l);
    ValueLowBit(v, m, l);
    RotatedMaskPinned(m, l);
    assert v & m & 1 == 1;
  }

  /** Reading one more shown bit extends what was read by that bit. */
  lemma ReadBit(v: bv8, m: bv8, n: nat)
    requires n < 8
    ensures FeedChar(LowPart(v >> 1, m >> 1, n), BitChar(v, m), 1) == Ok(LowPart(v, m, n + 1))
  {
    if m & 1 == 0 {
      ReadWildBit(v, m, n);
    } else if v & 1 == 0 {
      ReadZeroBit(v, m, n);
    } else {
      ReadOneBit(v, m, n);
    }
  }

  /** Reading the rendering of the low `n` bits as binary digits gives back
      those bits. */
  lemma {:induction false} RenderedBitsRead(v: bv8, m: bv8, n: nat)
    requires n <= 8
    ensures Accumulate(RenderBits(v, m, n), 1) == Ok(LowPart(v, m, n))
  {
    if n > 0 {
      var s := RenderBits(v, m, n);
      assert s[..|s| - 1] == RenderBits(v >> 1, m >> 1, n - 1);
      RenderedBitsRead(v >> 1, m >> 1, n - 1);
      ReadBit(v, m, n - 1);
    }
  }

  lemma WholeUnit(v: bv8, m: bv8)
    ensures LowPart(v, m, 8) == MaskedByte(v & m, m)
  {
  }

  /** Showing a unit and reading it back as a binary literal gives the same
      unit, with the bits that carry no meaning cleared. */
  lemma DisplayParses(m: MaskedByte)
    ensures LiteralShaped("0b" + RenderBits(m.value, m.mask, 8))
    ensures Parse("0b" + RenderBits(m.value, m.mask, 8)) == Ok(MaskedByte(m.value & m.mask, m.mask))
  {
    var s := "0b" + RenderBits(m.value, m.mask, 8);
    assert s[..2] == "0b" && s[2..] == RenderBits(m.value, m.mask, 8);
    RenderedBitsRead(m.value, m.mask, 8);
    WholeUnit(m.value, m.mask);
  }
}
