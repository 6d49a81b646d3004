/** `decodeAwsChunked`: the chunked framing of SigV4 streaming uploads, over bytes. */
module AwsChunked {
  import opened Common
  import opened Arithmetic
  import opened Text

  newtype Byte = b: int | 0 <= b < 256

  const CR: Byte := 13
  const LF: Byte := 10
  const PLUS: Byte := 43
  const MINUS: Byte := 45
  const ZERO: Byte := 48
  const SEMICOLON: Byte := 59
  const CRLF: seq<Byte> := [CR, LF]

  // ---- Number.parseInt(text, 16) ----

  datatype Number = NaN | Infinite | Finite(value: int)

  predicate IsHex(b: Byte) {
    ZERO <= b <= 57 || 65 <= b <= 70 || 97 <= b <= 102
  }

  function HexDigit(b: Byte): (r: nat)
    requires IsHex(b)
    ensures r < 16
  {
    (if b <= 57 then b - 48 else if b <= 70 then b - 55 else b - 87) as int
  }

  predicate AllHex(s: seq<Byte>) {
    forall i :: 0 <= i < |s| ==> IsHex(s[i])
  }

  function HexValue(s: seq<Byte>): int
    requires AllHex(s)
  {
    if s == [] then 0 else HexValue(s[..|s| - 1]) * 16 + HexDigit(s[|s| - 1])
  }

  /** How many bytes the white space character at the head of the UTF-8 text takes; 0 if there is none. */
  function SpaceAtHead(s: seq<Byte>): (n: nat)
    ensures n <= |s|
  {
    if |s| >= 1 && (9 <= s[0] <= 13 || s[0] == 32) then 1
    else if |s| >= 2 && s[0] == 0xC2 && s[1] == 0xA0 then 2
    else if |s| >= 3 && (
      || (s[0] == 0xE1 && s[1] == 0x9A && s[2] == 0x80)
      || (s[0] == 0xE2 && s[1] == 0x80 && (s[2] <= 0x8A || 0xA8 <= s[2] <= 0xA9 || s[2] == 0xAF) && s[2] >= 0x80)
      || (s[0] == 0xE2 && s[1] == 0x81 && s[2] == 0x9F)
      || (s[0] == 0xE3 && s[1] == 0x80 && s[2] == 0x80)
      || (s[0] == 0xEF && s[1] == 0xBB && s[2] == 0xBF)) then 3
    else 0
  }

  function SkipSpace(s: seq<Byte>): seq<Byte>
    decreases |s|
  {
    if SpaceAtHead(s) == 0 then s else SkipSpace(s[SpaceAtHead(s)..])
  }

  function HexPrefix(s: seq<Byte>): (r: seq<Byte>)
    ensures AllHex(r)
  {
    if s == [] || !IsHex(s[0]) then [] else [s[0]] + HexPrefix(s[1..])
  }

  /** 2^1024 - 2^970 and everything above it rounds to Infinity. */
  predicate Overflows(v: int) {
    v >= 0xFFFF_FFFF_FFFF_FC00 * Pow2(960)
  }

  const LOWER_X: Byte := 0x78
  const UPPER_X: Byte := 0x58

  function AfterSign(t: seq<Byte>): seq<Byte> {
    if t != [] && (t[0] == MINUS || t[0] == PLUS) then t[1..] else t
  }

  predicate StartsWithPrefix(s: seq<Byte>) {
    |s| >= 2 && s[0] == ZERO && (s[1] == LOWER_X || s[1] == UPPER_X)
  }

  function AfterPrefix(s: seq<Byte>): seq<Byte> {
    if StartsWithPrefix(s) then s[2..] else s
  }

  /** White space, a sign, an optional `0x`, then the longest run of hex digits; the rest is ignored. */
  function ParseInt16(text: seq<Byte>): Number {
    var t := SkipSpace(text);
    var digits := HexPrefix(AfterPrefix(AfterSign(t)));
    if digits == [] then NaN
    else if Overflows(HexValue(digits)) then Infinite
    else Finite(if t != [] && t[0] == MINUS then -HexValue(digits) else HexValue(digits))
  }

  // ---- Which texts it reads, and as what ----

  const LOWER_DIGITS: seq<Byte> := [48, 49, 50, 51, 52, 53, 54, 55, 56, 57, 97, 98, 99, 100, 101, 102]
  const UPPER_DIGITS: seq<Byte> := [48, 49, 50, 51, 52, 53, 54, 55, 56, 57, 65, 66, 67, 68, 69, 70]

  /** The text is `n` in base 16, in digits of either case and behind any number of zeros. */
  predicate Writes(s: seq<Byte>, n: nat)
    decreases |s|
  {
    if s == [] then n == 0
    else s[|s| - 1] in {LOWER_DIGITS[n % 16], UPPER_DIGITS[n % 16]} && Writes(s[..|s| - 1], n / 16)
  }

  lemma DigitIsWritten(b: Byte, d: nat)
    requires d < 16
    ensures b in {LOWER_DIGITS[d], UPPER_DIGITS[d]} <==> IsHex(b) && HexDigit(b) == d
  {
  }

  /** Hex digits have the value they write, and every value but one is not what they write. */
  lemma {:induction false} HexValueIsWritten(s: seq<Byte>, n: nat)
    ensures AllHex(s) && HexValue(s) == n <==> Writes(s, n)
    decreases |s|
  {
    if s != [] {
      var front, b := s[..|s| - 1], s[|s| - 1];
      assert s == front + [b];
      HexValueIsWritten(front, n / 16);
      DigitIsWritten(b, n % 16);
      if AllHex(s) && HexValue(s) == n {
        HexValueNatural(front);
        assert n == HexValue(front) * 16 + HexDigit(b);
        assert n / 16 == HexValue(front) && n % 16 == HexDigit(b);
      }
    }
  }

  /** Numbers from half a unit above the largest finite double on round to Infinity. */
  lemma OverflowsAboveDoubles(v: nat)
    ensures Overflows(v) <==> v + Pow2(970) >= Pow2(1024)
  {
    hide Pow2;
    Pow2Add(960, 10);
    Pow2Add(960, 64);
    Pow2Ten();
    Pow2SixtyFour();
  }

  lemma Pow2Ten()
    ensures Pow2(10) == 1024
  {
    Pow2Add(5, 5);
  }

  lemma Pow2SixtyFour()
    ensures Pow2(64) == 0x1_0000_0000_0000_0000
  {
    Pow2Sixteen();
    hide Pow2;
    Pow2Add(16, 16);
    Pow2Add(32, 32);
  }

  /** The UTF-8 bytes of a code point of the basic plane. */
  function Utf8(c: nat): seq<Byte>
    requires c < 0x1_0000
  {
    if c < 0x80 then [c as Byte]
    else if c < 0x800 then [(0xC0 + c / 0x40) as Byte, (0x80 + c % 0x40) as Byte]
    else [(0xE0 + c / 0x1000) as Byte, (0x80 + c / 0x40 % 0x40) as Byte, (0x80 + c % 0x40) as Byte]
  }

  lemma SpaceAtHeadIsUtf8(s: seq<Byte>, c: nat)
    requires IsWhiteSpace(c) && Utf8(c) <= s
    ensures SpaceAtHead(s) == |Utf8(c)|
  {
  }

  /** The white space character it finds at the head is one, written in UTF-8. */
  lemma SpaceAtHeadIsSpace(s: seq<Byte>) returns (c: nat)
    requires SpaceAtHead(s) > 0
    ensures IsWhiteSpace(c) && Utf8(c) <= s && SpaceAtHead(s) == |Utf8(c)|
  {
    c := match SpaceAtHead(s)
      case 1 => s[0] as nat
      case 2 => 0xA0
      case _ => (s[0] as nat - 0xE0) * 0x1000 + (s[1] as nat - 0x80) * 0x40 + (s[2] as nat - 0x80);
  }

  function Encoded(points: seq<nat>): seq<Byte>
    requires forall i :: 0 <= i < |points| ==> points[i] < 0x1_0000
  {
    if points == [] then [] else Utf8(points[0]) + Encoded(points[1..])
  }

  predicate AllWhiteSpace(points: seq<nat>) {
    forall i :: 0 <= i < |points| ==> IsWhiteSpace(points[i])
  }

  lemma {:induction false} SkipsWhiteSpace(points: seq<nat>, text: seq<Byte>)
    requires AllWhiteSpace(points)
    ensures SkipSpace(Encoded(points) + text) == SkipSpace(text)
    decreases |points|
  {
    if points == [] {
      assert Encoded(points) + text == text;
    } else {
      var head, rest := Utf8(points[0]), Encoded(points[1..]) + text;
      assert Encoded(points) + text == head + rest;
      SpaceAtHeadIsUtf8(head + rest, points[0]);
      SkipsWhiteSpace(points[1..], text);
    }
  }

  predicate StartsWithHex(s: seq<Byte>) {
    s != [] && (s[0] in LOWER_DIGITS || s[0] in UPPER_DIGITS)
  }

  lemma StartsWithHexIff(s: seq<Byte>)
    ensures StartsWithHex(s) <==> s != [] && IsHex(s[0])
  {
    if s != [] && IsHex(s[0]) {
      DigitIsWritten(s[0], HexDigit(s[0]));
    }
  }

  lemma {:induction false} HexPrefixStops(digits: seq<Byte>, rest: seq<Byte>)
    requires AllHex(digits) && !StartsWithHex(rest)
    ensures HexPrefix(digits + rest) == digits
    decreases |digits|
  {
    if digits == [] {
      assert digits + rest == rest;
      StartsWithHexIff(rest);
    } else {
      assert (digits + rest)[1..] == digits[1..] + rest;
      HexPrefixStops(digits[1..], rest);
    }
  }

  ghost predicate NoSpaceAhead(s: seq<Byte>) {
    forall c :: IsWhiteSpace(c) ==> !(Utf8(c) <= s)
  }

  /** White space in UTF-8, a sign or none, `0x` or none, and then what is not white space. */
  ghost predicate NumberText(points: seq<nat>, sign: seq<Byte>, prefix: seq<Byte>, digits: seq<Byte>, rest: seq<Byte>) {
    && AllWhiteSpace(points) && sign in {[], [PLUS], [MINUS]} && prefix in {[], [ZERO, LOWER_X], [ZERO, UPPER_X]}
    && !StartsWithHex(rest) && (prefix == [] ==> !StartsWithPrefix(digits + rest))
    && (sign == [] && prefix == [] && digits == [] ==>
          NoSpaceAhead(rest) && (rest != [] ==> rest[0] != PLUS && rest[0] != MINUS))
  }

  /**
   * Text that is so composed reads as the number its digits write in base 16, with its sign: as NaN without a
   * digit, and as an infinity from 2^1024 - 2^970 on. What stands behind the digits does not matter.
   */
  lemma ParsesComposedText(points: seq<nat>, sign: seq<Byte>, prefix: seq<Byte>, digits: seq<Byte>, n: nat,
                           rest: seq<Byte>)
    requires NumberText(points, sign, prefix, digits, rest) && Writes(digits, n)
    ensures ParseInt16(Encoded(points) + sign + prefix + digits + rest) ==
            if digits == [] then NaN
            else if n + Pow2(970) >= Pow2(1024) then Infinite
            else Finite((if sign == [MINUS] then -1 else 1) * n)
  {
    HexValueIsWritten(digits, n);
    OverflowsAboveDoubles(n);
    hide Pow2, Overflows, Writes, ParseInt16, NumberText;
    ReadsComposedText(points, sign, prefix, digits, rest);
  }

  lemma ReadsComposedText(points: seq<nat>, sign: seq<Byte>, prefix: seq<Byte>, digits: seq<Byte>, rest: seq<Byte>)
    requires NumberText(points, sign, prefix, digits, rest) && AllHex(digits)
    ensures ParseInt16(Encoded(points) + sign + prefix + digits + rest) ==
            if digits == [] then NaN
            else if Overflows(HexValue(digits)) then Infinite
            else Finite(if sign == [MINUS] then -HexValue(digits) else HexValue(digits))
  {
    Pieces(points, sign, prefix, digits, rest);
    hide SkipSpace, StartsWithHex, AllHex, AfterSign, AfterPrefix, NumberText, HexValue, Overflows, Encoded, ParseInt16;
    var t := sign + (prefix + digits + rest);
    SkipsWhiteSpace(points, t);
    NothingToSkip(sign, prefix, digits, rest);
    SignPart(sign, prefix, digits, rest);
    PrefixPart(prefix, digits, rest);
    Regroup(Encoded(points), sign, prefix, digits, rest);
    ReadsFrom(Encoded(points) + t, t, digits, rest);
  }

  lemma ReadsFrom(text: seq<Byte>, t: seq<Byte>, digits: seq<Byte>, rest: seq<Byte>)
    requires SkipSpace(text) == t && AfterPrefix(AfterSign(t)) == digits + rest
    requires AllHex(digits) && !StartsWithHex(rest)
    ensures ParseInt16(text) ==
            if digits == [] then NaN
            else if Overflows(HexValue(digits)) then Infinite
            else Finite(if t != [] && t[0] == MINUS then -HexValue(digits) else HexValue(digits))
  {
    HexPrefixStops(digits, rest);
    hide SkipSpace, HexPrefix, StartsWithHex, AllHex, AfterSign, AfterPrefix, HexValue, Overflows;
  }

  lemma Pieces(points: seq<nat>, sign: seq<Byte>, prefix: seq<Byte>, digits: seq<Byte>, rest: seq<Byte>)
    requires NumberText(points, sign, prefix, digits, rest)
    ensures AllWhiteSpace(points) && NumberText([], sign, prefix, digits, rest) && !StartsWithHex(rest)
    ensures prefix in {[], [ZERO, LOWER_X], [ZERO, UPPER_X]}
    ensures prefix == [] ==> !StartsWithPrefix(digits + rest)
  {
  }

  lemma Regroup(a: seq<Byte>, b: seq<Byte>, c: seq<Byte>, d: seq<Byte>, e: seq<Byte>)
    ensures a + b + c + d + e == a + (b + (c + d + e))
  {
  }

  lemma NothingToSkip(sign: seq<Byte>, prefix: seq<Byte>, digits: seq<Byte>, rest: seq<Byte>)
    requires NumberText([], sign, prefix, digits, rest) && AllHex(digits)
    ensures SkipSpace(sign + (prefix + digits + rest)) == sign + (prefix + digits + rest)
  {
    var t := sign + (prefix + digits + rest);
    if sign != [] || prefix != [] || digits != [] {
      assert t[0] == if sign != [] then sign[0] else if prefix != [] then prefix[0] else digits[0];
    } else {
      assert t == rest;
      if SpaceAtHead(rest) > 0 {
        var c := SpaceAtHeadIsSpace(rest);
      }
    }
  }

  lemma SignPart(sign: seq<Byte>, prefix: seq<Byte>, digits: seq<Byte>, rest: seq<Byte>)
    requires NumberText([], sign, prefix, digits, rest) && AllHex(digits)
    ensures var t := sign + (prefix + digits + rest);
            && AfterSign(t) == prefix + digits + rest
            && (t != [] && t[0] == MINUS <==> sign == [MINUS])
  {
    var tail := prefix + digits + rest;
    if sign != [] {
      assert (sign + tail)[1..] == tail;
    } else {
      assert sign + tail == tail;
      assert tail != [] ==> tail[0] == if prefix != [] then prefix[0] else if digits != [] then digits[0] else rest[0];
    }
  }

  lemma PrefixPart(prefix: seq<Byte>, digits: seq<Byte>, rest: seq<Byte>)
    requires prefix in {[], [ZERO, LOWER_X], [ZERO, UPPER_X]}
    requires prefix == [] ==> !StartsWithPrefix(digits + rest)
    ensures AfterPrefix(prefix + digits + rest) == digits + rest
  {
    if prefix == [] {
      assert prefix + digits + rest == digits + rest;
    } else {
      assert (prefix + digits + rest)[2..] == digits + rest;
    }
  }

  lemma {:induction false} SpaceIsEncoded(text: seq<Byte>) returns (points: seq<nat>)
    ensures AllWhiteSpace(points) && text == Encoded(points) + SkipSpace(text) && SpaceAtHead(SkipSpace(text)) == 0
    decreases |text|
  {
    hide SpaceAtHead, Utf8, IsWhiteSpace;
    if SpaceAtHead(text) == 0 {
      points := [];
    } else {
      var c := SpaceAtHeadIsSpace(text);
      var later := SpaceIsEncoded(text[|Utf8(c)|..]);
      points := [c] + later;
      EncodedCons(c, later, SkipSpace(text));
    }
  }

  lemma EncodedCons(c: nat, points: seq<nat>, rest: seq<Byte>)
    requires IsWhiteSpace(c) && AllWhiteSpace(points)
    ensures AllWhiteSpace([c] + points)
    ensures Utf8(c) + (Encoded(points) + rest) == Encoded([c] + points) + rest
  {
    assert ([c] + points)[1..] == points;
  }

  lemma {:induction false} HexPrefixIsPrefix(s: seq<Byte>)
    ensures HexPrefix(s) <= s && !StartsWithHex(s[|HexPrefix(s)|..])
  {
    StartsWithHexIff(s);
    if s != [] && IsHex(s[0]) {
      HexPrefixIsPrefix(s[1..]);
      assert s[|HexPrefix(s)|..] == s[1..][|HexPrefix(s[1..])|..];
    }
  }

  /** Every text is composed in that way, so this is all that it reads. */
  lemma EveryTextIsComposed(text: seq<Byte>)
    returns (points: seq<nat>, sign: seq<Byte>, prefix: seq<Byte>, digits: seq<Byte>, rest: seq<Byte>)
    ensures NumberText(points, sign, prefix, digits, rest) && AllHex(digits)
    ensures text == Encoded(points) + sign + prefix + digits + rest
  {
    points := SpaceIsEncoded(text);
    var t := SkipSpace(text);
    sign, prefix, digits, rest := SpacelessIsComposed(t);
    Regroup(Encoded(points), sign, prefix, digits, rest);
  }

  lemma SpacelessIsComposed(t: seq<Byte>)
    returns (sign: seq<Byte>, prefix: seq<Byte>, digits: seq<Byte>, rest: seq<Byte>)
    requires SpaceAtHead(t) == 0
    ensures NumberText([], sign, prefix, digits, rest) && AllHex(digits)
    ensures t == sign + (prefix + digits + rest)
  {
    hide SpaceAtHead, AfterSign, AfterPrefix, HexPrefix, NumberText, AllHex;
    sign := SignOf(t);
    prefix := PrefixOf(AfterSign(t));
    var body := AfterPrefix(AfterSign(t));
    digits := HexPrefix(body);
    HexPrefixIsPrefix(body);
    rest := body[|digits|..];
    Rejoined(t, sign, AfterSign(t), prefix, body, digits, rest);
    NothingAhead(t);
    IsNumberText(sign, prefix, digits, rest, t);
  }

  lemma Rejoined(t: seq<Byte>, sign: seq<Byte>, unsigned: seq<Byte>, prefix: seq<Byte>, body: seq<Byte>,
                 digits: seq<Byte>, rest: seq<Byte>)
    requires t == sign + unsigned && unsigned == prefix + body && digits <= body && rest == body[|digits|..]
    ensures body == digits + rest && t == sign + (prefix + digits + rest)
    ensures sign == [] && prefix == [] && digits == [] ==> rest == t
  {
  }

  lemma IsNumberText(sign: seq<Byte>, prefix: seq<Byte>, digits: seq<Byte>, rest: seq<Byte>, t: seq<Byte>)
    requires sign in {[], [PLUS], [MINUS]} && prefix in {[], [ZERO, LOWER_X], [ZERO, UPPER_X]}
    requires !StartsWithHex(rest) && (prefix == [] ==> !StartsWithPrefix(digits + rest))
    requires sign == [] && prefix == [] && digits == [] ==> rest == t
    requires NoSpaceAhead(t) && (sign == [] && t != [] ==> t[0] != PLUS && t[0] != MINUS)
    ensures NumberText([], sign, prefix, digits, rest)
  {
  }

  lemma SignOf(t: seq<Byte>) returns (sign: seq<Byte>)
    ensures t == sign + AfterSign(t) && sign in {[], [PLUS], [MINUS]}
    ensures sign == [] && t != [] ==> t[0] != PLUS && t[0] != MINUS
  {
    if t != [] && (t[0] == MINUS || t[0] == PLUS) {
      sign := [t[0]];
    } else {
      sign := [];
    }
  }

  lemma PrefixOf(s: seq<Byte>) returns (prefix: seq<Byte>)
    ensures s == prefix + AfterPrefix(s) && prefix in {[], [ZERO, LOWER_X], [ZERO, UPPER_X]}
    ensures prefix == [] ==> !StartsWithPrefix(AfterPrefix(s))
  {
    if StartsWithPrefix(s) {
      prefix := [s[0], s[1]];
    } else {
      prefix := [];
    }
  }

  lemma NothingAhead(t: seq<Byte>)
    requires SpaceAtHead(t) == 0
    ensures NoSpaceAhead(t)
  {
    forall c | IsWhiteSpace(c) ensures !(Utf8(c) <= t) {
      if Utf8(c) <= t {
        SpaceAtHeadIsUtf8(t, c);
      }
    }
  }

  // ---- Buffer.indexOf and Buffer.subarray ----

  predicate IsCrLf(raw: seq<Byte>, i: nat) {
    i + 1 < |raw| && raw[i] == CR && raw[i + 1] == LF
  }

  function IndexOfCrLf(raw: seq<Byte>, from: nat): (r: Option<nat>)
    ensures r.Some? ==> from <= r.value && IsCrLf(raw, r.value) && forall j :: from <= j < r.value ==> !IsCrLf(raw, j)
    ensures r.None? ==> forall j :: from <= j ==> !IsCrLf(raw, j)
    decreases |raw| - from
  {
    if from >= |raw| then None
    else if IsCrLf(raw, from) then Some(from)
    else IndexOfCrLf(raw, from + 1)
  }

  /** A negative index counts from the end; everything is clamped to the buffer. */
  function Clamp(raw: seq<Byte>, i: int): (r: nat)
    ensures r <= |raw|
    ensures 0 <= i <= |raw| ==> r == i
  {
    if i < 0 then (if |raw| + i < 0 then 0 else |raw| + i) else if i > |raw| then |raw| else i
  }

  function SubArray(raw: seq<Byte>, start: int, end: int): seq<Byte> {
    var a, b := Clamp(raw, start), Clamp(raw, end);
    if a < b then raw[a..b] else []
  }

  function BeforeSemicolon(line: seq<Byte>): seq<Byte> {
    if line == [] || line[0] == SEMICOLON then [] else [line[0]] + BeforeSemicolon(line[1..])
  }

  // ---- The decoder ----

  /** One round of the loop: it ends, or it takes `data` and moves to offset `next`. */
  datatype Step = Stop | Advance(lineEnd: nat, size: int, data: seq<Byte>, next: int)

  function StepAt(raw: seq<Byte>, offset: int): (step: Step)
    ensures step.Advance? ==> offset < |raw| && Clamp(raw, offset) <= step.lineEnd <= |raw| - 2
  {
    if offset >= |raw| then Stop
    else
      match IndexOfCrLf(raw, Clamp(raw, offset))
      case None => Stop
      case Some(lineEnd) =>
        match ParseInt16(BeforeSemicolon(SubArray(raw, offset, lineEnd)))
        case NaN => Stop
        case Infinite => Stop
        case Finite(size) =>
          if size == 0 then Stop
          else Advance(lineEnd, size, SubArray(raw, lineEnd + 2, lineEnd + 2 + size), lineEnd + 2 + size + 2)
  }

  predicate HaltsIn(raw: seq<Byte>, offset: int, rounds: nat)
    decreases rounds
  {
    StepAt(raw, offset).Stop? || (rounds > 0 && HaltsIn(raw, StepAt(raw, offset).next, rounds - 1))
  }

  /** What the loop has taken after at most `rounds` rounds. */
  function Decoded(raw: seq<Byte>, offset: int, rounds: nat): seq<Byte>
    decreases rounds
  {
    var step := StepAt(raw, offset);
    if step.Stop? || rounds == 0 then [] else step.data + Decoded(raw, step.next, rounds - 1)
  }

  /** The loop itself, on every input on which it ends. */
  method DecodeAwsChunked(raw: seq<Byte>, ghost rounds: nat) returns (out: seq<Byte>)
    requires HaltsIn(raw, 0, rounds)
    ensures out == Decoded(raw, 0, rounds)
  {
    hide ParseInt16, IndexOfCrLf, SubArray, BeforeSemicolon, Clamp;
    out := [];
    var offset: int := 0;
    ghost var left := rounds;
    while offset < |raw|
      invariant HaltsIn(raw, offset, left)
      invariant Decoded(raw, 0, rounds) == out + Decoded(raw, offset, left)
      decreases left
    {
      var found := IndexOfCrLf(raw, Clamp(raw, offset));
      if found.None? {
        break;
      }
      var lineEnd := found.value;
      var size := ParseInt16(BeforeSemicolon(SubArray(raw, offset, lineEnd)));
      if !size.Finite? || size.value == 0 {
        break;
      }
      ghost var step := StepAt(raw, offset);
      ghost var rest := Decoded(raw, step.next, left - 1);
      assert step == Advance(lineEnd, size.value, SubArray(raw, lineEnd + 2, lineEnd + 2 + size.value),
                             lineEnd + 2 + size.value + 2);
      assert out + (step.data + rest) == (out + step.data) + rest;
      out := out + SubArray(raw, lineEnd + 2, lineEnd + 2 + size.value);
      offset := lineEnd + 2 + size.value + 2;
      left := left - 1;
    }
  }

  // ---- Termination ----

  /** Any two round counts that are large enough give the same output. */
  lemma {:induction false} EnoughRounds(raw: seq<Byte>, offset: int, rounds: nat, more: nat)
    requires HaltsIn(raw, offset, rounds) && rounds <= more
    ensures HaltsIn(raw, offset, more) && Decoded(raw, offset, more) == Decoded(raw, offset, rounds)
    decreases rounds
  {
    hide StepAt;
    if !StepAt(raw, offset).Stop? {
      EnoughRounds(raw, StepAt(raw, offset).next, rounds - 1, more - 1);
    }
  }

  /** Consecutive offsets of rounds that all advance. */
  predicate Advancing(raw: seq<Byte>, p: seq<int>) {
    && (forall i :: 0 <= i < |p| ==> StepAt(raw, p[i]).Advance?)
    && (forall i :: 0 < i < |p| ==> p[i] == StepAt(raw, p[i - 1]).next)
  }

  lemma PathFrom(raw: seq<Byte>, offset: int, rounds: nat) returns (p: seq<int>)
    requires !HaltsIn(raw, offset, rounds)
    ensures |p| == rounds + 1 && p[0] == offset && Advancing(raw, p)
    decreases rounds
  {
    hide StepAt;
    p := [offset];
    if rounds > 0 {
      var rest := PathFrom(raw, StepAt(raw, offset).next, rounds - 1);
      p := [offset] + rest;
    }
  }

  function Below(n: nat): (r: set<nat>)
    ensures |r| == n && forall x: nat :: x in r <==> x < n
  {
    if n == 0 then {} else Below(n - 1) + {n - 1}
  }

  lemma {:induction false} DistinctCount(s: seq<nat>)
    requires forall i, j :: 0 <= i < j < |s| ==> s[i] != s[j]
    ensures |set x: nat | x in s| == |s|
  {
    if s != [] {
      var last := |s| - 1;
      DistinctCount(s[..last]);
      assert (set x: nat | x in s) == (set x: nat | x in s[..last]) + {s[last]};
      SizeAfterInsert((set x: nat | x in s[..last]), s[last]);
    } else {
      assert (set x: nat | x in s) == {};
    }
  }

  lemma Pigeonhole(s: seq<nat>, n: nat) returns (i: nat, j: nat)
    requires |s| > n && forall k :: 0 <= k < |s| ==> s[k] < n
    ensures i < j < |s| && s[i] == s[j]
  {
    if forall i, j :: 0 <= i < j < |s| ==> s[i] != s[j] {
      DistinctCount(s);
      SubsetSize((set x: nat | x in s), Below(n));
      assert false;
    } else {
      i, j :| 0 <= i < j < |s| && s[i] == s[j];
    }
  }

  lemma SamePlaceSteps(raw: seq<Byte>, a: int, b: int)
    requires a < |raw| && b < |raw| && Clamp(raw, a) == Clamp(raw, b)
    ensures StepAt(raw, a) == StepAt(raw, b)
  {
    hide ParseInt16, IndexOfCrLf, BeforeSemicolon;
  }

  /** Two offsets at the same place of the buffer make the same round, and so end together. */
  lemma SamePlace(raw: seq<Byte>, a: int, b: int, rounds: nat)
    requires a < |raw| && b < |raw| && Clamp(raw, a) == Clamp(raw, b)
    ensures HaltsIn(raw, a, rounds) == HaltsIn(raw, b, rounds) && Decoded(raw, a, rounds) == Decoded(raw, b, rounds)
  {
    SamePlaceSteps(raw, a, b);
    hide StepAt, Clamp;
    if rounds == 0 {
      assert Decoded(raw, a, 0) == [] == Decoded(raw, b, 0);
    }
  }

  /**
   * A negative offset counts from the end of the buffer, and one before its start stands for the start: the rounds
   * from there are those from the place it means.
   */
  lemma NegativeOffsetCountsFromEnd(raw: seq<Byte>, back: int, rounds: nat)
    requires 0 < back && raw != []
    ensures var place := if back <= |raw| then |raw| - back else 0;
            && HaltsIn(raw, -back, rounds) == HaltsIn(raw, place, rounds)
            && Decoded(raw, -back, rounds) == Decoded(raw, place, rounds)
  {
    hide HaltsIn, Decoded;
    SamePlace(raw, -back, if back <= |raw| then |raw| - back else 0, rounds);
  }

  /** Along a path of advancing rounds, ending only comes closer. */
  lemma {:induction false} HaltsAlong(raw: seq<Byte>, p: seq<int>, i: nat, j: nat, rounds: nat)
    requires i <= j < |p| && HaltsIn(raw, p[i], rounds)
    requires Advancing(raw, p)
    ensures rounds >= j - i && HaltsIn(raw, p[j], rounds - (j - i))
    decreases j - i
  {
    hide StepAt;
    if i < j {
      assert p[i + 1] == StepAt(raw, p[i]).next;
      HaltsAlong(raw, p, i + 1, j, rounds - 1);
    }
  }

  lemma {:induction false} NoReturn(raw: seq<Byte>, p: seq<int>, i: nat, j: nat, rounds: nat)
    requires i < j < |p| && Clamp(raw, p[i]) == Clamp(raw, p[j])
    requires Advancing(raw, p)
    ensures !HaltsIn(raw, p[i], rounds)
    decreases rounds
  {
    hide StepAt;
    if HaltsIn(raw, p[i], rounds) {
      HaltsAlong(raw, p, i, j, rounds);
      SamePlace(raw, p[i], p[j], rounds - (j - i));
      NoReturn(raw, p, i, j, rounds - (j - i));
    }
  }

  /** The loop ends exactly when it ends within as many rounds as the buffer has bytes. */
  lemma HaltsWithinLength(raw: seq<Byte>, rounds: nat)
    requires HaltsIn(raw, 0, rounds)
    ensures HaltsIn(raw, 0, |raw|) && Decoded(raw, 0, |raw|) == Decoded(raw, 0, rounds)
  {
    hide StepAt;
    if !HaltsIn(raw, 0, |raw|) {
      var p := PathFrom(raw, 0, |raw|);
      var places := seq(|p|, k requires 0 <= k < |p| => Clamp(raw, p[k]));
      var i, j := Pigeonhole(places, |raw|);
      HaltsAlong(raw, p, 0, i, rounds);
      NoReturn(raw, p, i, j, rounds - i);
      assert false;
    }
    EnoughRounds(raw, 0, if rounds <= |raw| then rounds else |raw|, if rounds <= |raw| then |raw| else rounds);
  }

  /** Whether the loop ends at all can be decided by running it for as many rounds as there are bytes. */
  lemma EndsIffWithinLength(raw: seq<Byte>)
    ensures (exists rounds: nat :: HaltsIn(raw, 0, rounds)) <==> HaltsIn(raw, 0, |raw|)
  {
    hide StepAt, HaltsIn;
    if rounds: nat :| HaltsIn(raw, 0, rounds) {
      HaltsWithinLength(raw, rounds);
    }
  }

  /** A round moves forward exactly when its size is above minus the four bytes and the line it has read. */
  lemma StepDirection(raw: seq<Byte>, offset: nat)
    requires StepAt(raw, offset).Advance?
    ensures var step := StepAt(raw, offset);
            && (step.next > offset <==> step.size > -(step.lineEnd - offset + 4))
            && (step.next == offset <==> step.size == -(step.lineEnd - offset + 4))
  {
  }

  /** A walk of the loop from the start of the buffer. */
  predicate Walk(raw: seq<Byte>, p: seq<int>) {
    p != [] && p[0] == 0 && Advancing(raw, p)
  }

  /** Two of its rounds stand at the same place. */
  predicate Revisits(raw: seq<Byte>, p: seq<int>) {
    exists i, j :: 0 <= i < j < |p| && Clamp(raw, p[i]) == Clamp(raw, p[j])
  }

  /** The loop ends exactly when no walk stands twice at the same place. */
  lemma EndsIffNoRevisit(raw: seq<Byte>)
    ensures HaltsIn(raw, 0, |raw|) <==> forall p :: Walk(raw, p) ==> !Revisits(raw, p)
  {
    hide StepAt, Clamp;
    if HaltsIn(raw, 0, |raw|) {
      forall p | Walk(raw, p) ensures !Revisits(raw, p) {
        forall i, j | 0 <= i < j < |p| ensures Clamp(raw, p[i]) != Clamp(raw, p[j]) {
          if Clamp(raw, p[i]) == Clamp(raw, p[j]) {
            HaltsAlong(raw, p, 0, i, |raw|);
            NoReturn(raw, p, i, j, |raw| - i);
            assert false;
          }
        }
      }
    } else {
      var p := PathFrom(raw, 0, |raw|);
      var places := seq(|p|, k requires 0 <= k < |p| => Clamp(raw, p[k]));
      var i, j := Pigeonhole(places, |raw|);
      assert Walk(raw, p) && Clamp(raw, p[i]) == Clamp(raw, p[j]);
    }
  }

  /** The first round of a path that does not move forward, if there is one, and how far the others have come. */
  lemma FirstRoundBack(raw: seq<Byte>, p: seq<int>) returns (k: nat)
    requires Walk(raw, p)
    ensures k <= |p| && (forall i :: 0 <= i < k ==> StepAt(raw, p[i]).next > p[i] && p[i] >= i)
    ensures k < |p| ==> StepAt(raw, p[k]).next <= p[k] && p[k] >= k
  {
    hide StepAt;
    k := 0;
    while k < |p| && StepAt(raw, p[k]).next > p[k]
      invariant k <= |p| && (k < |p| ==> p[k] >= k)
      invariant forall i :: 0 <= i < k ==> StepAt(raw, p[i]).next > p[i] && p[i] >= i
    {
      assert k + 1 < |p| ==> p[k + 1] == StepAt(raw, p[k]).next;
      k := k + 1;
    }
  }

  /**
   * An endless loop comes to a round whose size is at most minus the line it has read and four: it goes back to
   * where it stands, or further.
   */
  lemma EndlessGoesBack(raw: seq<Byte>) returns (p: seq<int>)
    requires !HaltsIn(raw, 0, |raw|)
    ensures Walk(raw, p)
    ensures var last := p[|p| - 1];
            var step := StepAt(raw, last);
            0 <= last && step.next <= last && step.size <= -(step.lineEnd - last + 4)
  {
    p := PathFrom(raw, 0, |raw|);
    var k := FirstRoundBack(raw, p);
    assert StepAt(raw, p[|raw|]).Advance?;
    assert k < |p|;
    StepDirection(raw, p[k]);
    p := p[..k + 1];
  }

  /** So a buffer is decoded whenever every size the loop reaches is above minus its line and four. */
  lemma LargeEnoughSizesHalt(raw: seq<Byte>)
    requires forall p :: Walk(raw, p) ==> SizeMovesForward(raw, p[|p| - 1])
    ensures HaltsIn(raw, 0, |raw|)
  {
    hide StepAt;
    if !HaltsIn(raw, 0, |raw|) {
      var p := EndlessGoesBack(raw);
      assert false;
    }
  }

  predicate SizeMovesForward(raw: seq<Byte>, offset: int) {
    var step := StepAt(raw, offset);
    step.Advance? ==> step.size > -(step.lineEnd - offset + 4)
  }

  lemma SkipSpaceKeeps(s: seq<Byte>, b: Byte)
    requires b !in s
    ensures b !in SkipSpace(s)
    decreases |s|
  {
    if SpaceAtHead(s) != 0 {
      SkipSpaceKeeps(s[SpaceAtHead(s)..], b);
    }
  }

  lemma BeforeSemicolonKeeps(line: seq<Byte>, b: Byte)
    requires b !in line
    ensures b !in BeforeSemicolon(line)
  {
  }

  lemma HexValueNatural(s: seq<Byte>)
    requires AllHex(s)
    ensures HexValue(s) >= 0
  {
  }

  lemma NoMinusNoNegative(text: seq<Byte>)
    requires MINUS !in text && ParseInt16(text).Finite?
    ensures ParseInt16(text).value >= 0
  {
    hide Overflows, HexValue, HexPrefix, SkipSpace;
    SkipSpaceKeeps(text, MINUS);
    var t := SkipSpace(text);
    assert t != [] ==> t[0] in t;
    forall s: seq<Byte> | AllHex(s) ensures HexValue(s) >= 0 {
      HexValueNatural(s);
    }
  }

  /** A buffer without a minus sign is always decoded, whatever else is wrong with it. */
  lemma {:induction false} NoMinusHalts(raw: seq<Byte>, offset: nat)
    requires MINUS !in raw
    ensures HaltsIn(raw, offset, if offset < |raw| then |raw| - offset else 0)
    decreases |raw| - offset
  {
    hide ParseInt16, IndexOfCrLf, BeforeSemicolon;
    var step := StepAt(raw, offset);
    if step.Advance? {
      var line := SubArray(raw, offset, step.lineEnd);
      BeforeSemicolonKeeps(line, MINUS);
      NoMinusNoNegative(BeforeSemicolon(line));
      NoMinusHalts(raw, step.next);
      var left := if step.next < |raw| then |raw| - step.next else 0;
      EnoughRounds(raw, step.next, left, |raw| - offset - 1);
    }
  }

  // ---- What the writer prints ----

  /** A size in hex of either case and with any leading zeros, an extension, and the data. */
  datatype Chunk = Chunk(size: seq<Byte>, ext: seq<Byte>, data: seq<Byte>)

  predicate NoCrLf(s: seq<Byte>) {
    forall i :: 0 <= i < |s| ==> !IsCrLf(s, i)
  }

  /** The line `size ext` states the number `n`. */
  predicate LegalLine(size: seq<Byte>, ext: seq<Byte>, n: nat) {
    && size != [] && Writes(size, n)
    && (ext != [] ==> ext[0] == SEMICOLON)
    && NoCrLf(ext)
  }

  /** A Buffer holds fewer than 2^53 bytes. */
  predicate FitsBuffer(data: seq<Byte>) {
    |data| < 0x20_0000_0000_0000
  }

  predicate LegalChunk(c: Chunk) {
    c.data != [] && FitsBuffer(c.data) && LegalLine(c.size, c.ext, |c.data|)
  }

  function Line(size: seq<Byte>, ext: seq<Byte>): seq<Byte> {
    size + ext + CRLF
  }

  function Frame(c: Chunk): seq<Byte> {
    Line(c.size, c.ext) + c.data + CRLF
  }

  function Frames(chunks: seq<Chunk>): seq<Byte> {
    if chunks == [] then [] else Frame(chunks[0]) + Frames(chunks[1..])
  }

  function Payload(chunks: seq<Chunk>): seq<Byte> {
    if chunks == [] then [] else chunks[0].data + Payload(chunks[1..])
  }

  predicate AllLegal(chunks: seq<Chunk>) {
    forall i :: 0 <= i < |chunks| ==> LegalChunk(chunks[i])
  }

  // ---- Reading a printed line ----

  lemma {:induction false} HexPrefixOfHex(s: seq<Byte>)
    requires AllHex(s)
    ensures HexPrefix(s) == s
  {
    if s != [] {
      HexPrefixOfHex(s[1..]);
      assert s == [s[0]] + s[1..];
    }
  }

  lemma SmallIsFinite(v: int)
    requires v < 0x40_0000_0000_0000
    ensures !Overflows(v)
  {
    assert Pow2(960) >= 1;
  }

  /** Plain hex digits read as the number they write, and with a minus sign as its negation. */
  lemma ParsePlainHex(size: seq<Byte>, n: nat)
    requires size != [] && Writes(size, n) && n < 0x40_0000_0000_0000
    ensures ParseInt16(size) == Finite(n)
    ensures ParseInt16([MINUS] + size) == Finite(-(n as int))
  {
    HexValueIsWritten(size, n);
    hide Writes;
    hide Overflows, HexValue, HexPrefix;
    SmallIsFinite(HexValue(size));
    HexPrefixOfHex(size);
    assert IsHex(size[0]) && (|size| > 1 ==> IsHex(size[1]));
    assert SpaceAtHead(size) == 0 && SpaceAtHead([MINUS] + size) == 0;
    assert ([MINUS] + size)[1..] == size;
  }

  lemma {:induction false} BeforeSemicolonOfLine(text: seq<Byte>, ext: seq<Byte>)
    requires SEMICOLON !in text && (ext != [] ==> ext[0] == SEMICOLON)
    ensures BeforeSemicolon(text + ext) == text
  {
    if text == [] {
      assert text + ext == ext;
    } else {
      BeforeSemicolonOfLine(text[1..], ext);
      assert (text + ext)[1..] == text[1..] + ext;
      assert text == [text[0]] + text[1..];
    }
  }

  lemma NoCrLfInLine(text: seq<Byte>, ext: seq<Byte>)
    requires CR !in text && NoCrLf(ext)
    ensures forall i: nat :: i < |text| + |ext| ==> !IsCrLf(text + ext + CRLF, i)
  {
    var line := text + ext + CRLF;
    forall i: nat | i < |text| + |ext| ensures !IsCrLf(line, i) {
      if i < |text| {
        assert line[i] == text[i] && text[i] in text;
      } else {
        assert !IsCrLf(ext, i - |text|);
      }
    }
  }

  /** At the start of the line `text ext`, the loop finds its end and reads `text`. */
  lemma ReadsLine(raw: seq<Byte>, p: nat, end: nat, text: seq<Byte>, ext: seq<Byte>)
    requires CR !in text && SEMICOLON !in text && (ext != [] ==> ext[0] == SEMICOLON) && NoCrLf(ext)
    requires end == p + |text| + |ext| && end + 2 <= |raw| && raw[p..end + 2] == text + ext + CRLF
    ensures IndexOfCrLf(raw, p) == Some(end)
    ensures BeforeSemicolon(SubArray(raw, p, end)) == text
  {
    var line := text + ext + CRLF;
    NoCrLfInLine(text, ext);
    hide BeforeSemicolon, IndexOfCrLf, NoCrLf;
    assert forall i :: 0 <= i < |line| ==> raw[p + i] == raw[p..end + 2][i] == line[i];
    assert IsCrLf(raw, end) by {
      assert line[end - p] == CR && line[end - p + 1] == LF;
      assert raw[p + (end - p)] == CR && raw[p + (end - p + 1)] == LF;
    }
    forall j: nat | p <= j < end ensures !IsCrLf(raw, j) {
      assert !IsCrLf(line, j - p);
      assert raw[p + (j - p)] == line[j - p] && raw[p + (j - p + 1)] == line[j - p + 1];
    }
    assert SubArray(raw, p, end) == text + ext by {
      assert raw[p..end] == raw[p..end + 2][..end - p] == line[..end - p] == text + ext;
    }
    BeforeSemicolonOfLine(text, ext);
  }

  lemma HexTextPlain(size: seq<Byte>, n: nat)
    requires Writes(size, n)
    ensures AllHex(size) && CR !in size && SEMICOLON !in size && MINUS !in size
  {
    HexValueIsWritten(size, n);
  }

  lemma StepOf(raw: seq<Byte>, p: nat, end: nat, text: seq<Byte>, size: int)
    requires p < |raw| && IndexOfCrLf(raw, p) == Some(end)
    requires BeforeSemicolon(SubArray(raw, p, end)) == text && ParseInt16(text) == Finite(size)
    ensures StepAt(raw, p) == if size == 0 then Stop
                              else Advance(end, size, SubArray(raw, end + 2, end + 2 + size), end + 2 + size + 2)
  {
    hide IndexOfCrLf, BeforeSemicolon, ParseInt16, SubArray;
  }

  /** A printed line for `n` advances over `n` bytes of data and their line end, or ends the loop when `n` is 0. */
  lemma LineStep(raw: seq<Byte>, p: nat, size: seq<Byte>, ext: seq<Byte>, n: nat)
    requires LegalLine(size, ext, n) && n < 0x20_0000_0000_0000
    requires p + |size| + |ext| + 2 <= |raw| && raw[p..p + |size| + |ext| + 2] == Line(size, ext)
    ensures var after := p + |size| + |ext| + 2;
            StepAt(raw, p) == if n == 0 then Stop
                              else Advance(after - 2, n, SubArray(raw, after, after + n), after + n + 2)
  {
    hide StepAt, IndexOfCrLf, BeforeSemicolon, ParseInt16, HexValue, SubArray, NoCrLf, Writes, AllHex;
    HexTextPlain(size, n);
    ReadsLine(raw, p, p + |size| + |ext|, size, ext);
    ParsePlainHex(size, n);
    StepOf(raw, p, p + |size| + |ext|, size, n);
  }

  /** With a minus sign, a line whose size cancels its own length sends the loop back to where it was. */
  lemma NegativeLineStep(raw: seq<Byte>, p: nat, size: seq<Byte>, ext: seq<Byte>)
    requires LegalLine(size, ext, 1 + |size| + |ext| + 4) && FitsBuffer(raw)
    requires p + 1 + |size| + |ext| + 2 <= |raw|
    requires raw[p..p + 1 + |size| + |ext| + 2] == Line([MINUS] + size, ext)
    ensures StepAt(raw, p).Advance? && StepAt(raw, p).next == p
  {
    var n := 1 + |size| + |ext| + 4;
    hide StepAt, IndexOfCrLf, BeforeSemicolon, ParseInt16, HexValue, SubArray, NoCrLf, Writes, AllHex;
    HexTextPlain(size, n);
    ReadsLine(raw, p, p + 1 + |size| + |ext|, [MINUS] + size, ext);
    ParsePlainHex(size, n);
    StepOf(raw, p, p + 1 + |size| + |ext|, [MINUS] + size, -n);
  }

  lemma {:induction false} SelfLoopNeverEnds(raw: seq<Byte>, p: nat, rounds: nat)
    requires StepAt(raw, p).Advance? && StepAt(raw, p).next == p
    ensures !HaltsIn(raw, p, rounds)
  {
    if rounds > 0 {
      SelfLoopNeverEnds(raw, p, rounds - 1);
    }
  }

  /** So there is a family of buffers on which the loop never ends: whatever follows the line `-size ext`. */
  lemma NegativeSizeLoopsForever(size: seq<Byte>, ext: seq<Byte>, rest: seq<Byte>, rounds: nat)
    requires LegalLine(size, ext, |size| + |ext| + 5)
    requires FitsBuffer(Line([MINUS] + size, ext) + rest)
    ensures !HaltsIn(Line([MINUS] + size, ext) + rest, 0, rounds)
  {
    hide StepAt, HaltsIn;
    var raw := Line([MINUS] + size, ext) + rest;
    assert raw[..1 + |size| + |ext| + 2] == Line([MINUS] + size, ext);
    NegativeLineStep(raw, 0, size, ext);
    SelfLoopNeverEnds(raw, 0, rounds);
  }

  /** The shortest of them is the four bytes `-6` CR LF. */
  lemma ShortestEndlessBuffer(rounds: nat)
    ensures !HaltsIn([MINUS, 54, CR, LF], 0, rounds)
  {
    hide StepAt, HaltsIn;
    var six: seq<Byte> := [54];
    assert Writes(six, 6) by {
      assert six[..0] == [];
    }
    assert Line([MINUS] + six, []) + [] == [MINUS, 54, CR, LF];
    NegativeSizeLoopsForever(six, [], [], rounds);
  }

  // ---- Decoding undoes framing ----

  /** Where the buffer from `p` to `q` shows the beginning of `t`, every slice agrees. */
  lemma SliceAgrees(raw: seq<Byte>, p: nat, q: nat, t: seq<Byte>, a: nat, b: nat)
    requires p <= q <= |raw| && raw[p..q] <= t && a <= b <= q - p
    ensures b <= |t| && raw[p + a..p + b] == t[a..b]
  {
    var part := raw[p..q];
    assert forall i :: a <= i < b ==> raw[p + i] == part[i] == t[i];
    var left, right := raw[p + a..p + b], t[a..b];
    assert |left| == |right|;
    forall i | 0 <= i < |left| ensures left[i] == right[i] {
      assert raw[p + (a + i)] == part[a + i];
    }
  }

  lemma DataOfFrame(raw: seq<Byte>, p: nat, c: Chunk)
    requires p + |Frame(c)| <= |raw| && raw[p..p + |Frame(c)|] == Frame(c)
    ensures var after := p + |Line(c.size, c.ext)|;
            raw[p..after] == Line(c.size, c.ext) && raw[after..after + |c.data|] == c.data
  {
    var line := Line(c.size, c.ext);
    SliceAgrees(raw, p, p + |Frame(c)|, Frame(c), 0, |line|);
    SliceAgrees(raw, p, p + |Frame(c)|, Frame(c), |line|, |line| + |c.data|);
    assert Frame(c)[0..|line|] == line && Frame(c)[|line|..|line| + |c.data|] == c.data;
  }

  lemma FrameStep(raw: seq<Byte>, p: nat, c: Chunk)
    requires LegalChunk(c) && p + |Frame(c)| <= |raw| && raw[p..p + |Frame(c)|] == Frame(c)
    ensures StepAt(raw, p).Advance? && StepAt(raw, p).data == c.data && StepAt(raw, p).next == p + |Frame(c)|
  {
    hide StepAt, LegalLine;
    DataOfFrame(raw, p, c);
    LineStep(raw, p, c.size, c.ext, |c.data|);
  }

  lemma {:induction false} DecodesFrames(raw: seq<Byte>, p: nat, chunks: seq<Chunk>)
    requires AllLegal(chunks) && p + |Frames(chunks)| <= |raw|
    requires raw[p..p + |Frames(chunks)|] == Frames(chunks)
    requires StepAt(raw, p + |Frames(chunks)|).Stop?
    ensures HaltsIn(raw, p, |chunks|) && Decoded(raw, p, |chunks|) == Payload(chunks)
    decreases |chunks|
  {
    hide StepAt, Frame, LegalChunk;
    if chunks != [] {
      var frame, others := Frame(chunks[0]), Frames(chunks[1..]);
      var all := raw[p..p + |Frames(chunks)|];
      assert raw[p..p + |frame|] == all[..|frame|] == frame;
      assert raw[p + |frame|..p + |frame| + |others|] == all[|frame|..] == others;
      FrameStep(raw, p, chunks[0]);
      DecodesFrames(raw, p + |frame|, chunks[1..]);
    }
  }

  /**
   * Decoding undoes framing: any non-empty chunks, each with any legal size line and any data bytes, ended by
   * a zero-size line and any trailer.
   */
  lemma RoundTrip(chunks: seq<Chunk>, zero: seq<Byte>, ext: seq<Byte>, trailer: seq<Byte>)
    requires AllLegal(chunks) && LegalLine(zero, ext, 0)
    ensures var raw := Frames(chunks) + Line(zero, ext) + trailer;
            HaltsIn(raw, 0, |chunks|) && Decoded(raw, 0, |chunks|) == Payload(chunks)
  {
    hide StepAt, HaltsIn, Decoded, LegalLine;
    var raw := Frames(chunks) + Line(zero, ext) + trailer;
    var p := |Frames(chunks)|;
    assert raw[p..p + |Line(zero, ext)|] == Line(zero, ext);
    LineStep(raw, p, zero, ext, 0);
    assert raw[0..p] == Frames(chunks);
    DecodesFrames(raw, 0, chunks);
  }

  /** A line that is cut short has no line end to find. */
  lemma CutLineStops(raw: seq<Byte>, p: nat, size: seq<Byte>, ext: seq<Byte>, n: nat)
    requires Writes(size, n) && NoCrLf(ext) && p <= |raw| < p + |Line(size, ext)|
    requires raw[p..] == Line(size, ext)[..|raw| - p]
    ensures StepAt(raw, p).Stop?
  {
    hide ParseInt16, BeforeSemicolon;
    HexTextPlain(size, n);
    NoCrLfInLine(size, ext);
    var line := Line(size, ext);
    forall j: nat | p <= j ensures !IsCrLf(raw, j) {
      if j + 1 < |raw| {
        assert raw[j] == raw[p..][j - p] == line[j - p];
        assert raw[j + 1] == raw[p..][j + 1 - p] == line[j + 1 - p];
        assert !IsCrLf(line, j - p);
      }
    }
  }

  lemma StopsPastEnd(raw: seq<Byte>, offset: int)
    requires offset >= |raw|
    ensures StepAt(raw, offset).Stop?
  {
  }

  lemma FrameSlices(c: Chunk, cut: nat)
    requires |Line(c.size, c.ext)| <= cut <= |Line(c.size, c.ext)| + |c.data|
    ensures var line := Line(c.size, c.ext);
            && |Frame(c)| == |line| + |c.data| + 2
            && Frame(c)[0..|line|] == line && Frame(c)[|line|..cut] == c.data[..cut - |line|]
  {
  }

  /** What a buffer that shows the beginning of a frame from `p` on, cut after its line, has of line and data. */
  lemma CutSlices(raw: seq<Byte>, p: nat, c: Chunk, after: nat)
    requires after == p + |Line(c.size, c.ext)| <= |raw| < p + |Frame(c)|
    requires raw[p..|raw|] == Frame(c)[..|raw| - p]
    ensures raw[p..after] == Line(c.size, c.ext)
    ensures SubArray(raw, after, after + |c.data|) <= c.data
  {
    var length := |Line(c.size, c.ext)|;
    var cut := if after + |c.data| <= |raw| then length + |c.data| else |raw| - p;
    FrameSlices(c, cut);
    hide Line, Frame;
    SliceAgrees(raw, p, |raw|, Frame(c), 0, length);
    SliceAgrees(raw, p, |raw|, Frame(c), length, cut);
  }

  /** A chunk whose line is whole but whose data or closing line end is cut short gives a prefix of the data. */
  lemma CutData(raw: seq<Byte>, p: nat, c: Chunk)
    requires LegalChunk(c) && p + |Line(c.size, c.ext)| <= |raw| < p + |Frame(c)|
    requires raw[p..] == Frame(c)[..|raw| - p]
    ensures StepAt(raw, p).Advance? && StepAt(raw, p).data <= c.data && StepAt(raw, p).next > |raw|
  {
    hide StepAt, LegalLine, SubArray;
    var after := p + |Line(c.size, c.ext)|;
    assert raw[p..] == raw[p..|raw|];
    CutSlices(raw, p, c, after);
    LineStep(raw, p, c.size, c.ext, |c.data|);
  }

  /** A chunk cut short anywhere gives a prefix of its data and ends the loop. */
  lemma CutFrame(raw: seq<Byte>, p: nat, c: Chunk)
    requires LegalChunk(c) && p <= |raw| < p + |Frame(c)| && raw[p..] == Frame(c)[..|raw| - p]
    ensures HaltsIn(raw, p, 1) && Decoded(raw, p, 1) <= c.data
  {
    hide StepAt;
    var line := Line(c.size, c.ext);
    if |raw| < p + |line| {
      assert raw[p..] == line[..|raw| - p];
      CutLineStops(raw, p, c.size, c.ext, |c.data|);
    } else {
      hide Frame, LegalChunk;
      CutData(raw, p, c);
      StopsPastEnd(raw, StepAt(raw, p).next);
      assert StepAt(raw, p).data + [] == StepAt(raw, p).data;
    }
  }

  /** However a stream of frames is cut off, what comes out is a prefix of the data. */
  lemma {:induction false} TruncationGivesPrefix(raw: seq<Byte>, p: nat, chunks: seq<Chunk>)
    requires AllLegal(chunks) && p <= |raw| && raw[p..] <= Frames(chunks)
    ensures HaltsIn(raw, p, |chunks|) && Decoded(raw, p, |chunks|) <= Payload(chunks)
    decreases |chunks|
  {
    hide StepAt, Frame, LegalChunk;
    if chunks == [] || p == |raw| {
      StopsPastEnd(raw, p);
    } else {
      var frame, others := Frame(chunks[0]), Frames(chunks[1..]);
      if |raw| < p + |frame| {
        assert raw[p..] == frame[..|raw| - p];
        CutFrame(raw, p, chunks[0]);
        EnoughRounds(raw, p, 1, |chunks|);
      } else {
        assert raw[p..p + |frame|] == raw[p..][..|frame|] == frame;
        assert raw[p + |frame|..] == raw[p..][|frame|..] <= others;
        FrameStep(raw, p, chunks[0]);
        TruncationGivesPrefix(raw, p + |frame|, chunks[1..]);
      }
    }
  }
}
