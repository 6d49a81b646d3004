/** IPv4 and IPv6 text to integers, and the CIDR tests by mask and by shift. */
module IpAddress {
  import opened Common
  import opened Text
  import opened Arithmetic

  /** Bitwise AND of unsigned integers. */
  function And(x: nat, y: nat): nat {
    if x == 0 || y == 0 then 0 else 2 * And(x / 2, y / 2) + (x % 2) * (y % 2)
  }

  // ---- IPv4 ----

  predicate IsDigit(c: char) {
    '0' <= c <= '9'
  }

  predicate AllDigits(s: string) {
    forall i :: 0 <= i < |s| ==> IsDigit(s[i])
  }

  /** The value of decimal digits. */
  function DecimalValue(s: string): nat {
    if s == "" then 0 else DecimalValue(s[..|s| - 1]) * 10 + DigitValue(s[|s| - 1] as int)
  }

  /** One to three ASCII digits of value at most 255. */
  predicate IsOctet(s: string) {
    1 <= |s| <= 3 && AllDigits(s) && DecimalValue(s) <= 255
  }

  /** Big-endian value of octets. */
  function QuadValue(octets: seq<string>): nat {
    if octets == [] then 0 else QuadValue(octets[..|octets| - 1]) * 256 + DecimalValue(octets[|octets| - 1])
  }

  predicate AreOctets(octets: seq<string>) {
    |octets| == 4 && forall i :: 0 <= i < 4 ==> IsOctet(octets[i])
  }

  function ParseV4(raw: string): Option<nat> {
    var parts := Split(raw, '.');
    if AreOctets(parts) then Some(QuadValue(parts)) else None
  }

  method Ipv4ToInt(raw: string) returns (r: Option<nat>)
    ensures r == ParseV4(raw)
    ensures r.Some? ==> r.value < 0x1_0000_0000
  {
    var parts := Split(raw, '.');
    if |parts| != 4 {
      return None;
    }
    var result := 0;
    for k := 0 to 4
      invariant forall i :: 0 <= i < k ==> IsOctet(parts[i])
      invariant result == QuadValue(parts[..k])
      invariant result < [1, 0x100, 0x1_0000, 0x100_0000, 0x1_0000_0000][k]
    {
      if !IsOctet(parts[k]) {
        return None;
      }
      assert parts[..k + 1][..k] == parts[..k];
      result := result * 256 + DecimalValue(parts[k]);
    }
    assert parts[..4] == parts;
    r := Some(result);
  }

  /** The accepted texts are exactly four octets joined by dots, and the value is big-endian base 256. */
  lemma V4AcceptsExactlyQuads(raw: string, v: nat)
    ensures ParseV4(raw) == Some(v) <==>
            exists octets: seq<string> :: AreOctets(octets) && raw == Join(octets, '.') && v == QuadValue(octets)
  {
    JoinOfSplit(raw, '.');
    forall octets: seq<string> | AreOctets(octets) && raw == Join(octets, '.')
      ensures ParseV4(raw) == Some(QuadValue(octets))
    {
      QuadSplits(octets);
    }
  }

  lemma QuadSplits(octets: seq<string>)
    requires AreOctets(octets)
    ensures Split(Join(octets, '.'), '.') == octets
    ensures QuadValue(octets) < 0x1_0000_0000
    ensures QuadValue(octets) / 0x1_0000 == DecimalValue(octets[0]) * 256 + DecimalValue(octets[1])
    ensures QuadValue(octets) % 0x1_0000 == DecimalValue(octets[2]) * 256 + DecimalValue(octets[3])
  {
    forall i | 0 <= i < 4 ensures '.' !in octets[i] {
      assert IsOctet(octets[i]);
    }
    SplitOfJoin(octets, '.');
    assert IsOctet(octets[0]) && IsOctet(octets[1]) && IsOctet(octets[2]) && IsOctet(octets[3]);
    assert octets[..3][..2] == octets[..2] && octets[..2][..1] == octets[..1] && octets[..1][..0] == [];
    assert QuadValue(octets[..1]) == DecimalValue(octets[0]);
    assert QuadValue(octets[..2]) == DecimalValue(octets[0]) * 256 + DecimalValue(octets[1]);
    assert QuadValue(octets[..3]) == QuadValue(octets[..2]) * 256 + DecimalValue(octets[2]);
  }

  // ---- The numbers that octets spell ----

  /** `n.toString(10)`. */
  function Decimal(n: nat): string {
    if n < 10 then [DecimalDigit(n)] else Decimal(n / 10) + [DecimalDigit(n % 10)]
  }

  function DecimalDigit(n: nat): char
    requires n < 10
  {
    ['0', '1', '2', '3', '4', '5', '6', '7', '8', '9'][n]
  }

  function LeadingZeros(k: nat): string {
    seq(k, _ => '0')
  }

  predicate Spells(s: string, n: nat) {
    exists k: nat :: k < |s| && s == LeadingZeros(k) + Decimal(n)
  }

  /** Decimal digits spell exactly one number: the one that is written so, leading zeros aside. */
  lemma DigitsSpell(s: string, n: nat)
    ensures s != "" && AllDigits(s) && DecimalValue(s) == n <==> Spells(s, n)
  {
    if s != "" && AllDigits(s) {
      var k := DigitsAreSpelled(s);
    }
    if k: nat :| k < |s| && s == LeadingZeros(k) + Decimal(n) {
      SpelledIsDigits(k, n);
    }
  }

  lemma {:induction false} DigitsAreSpelled(s: string) returns (k: nat)
    requires s != "" && AllDigits(s)
    ensures k < |s| && s == LeadingZeros(k) + Decimal(DecimalValue(s))
    decreases |s|
  {
    hide Decimal, LeadingZeros;
    var front, c := s[..|s| - 1], s[|s| - 1];
    var d := DigitValue(c as int);
    assert DecimalDigit(d) == c && s == front + [c];
    if front == "" {
      k := 0;
      OneDigit(d);
    } else {
      k := DigitsAreSpelled(front);
      k := SpellMore(k, DecimalValue(front), d);
    }
  }

  lemma OneDigit(d: nat)
    requires d < 10
    ensures LeadingZeros(0) + Decimal(d) == [DecimalDigit(d)]
  {
  }

  /** A digit behind a spelling: one more leading zero if there was nothing but zeros. */
  lemma SpellMore(k: nat, m: nat, d: nat) returns (k': nat)
    requires d < 10
    ensures LeadingZeros(k) + Decimal(m) + [DecimalDigit(d)] == LeadingZeros(k') + Decimal(m * 10 + d)
    ensures k' < |LeadingZeros(k) + Decimal(m)| + 1
  {
    if m == 0 {
      k' := k + 1;
      assert LeadingZeros(k) + "0" == LeadingZeros(k + 1);
    } else {
      k' := k;
      assert Decimal(m * 10 + d) == Decimal(m) + [DecimalDigit(d)];
    }
  }

  lemma {:induction false} SpelledIsDigits(k: nat, n: nat)
    ensures var s := LeadingZeros(k) + Decimal(n);
            s != "" && AllDigits(s) && DecimalValue(s) == n
    decreases n
  {
    if n < 10 {
      ZerosAreNothing(k);
      DigitAppended(LeadingZeros(k), n);
    } else {
      SpelledIsDigits(k, n / 10);
      var front := LeadingZeros(k) + Decimal(n / 10);
      DigitAppended(front, n % 10);
      assert front + [DecimalDigit(n % 10)] == LeadingZeros(k) + (Decimal(n / 10) + [DecimalDigit(n % 10)]);
    }
  }

  lemma DigitAppended(front: string, d: nat)
    requires AllDigits(front) && d < 10
    ensures AllDigits(front + [DecimalDigit(d)])
    ensures DecimalValue(front + [DecimalDigit(d)]) == DecimalValue(front) * 10 + d
  {
    assert (front + [DecimalDigit(d)])[..|front|] == front;
  }

  lemma {:induction false} ZerosAreNothing(k: nat)
    ensures DecimalValue(LeadingZeros(k)) == 0
  {
    if k > 0 {
      ZerosAreNothing(k - 1);
      assert LeadingZeros(k)[..k - 1] == LeadingZeros(k - 1);
    }
  }

  /** One to three digits that spell a number below 256. */
  predicate SpellsOctet(s: string, n: nat) {
    |s| <= 3 && n < 256 && Spells(s, n)
  }

  /** Four octets, written out between dots. */
  predicate SpellsQuad(raw: string, texts: seq<string>, n: seq<nat>) {
    && |texts| == |n| == 4 && raw == Join(texts, '.')
    && forall i :: 0 <= i < 4 ==> SpellsOctet(texts[i], n[i])
  }

  lemma OctetSpells(s: string, n: nat)
    ensures IsOctet(s) && DecimalValue(s) == n <==> SpellsOctet(s, n)
  {
    DigitsSpell(s, n);
  }

  lemma QuadPlaces(octets: seq<string>)
    requires |octets| == 4
    ensures QuadValue(octets) == DecimalValue(octets[0]) * 0x100_0000 + DecimalValue(octets[1]) * 0x1_0000
                                 + DecimalValue(octets[2]) * 0x100 + DecimalValue(octets[3])
  {
    assert octets[..3][..2] == octets[..2] && octets[..2][..1] == octets[..1] && octets[..1][..0] == [];
    assert QuadValue(octets[..1]) == DecimalValue(octets[0]);
    assert QuadValue(octets[..2]) == DecimalValue(octets[0]) * 0x100 + DecimalValue(octets[1]);
    assert QuadValue(octets[..3]) == QuadValue(octets[..2]) * 0x100 + DecimalValue(octets[2]);
  }

  /**
   * A text has IPv4 value v exactly when it spells, between dots and with at most three digits each, four numbers
   * below 256 that have v as their big-endian value.
   */
  lemma V4AcceptsExactlyDecimalQuads(raw: string, v: nat)
    ensures ParseV4(raw) == Some(v) <==>
            exists texts: seq<string>, n: seq<nat> ::
              SpellsQuad(raw, texts, n) && v == n[0] * 0x100_0000 + n[1] * 0x1_0000 + n[2] * 0x100 + n[3]
  {
    hide SpellsOctet, IsOctet, DecimalValue, QuadValue;
    V4AcceptsExactlyQuads(raw, v);
    if ParseV4(raw) == Some(v) {
      var octets: seq<string> :| AreOctets(octets) && raw == Join(octets, '.') && v == QuadValue(octets);
      var n := [DecimalValue(octets[0]), DecimalValue(octets[1]), DecimalValue(octets[2]), DecimalValue(octets[3])];
      QuadPlaces(octets);
      forall i | 0 <= i < 4 ensures SpellsOctet(octets[i], n[i]) {
        OctetSpells(octets[i], n[i]);
      }
      assert SpellsQuad(raw, octets, n);
    }
    if texts: seq<string>, n: seq<nat> :|
      SpellsQuad(raw, texts, n) && v == n[0] * 0x100_0000 + n[1] * 0x1_0000 + n[2] * 0x100 + n[3]
    {
      forall i | 0 <= i < 4 ensures IsOctet(texts[i]) && DecimalValue(texts[i]) == n[i] {
        OctetSpells(texts[i], n[i]);
      }
      QuadPlaces(texts);
      assert AreOctets(texts);
    }
  }

  // ---- IPv6 ----

  predicate IsHexDigit(c: char) {
    IsDigit(c) || 'a' <= c <= 'f'
  }

  function HexDigitValue(c: char): (v: nat)
    ensures v < 16
  {
    if IsDigit(c) then c as int - '0' as int else if IsHexDigit(c) then c as int - 'a' as int + 10 else 0
  }

  /** The value of hexadecimal digits. */
  function HexValue(s: string): nat {
    if s == "" then 0 else HexValue(s[..|s| - 1]) * 16 + HexDigitValue(s[|s| - 1])
  }

  /** One to four lower-case hexadecimal digits. */
  predicate IsGroup(s: string) {
    1 <= |s| <= 4 && forall i :: 0 <= i < |s| ==> IsHexDigit(s[i])
  }

  predicate AreGroups(groups: seq<string>) {
    forall i :: 0 <= i < |groups| ==> IsGroup(groups[i])
  }

  /** Big-endian value of 16-bit groups. */
  function GroupsValue(groups: seq<string>): nat {
    if groups == [] then 0
    else GroupsValue(groups[..|groups| - 1]) * 0x1_0000 + HexValue(groups[|groups| - 1])
  }

  function HexDigit(n: nat): char
    requires n < 16
  {
    if n < 10 then '0' + n as char else 'a' + (n - 10) as char
  }

  /** A group is its digits in base 16, and eight groups are an address in base 2^16, both big-endian. */
  lemma GroupPlaces(s: string)
    requires IsGroup(s)
    ensures var d := (i: nat) => if i < |s| then HexDigitValue(s[|s| - 1 - i]) else 0;
            HexValue(s) == d(3) * 0x1000 + d(2) * 0x100 + d(1) * 0x10 + d(0)
  {
    var s1 := s[..|s| - 1];
    assert HexValue(s) == HexValue(s1) * 16 + HexDigitValue(s[|s| - 1]);
    if |s| > 1 {
      var s2 := s1[..|s1| - 1];
      assert HexValue(s1) == HexValue(s2) * 16 + HexDigitValue(s[|s| - 2]);
      if |s| > 2 {
        var s3 := s2[..|s2| - 1];
        assert HexValue(s2) == HexValue(s3) * 16 + HexDigitValue(s[|s| - 3]);
        if |s| > 3 {
          assert HexValue(s3) == HexDigitValue(s[|s| - 4]);
        }
      }
    }
  }

  lemma GroupsPlaces(groups: seq<string>)
    requires |groups| == 8
    ensures GroupsValue(groups) == HexValue(groups[0]) * 0x1_0000_0000_0000_0000_0000_0000_0000
              + HexValue(groups[1]) * 0x1_0000_0000_0000_0000_0000_0000
              + HexValue(groups[2]) * 0x1_0000_0000_0000_0000_0000
              + HexValue(groups[3]) * 0x1_0000_0000_0000_0000 + HexValue(groups[4]) * 0x1_0000_0000_0000
              + HexValue(groups[5]) * 0x1_0000_0000 + HexValue(groups[6]) * 0x1_0000 + HexValue(groups[7])
  {
    hide HexValue, GroupsValue;
    GroupsOfOneMore(groups, 8);
    GroupsOfOneMore(groups, 7);
    GroupsOfOneMore(groups, 6);
    GroupsOfOneMore(groups, 5);
    GroupsOfOneMore(groups, 4);
    GroupsOfOneMore(groups, 3);
    GroupsOfOneMore(groups, 2);
    GroupsOfOneMore(groups, 1);
    assert groups[..8] == groups;
  }

  lemma GroupsOfOneMore(groups: seq<string>, k: nat)
    requires 1 <= k <= |groups|
    ensures GroupsValue(groups[..k]) == GroupsValue(groups[..k - 1]) * 0x1_0000 + HexValue(groups[k - 1])
    ensures GroupsValue(groups[..0]) == 0
  {
    assert groups[..k][..k - 1] == groups[..k - 1];
  }

  /** `n.toString(16)`. */
  function Hex(n: nat): string {
    if n < 16 then [HexDigit(n)] else Hex(n / 16) + [HexDigit(n % 16)]
  }

  function LastIndexOf(s: string, c: char): (i: int)
    ensures -1 <= i < |s|
    ensures i >= 0 ==> s[i] == c
    ensures forall j :: i < j < |s| ==> s[j] != c
  {
    if s == "" then -1
    else if s[|s| - 1] == c then |s| - 1
    else LastIndexOf(s[..|s| - 1], c)
  }

  /** `s.split("::")`. */
  function SplitPairs(s: string): (parts: seq<string>)
    ensures |parts| >= 1
    decreases |s|
  {
    if s == "" then [""]
    else if |s| >= 2 && s[0] == ':' && s[1] == ':' then [""] + SplitPairs(s[2..])
    else
      var rest := SplitPairs(s[1..]);
      [[s[0]] + rest[0]] + rest[1..]
  }

  /** A trailing dotted quad, when there is a dot, becomes two hexadecimal groups. */
  function EmbedQuad(h: string): Option<string> {
    if '.' !in h then Some(h)
    else
      var lastColon := LastIndexOf(h, ':');
      var mapped := ParseV4(h[lastColon + 1..]);
      if lastColon < 0 || mapped.None? then None
      else Some(h[..lastColon] + ":" + Hex(mapped.value / 0x1_0000) + ":" + Hex(mapped.value % 0x1_0000))
  }

  function PieceGroups(piece: string): seq<string> {
    if piece == "" then [] else Split(piece, ':')
  }

  function Zeros(n: nat): (r: seq<string>)
    ensures |r| == n && forall i :: 0 <= i < n ==> r[i] == "0"
  {
    seq(n, _ => "0")
  }

  function ExpandGroups(h: string): Option<seq<string>> {
    var pieces := SplitPairs(h);
    if |pieces| > 2 then None
    else if |pieces| == 1 then Some(PieceGroups(pieces[0]))
    else
      var head, tail := PieceGroups(pieces[0]), PieceGroups(pieces[1]);
      if |head| + |tail| > 8 then None else Some(head + Zeros(8 - |head| - |tail|) + tail)
  }

  /** What the text says once its zone and its dotted quad are out of the way. */
  function ParseGroups(h: string): Option<nat> {
    var groups := ExpandGroups(h);
    if groups.None? || |groups.value| != 8 || !AreGroups(groups.value) then None
    else Some(GroupsValue(groups.value))
  }

  function ParseV6(raw: string): Option<nat> {
    var h := EmbedQuad(Split(Lower(raw), '%')[0]);
    if h.None? then None else ParseGroups(h.value)
  }

  method Ipv6ToBigInt(raw: string) returns (r: Option<nat>)
    ensures r == ParseV6(raw)
    ensures r.Some? ==> r.value < Pow2(128)
  {
    hide Lower, Split, SplitPairs, Hex, LastIndexOf, ParseV4, AreGroups, GroupsValue, Pow2;
    var h := Split(Lower(raw), '%')[0];
    if '.' in h {
      var lastColon := LastIndexOf(h, ':');
      var mapped := Ipv4ToInt(h[lastColon + 1..]);
      if lastColon < 0 || mapped.None? {
        return None;
      }
      h := h[..lastColon] + ":" + Hex(mapped.value / 0x1_0000) + ":" + Hex(mapped.value % 0x1_0000);
    }
    var pieces := SplitPairs(h);
    if |pieces| > 2 {
      return None;
    }
    var head := if pieces[0] != "" then Split(pieces[0], ':') else [];
    var tail := if |pieces| == 2 && pieces[1] != "" then Split(pieces[1], ':') else [];
    var fill := if |pieces| == 2 then 8 - |head| - |tail| else 0;
    if fill < 0 {
      return None;
    }
    var groups := if |pieces| == 2 then head + Zeros(fill) + tail else head;
    if |groups| != 8 {
      return None;
    }
    r := FoldGroups(groups);
  }

  /** The accumulating loop over the eight groups. */
  method FoldGroups(groups: seq<string>) returns (r: Option<nat>)
    requires |groups| == 8
    ensures r == if AreGroups(groups) then Some(GroupsValue(groups)) else None
    ensures r.Some? ==> r.value < Pow2(128)
  {
    hide Pow2, HexValue, IsGroup;
    var result := 0;
    Pow2Zero();
    for k := 0 to 8
      invariant forall i :: 0 <= i < k ==> IsGroup(groups[i])
      invariant result == GroupsValue(groups[..k])
      invariant result < Pow2(16 * k)
    {
      if !IsGroup(groups[k]) {
        return None;
      }
      assert groups[..k + 1][..k] == groups[..k];
      GroupBound(groups[k]);
      Pow2TimesSixteenBits(16 * k);
      result := result * 0x1_0000 + HexValue(groups[k]);
    }
    assert groups[..8] == groups;
    r := Some(result);
  }

  lemma GroupBound(g: string)
    requires IsGroup(g)
    ensures HexValue(g) < 0x1_0000 == Pow2(16)
  {
    Pow2Sixteen();
    HexBound(g);
    assert Pow2(4 * |g|) <= Pow2(16) by {
      Pow2Add(4 * |g|, 16 - 4 * |g|);
    }
  }

  lemma {:induction false} HexBound(s: string)
    ensures HexValue(s) < Pow2(4 * |s|)
  {
    if s != "" {
      HexBound(s[..|s| - 1]);
      Pow2Add(4 * (|s| - 1), 4);
    }
  }

  // ---- The texts of RFC 4291, section 2.2 ----

  /** Groups `i` up to `j`, all zero, are written as `::`. */
  function Compressed(groups: seq<string>, i: nat, j: nat): string
    requires i <= j <= |groups|
  {
    Join(groups[..i], ':') + "::" + Join(groups[j..], ':')
  }

  predicate ZeroRun(groups: seq<string>, i: nat, j: nat)
    requires i <= j <= |groups|
  {
    forall k :: i <= k < j ==> HexValue(groups[k]) == 0
  }

  /** No two colons in a row. */
  predicate SingleColons(s: string) {
    forall k :: 0 <= k < |s| - 1 ==> s[k] != ':' || s[k + 1] != ':'
  }

  lemma {:induction false} SplitPairsOne(s: string)
    requires SingleColons(s)
    ensures SplitPairs(s) == [s]
    decreases |s|
  {
    if s != "" {
      assert SingleColons(s[1..]) by {
        forall k | 0 <= k < |s[1..]| - 1 ensures s[1..][k] != ':' || s[1..][k + 1] != ':' {
          assert s[k + 1] != ':' || s[k + 2] != ':';
        }
      }
      SplitPairsOne(s[1..]);
      assert [s[0]] + s[1..] == s;
    }
  }

  lemma {:induction false} SplitPairsTwo(a: string, b: string)
    requires SingleColons(a) && (a != "" ==> a[|a| - 1] != ':') && SingleColons(b)
    ensures SplitPairs(a + "::" + b) == [a, b]
    decreases |a|
  {
    var text := a + "::" + b;
    if a == "" {
      assert text[2..] == b;
      SplitPairsOne(b);
    } else {
      assert text[1..] == a[1..] + "::" + b;
      assert SingleColons(a[1..]) by {
        forall k | 0 <= k < |a[1..]| - 1 ensures a[1..][k] != ':' || a[1..][k + 1] != ':' {
          assert a[k + 1] != ':' || a[k + 2] != ':';
        }
      }
      assert text[0] != ':' || text[1] != ':' by {
        if |a| > 1 {
          assert a[0] != ':' || a[1] != ':';
        }
      }
      SplitPairsTwo(a[1..], b);
      assert [a[0]] + a[1..] == a;
    }
  }

  /** Splitting at `::` loses nothing: one piece is the text, two pieces surround the first `::`. */
  lemma {:induction false} SplitPairsInverse(s: string)
    ensures var p := SplitPairs(s);
            && (|p| == 1 ==> p[0] == s)
            && (|p| == 2 ==> s == p[0] + "::" + p[1])
    decreases |s|
  {
    if s == "" {
    } else if |s| >= 2 && s[0] == ':' && s[1] == ':' {
      SplitPairsInverse(s[2..]);
      assert s == "" + "::" + s[2..];
    } else {
      SplitPairsInverse(s[1..]);
      var p, rest := SplitPairs(s), SplitPairs(s[1..]);
      assert p == [[s[0]] + rest[0]] + rest[1..];
      hide SplitPairs;
      assert s == [s[0]] + s[1..];
      if |rest| == 2 {
        assert p[0] == [s[0]] + rest[0] && p[1] == rest[1];
        assert [s[0]] + (rest[0] + "::" + rest[1]) == ([s[0]] + rest[0]) + "::" + rest[1];
      }
    }
  }

  lemma {:induction false} JoinedGroupsAreSingle(groups: seq<string>)
    requires AreGroups(groups)
    ensures var s := Join(groups, ':');
            && SingleColons(s) && (groups != [] <==> s != "")
            && (s != "" ==> s[0] != ':' && s[|s| - 1] != ':')
    decreases |groups|
  {
    if groups != [] {
      assert IsGroup(groups[0]);
      if |groups| > 1 {
        JoinedGroupsAreSingle(groups[1..]);
      }
    }
  }

  lemma PieceOfJoin(groups: seq<string>)
    requires AreGroups(groups)
    ensures PieceGroups(Join(groups, ':')) == groups
  {
    JoinedGroupsAreSingle(groups);
    if groups != [] {
      forall i | 0 <= i < |groups| ensures ':' !in groups[i] {
        assert IsGroup(groups[i]);
      }
      SplitOfJoin(groups, ':');
    }
  }

  /** Appending groups of equal value to equal values gives equal values. */
  lemma {:induction false} SameGroupValues(a: seq<string>, b: seq<string>)
    requires |a| == |b|
    requires forall i :: 0 <= i < |a| ==> HexValue(a[i]) == HexValue(b[i])
    ensures GroupsValue(a) == GroupsValue(b)
    decreases |a|
  {
    if a != [] {
      var n := |a| - 1;
      SameGroupValues(a[..n], b[..n]);
    }
  }

  /** Eight groups joined by colons denote their big-endian value. */
  lemma FullForm(groups: seq<string>)
    requires |groups| == 8 && AreGroups(groups)
    ensures ParseGroups(Join(groups, ':')) == Some(GroupsValue(groups))
  {
    JoinedGroupsAreSingle(groups);
    SplitPairsOne(Join(groups, ':'));
    PieceOfJoin(groups);
  }

  lemma ExpandCompressed(head: seq<string>, tail: seq<string>)
    requires AreGroups(head) && AreGroups(tail) && |head| + |tail| <= 8
    ensures ExpandGroups(Join(head, ':') + "::" + Join(tail, ':')) ==
            Some(head + Zeros(8 - |head| - |tail|) + tail)
  {
    hide Join, PieceGroups, SplitPairs, SingleColons, AreGroups;
    JoinedGroupsAreSingle(head);
    JoinedGroupsAreSingle(tail);
    SplitPairsTwo(Join(head, ':'), Join(tail, ':'));
    PieceOfJoin(head);
    PieceOfJoin(tail);
  }

  /** Writing any run of zero groups as `::` leaves the value unchanged. */
  lemma CompressedForm(groups: seq<string>, i: nat, j: nat)
    requires |groups| == 8 && AreGroups(groups) && i <= j <= 8 && ZeroRun(groups, i, j)
    ensures ParseGroups(Compressed(groups, i, j)) == Some(GroupsValue(groups))
  {
    hide ExpandGroups, Join, IsGroup, GroupsValue, HexValue;
    var head, tail := groups[..i], groups[j..];
    var expanded := head + Zeros(j - i) + tail;
    ExpandCompressed(head, tail);
    ZeroGroup();
    forall k | 0 <= k < 8 ensures IsGroup(expanded[k]) && HexValue(expanded[k]) == HexValue(groups[k]) {
      assert IsGroup(groups[k]);
    }
    SameGroupValues(expanded, groups);
  }

  lemma ZeroGroup()
    ensures IsGroup("0") && HexValue("0") == 0
  {
    assert "0"[..0] == "";
  }

  /** The accepted texts are exactly those forms: the full one, and one `::` for a run of zero groups. */
  lemma GroupsAcceptsExactlyRfcForms(h: string, v: nat)
    ensures ParseGroups(h) == Some(v) <==>
            exists groups: seq<string> ::
              |groups| == 8 && AreGroups(groups) && v == GroupsValue(groups) &&
              (h == Join(groups, ':') ||
               exists i: nat, j: nat :: i <= j <= 8 && ZeroRun(groups, i, j) && h == Compressed(groups, i, j))
  {
    if ParseGroups(h) == Some(v) {
      var groups := ExpandGroups(h).value;
      var pieces := SplitPairs(h);
      SplitPairsInverse(h);
      JoinOfSplit(pieces[0], ':');
      if |pieces| == 1 {
        assert h == Join(groups, ':');
      } else {
        JoinOfSplit(pieces[1], ':');
        var head, tail := PieceGroups(pieces[0]), PieceGroups(pieces[1]);
        var i, j := |head|, 8 - |tail|;
        assert groups[..i] == head && groups[j..] == tail;
        ZeroGroup();
        assert ZeroRun(groups, i, j);
        assert h == Compressed(groups, i, j);
      }
    }
    forall groups: seq<string>
      | |groups| == 8 && AreGroups(groups)
      ensures h == Join(groups, ':') ==> ParseGroups(h) == Some(GroupsValue(groups))
      ensures (exists i: nat, j: nat :: i <= j <= 8 && ZeroRun(groups, i, j) && h == Compressed(groups, i, j)) ==>
                ParseGroups(h) == Some(GroupsValue(groups))
    {
      FullForm(groups);
      forall i: nat, j: nat | i <= j <= 8 && ZeroRun(groups, i, j)
        ensures ParseGroups(Compressed(groups, i, j)) == Some(GroupsValue(groups))
      {
        CompressedForm(groups, i, j);
      }
    }
  }

  lemma {:induction false} HexIsAGroup(n: nat, width: nat)
    requires n < Pow2(4 * width) && width >= 1
    ensures 1 <= |Hex(n)| <= width
    ensures forall i :: 0 <= i < |Hex(n)| ==> IsHexDigit(Hex(n)[i])
    ensures HexValue(Hex(n)) == n
    decreases n
  {
    if n >= 16 {
      Pow2Add(4 * (width - 1), 4);
      assert Pow2(4) == 16;
      assert width > 1;
      HexIsAGroup(n / 16, width - 1);
      assert Hex(n)[..|Hex(n)| - 1] == Hex(n / 16);
    } else {
      assert Hex(n)[..0] == "";
    }
  }

  lemma {:induction false} LastIndexUnique(prefix: string, c: char, rest: string)
    requires c !in rest
    ensures LastIndexOf(prefix + [c] + rest, c) == |prefix|
    decreases |rest|
  {
    var h := prefix + [c] + rest;
    if rest != "" {
      LastIndexUnique(prefix, c, rest[..|rest| - 1]);
      assert h[..|h| - 1] == prefix + [c] + rest[..|rest| - 1];
    }
  }

  /** Writing the last two groups as a dotted quad leaves the meaning of the text unchanged. */
  lemma DottedForm(prefix: string, octets: seq<string>)
    requires AreOctets(octets) && '.' !in prefix
    ensures var hi := DecimalValue(octets[0]) * 256 + DecimalValue(octets[1]);
            var lo := DecimalValue(octets[2]) * 256 + DecimalValue(octets[3]);
            && EmbedQuad(prefix + ":" + Join(octets, '.')) == Some(prefix + ":" + Hex(hi) + ":" + Hex(lo))
            && IsGroup(Hex(hi)) && HexValue(Hex(hi)) == hi && IsGroup(Hex(lo)) && HexValue(Hex(lo)) == lo
  {
    hide Join, AreOctets, QuadValue, Hex, LastIndexOf, DecimalValue, HexValue;
    var quad := Join(octets, '.');
    var h := prefix + ":" + quad;
    QuadSplits(octets);
    QuadHasNoColon(octets);
    LastIndexUnique(prefix, ':', quad);
    assert h[..|prefix|] == prefix && h[|prefix| + 1..] == quad;
    assert '.' in h by {
      var k :| 0 <= k < |quad| && quad[k] == '.';
      assert h[|prefix| + 1 + k] == '.';
    }
    assert ParseV4(quad) == Some(QuadValue(octets)) by { QuadParses(octets); }
    Pow2Sixteen();
    HexIsAGroup(QuadValue(octets) / 0x1_0000, 4);
    HexIsAGroup(QuadValue(octets) % 0x1_0000, 4);
  }

  lemma QuadParses(octets: seq<string>)
    requires AreOctets(octets)
    ensures ParseV4(Join(octets, '.')) == Some(QuadValue(octets))
  {
    QuadSplits(octets);
  }

  lemma QuadHasNoColon(octets: seq<string>)
    requires AreOctets(octets)
    ensures ':' !in Join(octets, '.') && '.' in Join(octets, '.')
  {
    assert IsOctet(octets[0]) && IsOctet(octets[1]) && IsOctet(octets[2]) && IsOctet(octets[3]);
    assert Join(octets[3..], '.') == octets[3];
    assert octets[2..][1..] == octets[3..] && octets[1..][1..] == octets[2..];
    assert Join(octets[2..], '.') == octets[2] + "." + octets[3];
    assert Join(octets[1..], '.') == octets[1] + "." + Join(octets[2..], '.');
    assert Join(octets, '.') == octets[0] + "." + Join(octets[1..], '.');
    assert Join(octets, '.')[|octets[0]|] == '.';
  }

  /** A zone after `%` and the case of letters do not matter. */
  lemma ZoneAndCaseIgnored(s: string, zone: string)
    requires '%' !in s
    ensures ParseV6(s + "%" + zone) == ParseV6(s)
    ensures ParseV6(Lower(s)) == ParseV6(s)
  {
    hide Split, EmbedQuad, ParseGroups, Lower;
    LowerFacts(s, zone);
    SplitOfPart(Lower(s), Lower(zone), '%');
  }

  /** Writing any letters of a text in the other case leaves its value. */
  lemma EitherCase(s: string, t: string)
    requires |s| == |t| && forall i :: 0 <= i < |s| ==> SameLetter(s[i], t[i])
    ensures ParseV6(s) == ParseV6(t)
  {
    forall i | 0 <= i < |s| ensures Lower(s)[i] == Lower(t)[i] {
      LowerCharMergesCases(s[i], t[i]);
    }
    assert Lower(s) == Lower(t);
  }

  lemma LowerFacts(s: string, zone: string)
    requires '%' !in s
    ensures '%' !in Lower(s) && Lower(Lower(s)) == Lower(s)
    ensures Lower(s + "%" + zone) == Lower(s) + "%" + Lower(zone)
  {
    hide Lower;
  }

  /** Hexadecimal digits, colons and dots only. */
  predicate Plain(s: string) {
    forall k :: 0 <= k < |s| ==> IsHexDigit(s[k]) || s[k] == ':' || s[k] == '.'
  }

  lemma PlainMeans(h: string)
    requires Plain(h)
    ensures ParseV6(h) == if EmbedQuad(h).None? then None else ParseGroups(EmbedQuad(h).value)
  {
    hide EmbedQuad, ParseGroups, Split;
    assert Lower(h) == h;
    SplitOfPart(h, "", '%');
  }

  lemma {:induction false} JoinedGroupsArePlain(groups: seq<string>)
    requires AreGroups(groups)
    ensures Plain(Join(groups, ':')) && '.' !in Join(groups, ':')
    decreases |groups|
  {
    if groups != [] {
      assert IsGroup(groups[0]);
      if |groups| > 1 {
        JoinedGroupsArePlain(groups[1..]);
      }
    }
  }

  /** Eight hexadecimal groups, in full or with any run of zero groups as `::`, denote the 128-bit value. */
  lemma HexTexts(groups: seq<string>, i: nat, j: nat)
    requires |groups| == 8 && AreGroups(groups) && i <= j <= 8 && ZeroRun(groups, i, j)
    ensures ParseV6(Join(groups, ':')) == Some(GroupsValue(groups))
    ensures ParseV6(Compressed(groups, i, j)) == Some(GroupsValue(groups))
  {
    hide Join, ParseV6, ParseGroups, GroupsValue, IsGroup;
    JoinedGroupsArePlain(groups);
    JoinedGroupsArePlain(groups[..i]);
    JoinedGroupsArePlain(groups[j..]);
    PlainMeans(Join(groups, ':'));
    PlainMeans(Compressed(groups, i, j));
    FullForm(groups);
    CompressedForm(groups, i, j);
  }

  /** The quad has the value of the last two of eight groups, however those are written. */
  predicate QuadDenotes(octets: seq<string>, groups: seq<string>)
    requires |groups| == 8
  {
    && AreOctets(octets)
    && HexValue(groups[6]) == DecimalValue(octets[0]) * 256 + DecimalValue(octets[1])
    && HexValue(groups[7]) == DecimalValue(octets[2]) * 256 + DecimalValue(octets[3])
  }

  function DottedFull(groups: seq<string>, octets: seq<string>): string
    requires |groups| == 8
  {
    Join(groups[..6] + [Join(octets, '.')], ':')
  }

  function DottedCompressed(groups: seq<string>, octets: seq<string>, i: nat, j: nat): string
    requires |groups| == 8 && i <= j <= 6
  {
    Join(groups[..i], ':') + "::" + Join(groups[j..6] + [Join(octets, '.')], ':')
  }

  /** The last two of eight groups are the quad's values as the code writes them. */
  predicate QuadSpells(octets: seq<string>, groups: seq<string>)
    requires |groups| == 8
  {
    && AreOctets(octets)
    && groups[6] == Hex(DecimalValue(octets[0]) * 256 + DecimalValue(octets[1]))
    && groups[7] == Hex(DecimalValue(octets[2]) * 256 + DecimalValue(octets[3]))
  }

  lemma SpelledFullText(groups: seq<string>, octets: seq<string>)
    requires |groups| == 8 && AreGroups(groups) && QuadSpells(octets, groups)
    ensures ParseV6(DottedFull(groups, octets)) == Some(GroupsValue(groups))
  {
    hide ParseV6, ParseGroups, GroupsValue, IsGroup, QuadSpells;
    var last := [groups[6], groups[7]];
    FullForm(groups);
    assert groups == groups[..6] + last;
    JoinAppend(groups[..6], last, ':');
    JoinAppend(groups[..6], [Join(octets, '.')], ':');
    var prefix := Join(groups[..6], ':');
    assert prefix + ":" + Join(last, ':') == prefix + ":" + groups[6] + ":" + groups[7];
    JoinedGroupsArePlain(groups[..6]);
    DottedMeans(groups, prefix, octets);
  }

  lemma SpelledCompressedText(groups: seq<string>, octets: seq<string>, i: nat, j: nat)
    requires |groups| == 8 && AreGroups(groups) && i <= j <= 6 && ZeroRun(groups, i, j) && QuadSpells(octets, groups)
    ensures ParseV6(DottedCompressed(groups, octets, i, j)) == Some(GroupsValue(groups))
  {
    hide ParseV6, ParseGroups, GroupsValue, IsGroup, QuadSpells, ZeroRun, Join;
    CompressedForm(groups, i, j);
    JoinedGroupsArePlain(groups[..i]);
    var quad, head, last := Join(octets, '.'), Join(groups[..i], ':'), [groups[6], groups[7]];
    var lastText := groups[6] + ":" + groups[7];
    JoinShort(groups[6], groups[7], ':');
    JoinShort(quad, "", ':');
    assert groups[j..] == groups[j..6] + last;
    if j < 6 {
      var middle := Join(groups[j..6], ':');
      JoinAppend(groups[j..6], last, ':');
      JoinAppend(groups[j..6], [quad], ':');
      var prefix := head + "::" + middle;
      assert head + "::" + (middle + ":" + quad) == prefix + ":" + quad;
      assert head + "::" + (middle + ":" + lastText) == prefix + ":" + groups[6] + ":" + groups[7];
      JoinedGroupsArePlain(groups[j..6]);
      DottedMeans(groups, prefix, octets);
    } else {
      var prefix := head + ":";
      assert groups[6..6] + [quad] == [quad] && groups[j..] == last;
      assert head + "::" + quad == prefix + ":" + quad;
      assert head + "::" + lastText == prefix + ":" + groups[6] + ":" + groups[7];
      DottedMeans(groups, prefix, octets);
    }
  }

  /** A prefix of hexadecimal digits and colons, followed by a quad, means the text with two groups. */
  lemma DottedMeans(groups: seq<string>, prefix: string, octets: seq<string>)
    requires |groups| == 8 && QuadSpells(octets, groups) && Plain(prefix) && '.' !in prefix
    ensures ParseV6(prefix + ":" + Join(octets, '.')) == ParseGroups(prefix + ":" + groups[6] + ":" + groups[7])
  {
    hide ParseV6, ParseGroups, IsGroup, HexValue, Hex, DecimalValue, AreOctets, EmbedQuad, Join;
    DottedForm(prefix, octets);
    QuadIsPlain(octets);
    PlainMeans(prefix + ":" + Join(octets, '.'));
  }

  lemma QuadIsPlain(octets: seq<string>)
    requires AreOctets(octets)
    ensures Plain(Join(octets, '.'))
  {
    assert IsOctet(octets[0]) && IsOctet(octets[1]) && IsOctet(octets[2]) && IsOctet(octets[3]);
    assert Join(octets[3..], '.') == octets[3];
    assert octets[2..][1..] == octets[3..] && octets[1..][1..] == octets[2..];
    assert Join(octets[2..], '.') == octets[2] + "." + octets[3];
    assert Join(octets[1..], '.') == octets[1] + "." + Join(octets[2..], '.');
    assert Join(octets, '.') == octets[0] + "." + Join(octets[1..], '.');
  }

  /** The same eight groups, the last two written as the code writes the quad. */
  lemma Respelled(groups: seq<string>, octets: seq<string>) returns (spelled: seq<string>)
    requires |groups| == 8 && AreGroups(groups) && QuadDenotes(octets, groups)
    ensures |spelled| == 8 && AreGroups(spelled) && QuadSpells(octets, spelled) && spelled[..6] == groups[..6]
    ensures GroupsValue(spelled) == GroupsValue(groups)
  {
    hide Hex, HexValue, DecimalValue, IsGroup, GroupsValue, AreOctets, Join, EmbedQuad;
    DottedForm("", octets);
    spelled := groups[..6] + [Hex(HexValue(groups[6])), Hex(HexValue(groups[7]))];
    forall k | 0 <= k < 8 ensures IsGroup(spelled[k]) && HexValue(spelled[k]) == HexValue(groups[k]) {
      assert IsGroup(groups[k]);
    }
    SameGroupValues(spelled, groups);
  }

  /** The full text with the last two groups as a dotted quad of their value denotes the same value. */
  lemma DottedFullText(groups: seq<string>, octets: seq<string>)
    requires |groups| == 8 && AreGroups(groups) && QuadDenotes(octets, groups)
    ensures ParseV6(DottedFull(groups, octets)) == Some(GroupsValue(groups))
  {
    hide QuadDenotes, QuadSpells, ParseV6, GroupsValue, AreGroups;
    var spelled := Respelled(groups, octets);
    SpelledFullText(spelled, octets);
  }

  /** So does the compressed text, whichever run of zero groups before the quad is written as `::`. */
  lemma DottedCompressedText(groups: seq<string>, octets: seq<string>, i: nat, j: nat)
    requires |groups| == 8 && AreGroups(groups) && i <= j <= 6 && ZeroRun(groups, i, j) && QuadDenotes(octets, groups)
    ensures ParseV6(DottedCompressed(groups, octets, i, j)) == Some(GroupsValue(groups))
  {
    hide QuadDenotes, QuadSpells, ParseV6, GroupsValue, AreGroups, HexValue, Join;
    var spelled := Respelled(groups, octets);
    assert forall k :: 0 <= k < 6 ==> spelled[k] == spelled[..6][k] == groups[..6][k] == groups[k];
    assert spelled[..i] == groups[..i] && spelled[j..6] == groups[j..6];
    SpelledCompressedText(spelled, octets, i, j);
  }

  // ---- Exactly the accepted texts ----

  /** What is parsed: lower case, and without a zone. */
  function BeforeZone(raw: string): string {
    Split(Lower(raw), '%')[0]
  }

  lemma BeforeZoneMeans(raw: string)
    ensures ParseV6(BeforeZone(raw)) == ParseV6(raw)
  {
    hide EmbedQuad, ParseGroups, Split;
    var lower, h := Lower(raw), BeforeZone(raw);
    SplitHeadIsPrefix(lower, '%');
    JoinOfSplit(lower, '%');
    assert Lower(h) == h;
    SplitOfPart(h, "", '%');
  }

  /** The texts of section 2.2 of RFC 4291 for eight groups: full or compressed, with or without a dotted quad. */
  ghost predicate IsRfcText(h: string, groups: seq<string>)
    requires |groups| == 8
  {
    || h == Join(groups, ':')
    || (exists i: nat, j: nat :: i <= j <= 8 && ZeroRun(groups, i, j) && h == Compressed(groups, i, j))
    || (exists octets: seq<string> :: QuadDenotes(octets, groups) && IsDottedText(h, groups, octets))
  }

  ghost predicate IsDottedText(h: string, groups: seq<string>, octets: seq<string>)
    requires |groups| == 8
  {
    || h == DottedFull(groups, octets)
    || exists i: nat, j: nat :: i <= j <= 6 && ZeroRun(groups, i, j) && h == DottedCompressed(groups, octets, i, j)
  }

  lemma RfcTextParses(h: string, groups: seq<string>)
    requires |groups| == 8 && AreGroups(groups) && IsRfcText(h, groups)
    ensures ParseV6(h) == Some(GroupsValue(groups))
  {
    hide ParseV6, GroupsValue, AreGroups, Join, QuadDenotes, DottedFull, DottedCompressed, Compressed;
    assert ZeroRun(groups, 0, 0);
    HexTexts(groups, 0, 0);
    if i: nat, j: nat :| i <= j <= 8 && ZeroRun(groups, i, j) && h == Compressed(groups, i, j) {
      HexTexts(groups, i, j);
    }
    if octets: seq<string> :| QuadDenotes(octets, groups) && IsDottedText(h, groups, octets) {
      DottedFullText(groups, octets);
      if i: nat, j: nat :| i <= j <= 6 && ZeroRun(groups, i, j) && h == DottedCompressed(groups, octets, i, j) {
        DottedCompressedText(groups, octets, i, j);
      }
    }
  }

  lemma GroupsHaveNoColon(groups: seq<string>)
    requires AreGroups(groups)
    ensures forall k :: 0 <= k < |groups| ==> ':' !in groups[k] && groups[k] != ""
  {
    forall k | 0 <= k < |groups| ensures ':' !in groups[k] && groups[k] != "" {
      assert IsGroup(groups[k]);
    }
  }

  /** The pieces of a text that ends in two groups. */
  lemma SplitBeforeTwo(prefix: string, a: string, b: string)
    requires ':' !in a && ':' !in b
    ensures Split(prefix + ":" + a + ":" + b, ':') == Split(prefix, ':') + [a, b]
  {
    hide Split;
    assert prefix + ":" + a + ":" + b == prefix + ":" + (a + ":" + b);
    SplitAppend(prefix, a + ":" + b, ':');
    SplitAppend(a, b, ':');
    SplitOfPart(a, "", ':');
    SplitOfPart(b, "", ':');
  }

  lemma SameSuffix(prefix: string, other: string, suffix: string)
    requires prefix + suffix == other + suffix
    ensures prefix == other
  {
    assert (prefix + suffix)[..|prefix|] == prefix && (other + suffix)[..|other|] == other;
  }

  /** The full form that ends in two given groups, with a quad in their place. */
  lemma FullBeforeQuad(groups: seq<string>, prefix: string, a: string, b: string, octets: seq<string>)
    requires |groups| == 8 && AreGroups(groups) && ':' !in a && ':' !in b
    requires prefix + ":" + a + ":" + b == Join(groups, ':')
    ensures groups[6] == a && groups[7] == b && prefix + ":" + Join(octets, '.') == DottedFull(groups, octets)
  {
    hide Split, Join, IsGroup;
    var first, last := groups[..6], [groups[6], groups[7]];
    GroupsHaveNoColon(groups);
    SplitBeforeTwo(prefix, a, b);
    SplitOfJoin(groups, ':');
    var pieces := Split(prefix, ':');
    assert |pieces| == 6 && (pieces + [a, b])[6] == a && (pieces + [a, b])[7] == b;
    assert groups == first + last;
    JoinAppend(first, last, ':');
    JoinShort(a, b, ':');
    JoinAppend(first, [Join(octets, '.')], ':');
    JoinShort(Join(octets, '.'), "", ':');
    var suffix := ":" + a + ":" + b;
    assert prefix + suffix == prefix + ":" + a + ":" + b;
    assert Join(first, ':') + suffix == Join(first, ':') + [':'] + Join(last, ':');
    SameSuffix(prefix, Join(first, ':'), suffix);
  }

  lemma SplitOfGroups(groups: seq<string>)
    requires AreGroups(groups)
    ensures Split(Join(groups, ':'), ':') == if groups == [] then [""] else groups
  {
    GroupsHaveNoColon(groups);
    if groups != [] {
      SplitOfJoin(groups, ':');
    }
  }

  /** A compressed form that ends in two given groups keeps both of them behind its `::`. */
  lemma CompressedEnd(groups: seq<string>, i: nat, j: nat, prefix: string, a: string, b: string)
    requires |groups| == 8 && AreGroups(groups) && i <= j <= 8
    requires ':' !in a && ':' !in b && a != "" && b != ""
    requires prefix + ":" + a + ":" + b == Compressed(groups, i, j)
    ensures j <= 6 && groups[6] == a && groups[7] == b
  {
    hide Split, Join, IsGroup;
    var head, tail := Join(groups[..i], ':'), Join(groups[j..], ':');
    assert Compressed(groups, i, j) == head + ":" + (":" + tail) && ":" + tail == "" + ":" + tail;
    SplitAppend(head, ":" + tail, ':');
    SplitAppend("", tail, ':');
    SplitOfPart("", "", ':');
    SplitBeforeTwo(prefix, a, b);
    SplitOfGroups(groups[j..]);
    var pieces, after := Split(Compressed(groups, i, j), ':'), Split(tail, ':');
    assert pieces == Split(head, ':') + [""] + after;
    assert pieces[|pieces| - 1] == b && pieces[|pieces| - 2] == a;
    assert after[|after| - 1] == b;
    assert |after| >= 2;
    assert after[|after| - 2] == a;
  }

  lemma CompressedBeforeQuad(
      groups: seq<string>, i: nat, j: nat, prefix: string, a: string, b: string, octets: seq<string>)
    requires |groups| == 8 && i <= j <= 6 && groups[6] == a && groups[7] == b
    requires prefix + ":" + a + ":" + b == Compressed(groups, i, j)
    ensures prefix + ":" + Join(octets, '.') == DottedCompressed(groups, octets, i, j)
  {
    hide Join;
    var quad, head, last := Join(octets, '.'), Join(groups[..i], ':'), [a, b];
    var suffix := ":" + a + ":" + b;
    JoinShort(a, b, ':');
    JoinShort(quad, "", ':');
    assert groups[j..] == groups[j..6] + last;
    assert prefix + suffix == prefix + ":" + a + ":" + b;
    if j < 6 {
      JoinAppend(groups[j..6], last, ':');
      JoinAppend(groups[j..6], [quad], ':');
      var other := head + "::" + Join(groups[j..6], ':');
      assert other + suffix == Compressed(groups, i, j);
      SameSuffix(prefix, other, suffix);
    } else {
      assert groups[6..6] + [quad] == [quad] && groups[j..] == last;
      var other := head + ":";
      assert other + suffix == Compressed(groups, i, j);
      SameSuffix(prefix, other, suffix);
    }
  }

  /** No form of eight groups contains a dot. */
  lemma FormsHaveNoDot(groups: seq<string>, h: string)
    requires |groups| == 8 && AreGroups(groups)
    requires h == Join(groups, ':') || exists i: nat, j: nat :: i <= j <= 8 && h == Compressed(groups, i, j)
    ensures '.' !in h
  {
    hide Join, IsGroup;
    JoinedGroupsArePlain(groups);
    if i: nat, j: nat :| i <= j <= 8 && h == Compressed(groups, i, j) {
      JoinedGroupsArePlain(groups[..i]);
      JoinedGroupsArePlain(groups[j..]);
    }
  }

  /** A form that ends in the two groups a quad spells is a dotted text with the quad in their place. */
  lemma QuadEndsForm(
      groups: seq<string>, embedded: string, prefix: string, a: string, b: string, octets: seq<string>)
    requires |groups| == 8 && AreGroups(groups) && AreOctets(octets) && IsGroup(a) && IsGroup(b)
    requires HexValue(a) == DecimalValue(octets[0]) * 256 + DecimalValue(octets[1])
    requires HexValue(b) == DecimalValue(octets[2]) * 256 + DecimalValue(octets[3])
    requires embedded == prefix + ":" + a + ":" + b
    requires embedded == Join(groups, ':') ||
             exists i: nat, j: nat :: i <= j <= 8 && ZeroRun(groups, i, j) && embedded == Compressed(groups, i, j)
    ensures QuadDenotes(octets, groups) && IsDottedText(prefix + ":" + Join(octets, '.'), groups, octets)
  {
    hide Join, IsOctet, HexValue, DecimalValue, ZeroRun, Compressed, DottedFull, DottedCompressed;
    GroupsHaveNoColon([a, b]);
    assert [a, b][0] == a && [a, b][1] == b;
    hide IsGroup;
    if embedded == Join(groups, ':') {
      FullBeforeQuad(groups, prefix, a, b, octets);
    } else {
      var i: nat, j: nat :| i <= j <= 8 && ZeroRun(groups, i, j) && embedded == Compressed(groups, i, j);
      CompressedEnd(groups, i, j, prefix, a, b);
      CompressedBeforeQuad(groups, i, j, prefix, a, b, octets);
    }
  }

  /** The quad behind the last colon of a text with a dot, and what stands before that colon. */
  lemma QuadOfEmbedded(h: string, embedded: string) returns (prefix: string, octets: seq<string>)
    requires '.' in h && EmbedQuad(h) == Some(embedded)
    ensures h == prefix + ":" + Join(octets, '.') && prefix <= embedded && AreOctets(octets)
  {
    hide Join, AreOctets, Hex, QuadValue, LastIndexOf, ParseV4;
    var lastColon := LastIndexOf(h, ':');
    var quad := h[lastColon + 1..];
    prefix := h[..lastColon];
    V4AcceptsExactlyQuads(quad, ParseV4(quad).value);
    octets :| AreOctets(octets) && quad == Join(octets, '.');
  }

  /** A text whose quad is embedded into an accepted form is a dotted text of the groups of that form. */
  lemma EmbeddedIsDotted(h: string, embedded: string, groups: seq<string>)
    requires '.' in h && EmbedQuad(h) == Some(embedded) && |groups| == 8 && AreGroups(groups)
    requires embedded == Join(groups, ':') ||
             exists i: nat, j: nat :: i <= j <= 8 && ZeroRun(groups, i, j) && embedded == Compressed(groups, i, j)
    ensures IsRfcText(h, groups)
  {
    hide Join, IsGroup, IsOctet, Hex, HexValue, DecimalValue, ZeroRun, Compressed, EmbedQuad;
    var prefix, octets := QuadOfEmbedded(h, embedded);
    FormsHaveNoDot(groups, embedded);
    DottedForm(prefix, octets);
    var a := Hex(DecimalValue(octets[0]) * 256 + DecimalValue(octets[1]));
    var b := Hex(DecimalValue(octets[2]) * 256 + DecimalValue(octets[3]));
    hide AreGroups, QuadDenotes, IsDottedText;
    QuadEndsForm(groups, embedded, prefix, a, b, octets);
  }

  /**
   * A text has IPv6 value v exactly when, in lower case and without a zone, it is one of the texts of section
   * 2.2 of RFC 4291 for eight groups whose big-endian value is v.
   */
  lemma V6AcceptsExactlyRfcTexts(raw: string, v: nat)
    ensures ParseV6(raw) == Some(v) <==>
            exists groups: seq<string> ::
              |groups| == 8 && AreGroups(groups) && v == GroupsValue(groups) && IsRfcText(BeforeZone(raw), groups)
  {
    hide ParseGroups, GroupsValue, AreGroups, Join, Compressed, IsDottedText, QuadDenotes;
    var h := BeforeZone(raw);
    BeforeZoneMeans(raw);
    if ParseV6(raw) == Some(v) {
      var embedded := EmbedQuad(h).value;
      GroupsAcceptsExactlyRfcForms(embedded, v);
      var groups: seq<string> :|
        |groups| == 8 && AreGroups(groups) && v == GroupsValue(groups) &&
        (embedded == Join(groups, ':') ||
         exists i: nat, j: nat :: i <= j <= 8 && ZeroRun(groups, i, j) && embedded == Compressed(groups, i, j));
      if '.' in h {
        hide EmbedQuad, IsRfcText;
        EmbeddedIsDotted(h, embedded, groups);
      }
      assert IsRfcText(h, groups);
    }
    forall groups: seq<string> | |groups| == 8 && AreGroups(groups) && IsRfcText(h, groups)
      ensures ParseV6(raw) == Some(GroupsValue(groups))
    {
      RfcTextParses(h, groups);
    }
  }

  /** Every accepted IPv6 text denotes a 128-bit value. */
  lemma V6Bounded(raw: string)
    requires ParseV6(raw).Some?
    ensures ParseV6(raw).value < Pow2(128)
  {
    var groups := ExpandGroups(EmbedQuad(Split(Lower(raw), '%')[0]).value).value;
    GroupsBound(groups);
  }

  lemma {:induction false} GroupsBound(groups: seq<string>)
    requires AreGroups(groups)
    ensures GroupsValue(groups) < Pow2(16 * |groups|)
    decreases |groups|
  {
    if groups != [] {
      var n := |groups| - 1;
      assert IsGroup(groups[n]);
      GroupsBound(groups[..n]);
      GroupBound(groups[n]);
      Pow2TimesSixteenBits(16 * n);
    }
  }

  // ---- CIDR blocks ----

  /** `(0xffffffff << (32 - p)) >>> 0`, with the special case for zero. */
  function Mask(prefixLength: nat): nat
    requires prefixLength <= 32
  {
    if prefixLength == 0 then 0 else (0xffff_ffff * Pow2(32 - prefixLength)) % 0x1_0000_0000
  }

  predicate Ipv4InCidr(value: nat, base: nat, prefixLength: nat)
    requires prefixLength <= 32
  {
    And(value, Mask(prefixLength)) == And(base, Mask(prefixLength))
  }

  predicate Ipv6InCidr(value: nat, base: nat, prefixLength: nat)
    requires prefixLength <= 128
  {
    prefixLength == 0 || value / Pow2(128 - prefixLength) == base / Pow2(128 - prefixLength)
  }

  /** The addresses of the block of `size` addresses that contains `base`. */
  predicate InBlock(value: nat, base: nat, size: nat)
    requires size > 0
  {
    base - base % size <= value < base - base % size + size
  }

  lemma SameBlock(value: nat, base: nat, size: nat)
    requires size > 0
    ensures InBlock(value, base, size) <==> value / size == base / size
    ensures InBlock(value, base, size) <==> value - value % size == base - base % size
  {
    var q, r := value / size, base / size;
    var a, b := q * size, r * size;
    assert value == a + value % size && base == b + base % size;
    if q < r {
      MultiplesApart(q, r, size);
      assert a + size <= b;
    } else if r < q {
      MultiplesApart(r, q, size);
      assert b + size <= a;
    }
  }

  lemma AndEven(x: nat, half: nat)
    ensures And(x, 2 * half) == 2 * And(x / 2, half)
  {
    assert (2 * half) / 2 == half && (2 * half) % 2 == 0;
  }

  lemma AndOdd(x: nat, half: nat)
    ensures And(x, 2 * half + 1) == 2 * And(x / 2, half) + x % 2
  {
    assert (2 * half + 1) / 2 == half && (2 * half + 1) % 2 == 1;
  }

  lemma {:induction false} AndAllOnes(x: nat, m: nat)
    requires x < Pow2(m)
    ensures And(x, Pow2(m) - 1) == x
  {
    if m > 0 {
      AndAllOnes(x / 2, m - 1);
      AndOdd(x, Pow2(m - 1) - 1);
    }
  }

  /** `m` ones above `k` zeros. */
  function HighMask(k: nat, m: nat): nat {
    if k == 0 then Pow2(m) - 1 else 2 * HighMask(k - 1, m)
  }

  lemma {:induction false} HighMaskValue(k: nat, m: nat)
    ensures HighMask(k, m) == Pow2(k + m) - Pow2(k)
  {
    if k > 0 {
      HighMaskValue(k - 1, m);
    }
  }

  /** Such a mask clears the low `k` bits of anything below 2^(k+m). */
  lemma {:induction false} AndHighBits(x: nat, k: nat, m: nat)
    requires x < Pow2(k + m)
    ensures And(x, HighMask(k, m)) == x - x % Pow2(k)
    decreases k
  {
    if k > 0 {
      AndHighBits(x / 2, k - 1, m);
      HalfMod(x, Pow2(k - 1));
      AndEven(x, HighMask(k - 1, m));
    } else {
      AndAllOnes(x, m);
    }
  }

  lemma MaskBits(prefixLength: nat)
    requires prefixLength <= 32
    ensures Mask(prefixLength) == HighMask(32 - prefixLength, prefixLength)
    ensures Pow2(32) == 0x1_0000_0000
  {
    hide Pow2, HighMask;
    Pow2Zero();
    var b := Pow2(32 - prefixLength);
    HighMaskValue(32 - prefixLength, prefixLength);
    Pow2Sixteen();
    Pow2TimesSixteenBits(16);
    if prefixLength > 0 {
      Pow2Add(32 - prefixLength, prefixLength);
      BlockFits(b, Pow2(prefixLength));
      DivModUnique(0xffff_ffff * b, b - 1, 0x1_0000_0000, 0x1_0000_0000 - b);
    }
  }

  lemma BlockFits(b: nat, c: nat)
    requires b >= 1 && c >= 1
    ensures b <= b * c
  {
  }

  /** The mask test holds exactly for the addresses of the block. */
  lemma Ipv4CidrIsInterval(value: nat, base: nat, prefixLength: nat)
    requires value < 0x1_0000_0000 && base < 0x1_0000_0000 && prefixLength <= 32
    ensures Ipv4InCidr(value, base, prefixLength) <==> InBlock(value, base, Pow2(32 - prefixLength))
  {
    MaskBits(prefixLength);
    AndHighBits(value, 32 - prefixLength, prefixLength);
    AndHighBits(base, 32 - prefixLength, prefixLength);
    SameBlock(value, base, Pow2(32 - prefixLength));
  }

  /** The shift test holds exactly for the addresses of the block. */
  lemma Ipv6CidrIsInterval(value: nat, base: nat, prefixLength: nat)
    requires value < Pow2(128) && base < Pow2(128) && prefixLength <= 128
    ensures Ipv6InCidr(value, base, prefixLength) <==> InBlock(value, base, Pow2(128 - prefixLength))
  {
    SameBlock(value, base, Pow2(128 - prefixLength));
    if prefixLength == 0 {
      DivModUnique(value, 0, Pow2(128), value);
      DivModUnique(base, 0, Pow2(128), base);
    }
  }
}
