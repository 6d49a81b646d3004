/** The strict base64url decoder of JWT segments, and unpadded base64url (RFC 4648, section 5) itself. */
module Base64Url {
  import opened Common

  type Byte = bv8
  type Sextet = bv6

  /** A string as its UTF-16 code units. */
  type Text = seq<bv16>

  // ---- Groups of 24 bits: three bytes are four sextets ----

  function Sextet0(a: Byte): Sextet {
    (a >> 2) as Sextet
  }

  function Sextet1(a: Byte, b: Byte): Sextet {
    (((a & 0x3) << 4) | (b >> 4)) as Sextet
  }

  function Sextet2(b: Byte, c: Byte): Sextet {
    (((b & 0xF) << 2) | (c >> 6)) as Sextet
  }

  function Sextet3(c: Byte): Sextet {
    (c & 0x3F) as Sextet
  }

  function Byte0(s: Sextet, t: Sextet): Byte {
    ((s as Byte) << 2) | ((t as Byte) >> 4)
  }

  function Byte1(t: Sextet, u: Sextet): Byte {
    ((t as Byte) << 4) | ((u as Byte) >> 2)
  }

  function Byte2(u: Sextet, v: Sextet): Byte {
    ((u as Byte) << 6) | (v as Byte)
  }

  lemma BytesInverse(a: Byte, b: Byte, c: Byte)
    ensures Byte0(Sextet0(a), Sextet1(a, b)) == a
    ensures Byte1(Sextet1(a, b), Sextet2(b, c)) == b
    ensures Byte2(Sextet2(b, c), Sextet3(c)) == c
  {
  }

  /** Sextets come back from their bytes; dropping the later bytes loses exactly the surplus low bits. */
  lemma SextetsInverse(s: Sextet, t: Sextet, u: Sextet, v: Sextet)
    ensures var a, b, c := Byte0(s, t), Byte1(t, u), Byte2(u, v);
            && Sextet0(a) == s && Sextet1(a, b) == t && Sextet2(b, c) == u && Sextet3(c) == v
            && (Sextet1(a, 0) == t <==> t & 0xF == 0)
            && (Sextet2(b, 0) == u <==> u & 0x3 == 0)
  {
  }

  /** Section 4 of RFC 4648: a short last group is filled with zero bits. */
  function ToSextets(bytes: seq<Byte>): (r: seq<Sextet>)
    ensures |r| % 4 != 1
    ensures r == [] <==> bytes == []
    decreases |bytes|
  {
    if |bytes| == 0 then []
    else if |bytes| == 1 then [Sextet0(bytes[0]), Sextet1(bytes[0], 0)]
    else if |bytes| == 2 then [Sextet0(bytes[0]), Sextet1(bytes[0], bytes[1]), Sextet2(bytes[1], 0)]
    else
      [Sextet0(bytes[0]), Sextet1(bytes[0], bytes[1]), Sextet2(bytes[1], bytes[2]), Sextet3(bytes[2])] +
      ToSextets(bytes[3..])
  }

  /** What a lenient decoder makes of any sextets: surplus bits, and a lone last sextet, are dropped. */
  function FromSextets(s: seq<Sextet>): seq<Byte>
    decreases |s|
  {
    if |s| < 2 then []
    else if |s| == 2 then [Byte0(s[0], s[1])]
    else if |s| == 3 then [Byte0(s[0], s[1]), Byte1(s[1], s[2])]
    else [Byte0(s[0], s[1]), Byte1(s[1], s[2]), Byte2(s[2], s[3])] + FromSextets(s[4..])
  }

  /** No lone sextet, and the bits the last group does not use are zero (section 3.5 of RFC 4648). */
  predicate Canonical(s: seq<Sextet>) {
    && |s| % 4 != 1
    && (|s| % 4 == 2 ==> s[|s| - 1] & 0xF == 0)
    && (|s| % 4 == 3 ==> s[|s| - 1] & 0x3 == 0)
  }

  lemma {:induction false} DecodeOfEncode(bytes: seq<Byte>)
    ensures FromSextets(ToSextets(bytes)) == bytes
    decreases |bytes|
  {
    hide Sextet0, Sextet1, Sextet2, Sextet3, Byte0, Byte1, Byte2;
    if bytes != [] {
      var b, c := if |bytes| > 1 then bytes[1] else 0, if |bytes| > 2 then bytes[2] else 0;
      BytesInverse(bytes[0], b, c);
      if |bytes| >= 3 {
        DecodeOfEncode(bytes[3..]);
        assert ToSextets(bytes)[4..] == ToSextets(bytes[3..]);
        assert bytes == [bytes[0], b, c] + bytes[3..];
      }
    }
  }

  /** A full group survives decoding and encoding, and the rest is encoded after it. */
  lemma EncodeFullGroup(s: seq<Sextet>)
    requires |s| >= 4
    ensures ToSextets(FromSextets(s)) == [s[0], s[1], s[2], s[3]] + ToSextets(FromSextets(s[4..]))
  {
    hide Sextet0, Sextet1, Sextet2, Sextet3, Byte0, Byte1, Byte2;
    SextetsInverse(s[0], s[1], s[2], s[3]);
    var a, b, c, rest := Byte0(s[0], s[1]), Byte1(s[1], s[2]), Byte2(s[2], s[3]), FromSextets(s[4..]);
    var bytes := FromSextets(s);
    assert bytes == [a, b, c] + rest;
    hide FromSextets;
    assert bytes[0] == a && bytes[1] == b && bytes[2] == c && bytes[3..] == rest;
  }

  lemma SameTail(quad: seq<Sextet>, rest: seq<Sextet>, tail: seq<Sextet>)
    requires |quad| == 4
    ensures quad + rest == quad + tail <==> rest == tail
    ensures tail != [] ==> (Canonical(quad + tail) <==> Canonical(tail))
  {
    assert (quad + rest)[4..] == rest && (quad + tail)[4..] == tail;
  }

  lemma {:induction false} EncodeOfDecode(s: seq<Sextet>)
    requires |s| % 4 != 1
    ensures ToSextets(FromSextets(s)) == s <==> Canonical(s)
    decreases |s|
  {
    hide Sextet0, Sextet1, Sextet2, Sextet3, Byte0, Byte1, Byte2;
    if |s| == 2 {
      SextetsInverse(s[0], s[1], 0, 0);
      assert s == [s[0], s[1]];
    } else if |s| == 3 {
      SextetsInverse(s[0], s[1], s[2], 0);
      assert s == [s[0], s[1], s[2]];
    } else if |s| >= 4 {
      EncodeLonger(s);
    }
  }

  lemma {:induction false} EncodeLonger(s: seq<Sextet>)
    requires |s| % 4 != 1 && |s| >= 4
    ensures ToSextets(FromSextets(s)) == s <==> Canonical(s)
    decreases |s|, 0
  {
    hide ToSextets, FromSextets;
    EncodeFullGroup(s);
    EncodeOfDecode(s[4..]);
    var quad := [s[0], s[1], s[2], s[3]];
    assert s == quad + s[4..];
    SameTail(quad, ToSextets(FromSextets(s[4..])), s[4..]);
  }

  // ---- Alphabets ----

  /** The standard alphabet of section 4, and the URL-safe one of section 5. */
  function StdChar(n: Sextet): bv16 {
    if n < 26 then n as bv16 + 0x41            // 'A' to 'Z'
    else if n < 52 then n as bv16 - 26 + 0x61  // 'a' to 'z'
    else if n < 62 then n as bv16 - 52 + 0x30  // '0' to '9'
    else if n == 62 then 0x2B else 0x2F        // '+' and '/'
  }

  function UrlChar(n: Sextet): bv16 {
    if n == 62 then 0x2D else if n == 63 then 0x5F else StdChar(n)  // '-' and '_'
  }

  /** Zero for a character outside the alphabet. */
  function StdSextet(c: bv16): Sextet {
    if 0x41 <= c <= 0x5A then (c - 0x41) as Sextet
    else if 0x61 <= c <= 0x7A then (c - 0x61 + 26) as Sextet
    else if 0x30 <= c <= 0x39 then (c - 0x30 + 52) as Sextet
    else if c == 0x2B then 62
    else if c == 0x2F then 63 else 0
  }

  predicate IsUrlChar(c: bv16) {
    0x41 <= c <= 0x5A || 0x61 <= c <= 0x7A || 0x30 <= c <= 0x39 || c == 0x2D || c == 0x5F
  }

  function UrlToStd(c: bv16): bv16 {
    if c == 0x2D then 0x2B else if c == 0x5F then 0x2F else c
  }

  function StdToUrl(c: bv16): bv16 {
    if c == 0x2B then 0x2D else if c == 0x2F then 0x5F else c
  }

  function MapChars(s: Text, f: bv16 -> bv16): (r: Text)
    ensures |r| == |s| && forall i :: 0 <= i < |s| ==> r[i] == f(s[i])
  {
    if s == [] then [] else [f(s[0])] + MapChars(s[1..], f)
  }

  function StdText(s: seq<Sextet>): (r: Text)
    ensures |r| == |s| && forall i :: 0 <= i < |s| ==> r[i] == StdChar(s[i])
  {
    if s == [] then [] else [StdChar(s[0])] + StdText(s[1..])
  }

  function StdSextets(text: Text): (r: seq<Sextet>)
    ensures |r| == |text| && forall i :: 0 <= i < |text| ==> r[i] == StdSextet(text[i])
  {
    if text == [] then [] else [StdSextet(text[0])] + StdSextets(text[1..])
  }

  const FILL: bv16 := 0x3D  // '='

  function Fill(n: nat): (r: Text)
    ensures |r| == n && forall i :: 0 <= i < n ==> r[i] == FILL
  {
    if n == 0 then [] else [FILL] + Fill(n - 1)
  }

  function WithoutFill(s: Text): Text {
    if s == [] then [] else (if s[0] == FILL then [] else [s[0]]) + WithoutFill(s[1..])
  }

  function FillLength(n: nat): nat {
    (4 - n % 4) % 4
  }

  /** It fills the last group of four, and no more. */
  lemma FillCompletesGroup(n: nat)
    ensures (n + FillLength(n)) % 4 == 0 && FillLength(n) < 4
  {
  }

  // ---- Padded standard base64, as the runtime's buffer decodes and encodes it ----

  function BufferFrom(padded: Text): seq<Byte> {
    FromSextets(StdSextets(WithoutFill(padded)))
  }

  function BufferToString(bytes: seq<Byte>): Text {
    var text := StdText(ToSextets(bytes));
    text + Fill(FillLength(|text|))
  }

  // ---- The decoder ----

  predicate LooksLikeBase64Url(value: Text) {
    value != [] && |value| % 4 != 1 && forall i :: 0 <= i < |value| ==> IsUrlChar(value[i])
  }

  function Base64UrlToBytes(value: Text): Option<seq<Byte>> {
    if !LooksLikeBase64Url(value) then None
    else
      var normalized := MapChars(value, UrlToStd);
      var padded := normalized + Fill(FillLength(|normalized|));
      var decoded := BufferFrom(padded);
      var encoded := MapChars(WithoutFill(BufferToString(decoded)), StdToUrl);
      if encoded != value then None else Some(decoded)
  }

  /** Unpadded base64url, the reference. */
  function UrlText(s: seq<Sextet>): (r: Text)
    ensures |r| == |s| && forall i :: 0 <= i < |s| ==> r[i] == UrlChar(s[i])
  {
    if s == [] then [] else [UrlChar(s[0])] + UrlText(s[1..])
  }

  function EncodeUrl(bytes: seq<Byte>): Text {
    UrlText(ToSextets(bytes))
  }

  function UrlSextets(text: Text): seq<Sextet> {
    StdSextets(MapChars(text, UrlToStd))
  }

  // ---- Proofs ----

  lemma {:induction false} WithoutFillDropsFill(text: Text, n: nat)
    requires FILL !in text
    ensures WithoutFill(text + Fill(n)) == text
    decreases |text|, n
  {
    if text == [] {
      if n > 0 {
        assert text + Fill(n) == Fill(n) && Fill(n)[1..] == text + Fill(n - 1);
        WithoutFillDropsFill(text, n - 1);
      }
    } else {
      assert (text + Fill(n))[1..] == text[1..] + Fill(n);
      WithoutFillDropsFill(text[1..], n);
      assert [text[0]] + text[1..] == text;
    }
  }

  lemma CharRoundTrips(c: bv16, n: Sextet)
    ensures IsUrlChar(c) ==> UrlChar(StdSextet(UrlToStd(c))) == c && UrlToStd(c) != FILL
    ensures StdSextet(UrlToStd(UrlChar(n))) == n && IsUrlChar(UrlChar(n))
    ensures StdToUrl(StdChar(n)) == UrlChar(n) && StdChar(n) != FILL
  {
  }

  /** The decoder reads the sextets of its input, and re-encodes to their canonical spelling. */
  lemma DecoderSteps(value: Text)
    requires LooksLikeBase64Url(value)
    ensures UrlText(UrlSextets(value)) == value
    ensures Base64UrlToBytes(value) ==
            var decoded := FromSextets(UrlSextets(value));
            if EncodeUrl(decoded) == value then Some(decoded) else None
  {
    hide FromSextets, ToSextets, StdChar, UrlChar, StdSextet, UrlToStd, StdToUrl, IsUrlChar;
    var normalized := MapChars(value, UrlToStd);
    var decoded := FromSextets(UrlSextets(value));
    var text := StdText(ToSextets(decoded));
    forall i | 0 <= i < |value| ensures UrlText(UrlSextets(value))[i] == value[i] && normalized[i] != FILL {
      CharRoundTrips(value[i], 0);
    }
    WithoutFillDropsFill(normalized, FillLength(|normalized|));
    forall i | 0 <= i < |text| ensures text[i] != FILL && StdToUrl(text[i]) == EncodeUrl(decoded)[i] {
      CharRoundTrips(0, ToSextets(decoded)[i]);
    }
    WithoutFillDropsFill(text, FillLength(|text|));
    assert MapChars(text, StdToUrl) == EncodeUrl(decoded);
  }

  lemma UrlTextReadsBack(s: seq<Sextet>)
    ensures UrlSextets(UrlText(s)) == s
    ensures s != [] && |s| % 4 != 1 ==> LooksLikeBase64Url(UrlText(s))
  {
    hide StdSextet, UrlToStd, UrlChar, IsUrlChar;
    forall i | 0 <= i < |s| ensures UrlSextets(UrlText(s))[i] == s[i] && IsUrlChar(UrlText(s)[i]) {
      CharRoundTrips(0, s[i]);
    }
  }

  /** A string is accepted, as `bytes`, exactly when it is the encoding of the non-empty `bytes`. */
  lemma AcceptsExactlyEncodings(value: Text, bytes: seq<Byte>)
    ensures Base64UrlToBytes(value) == Some(bytes) <==> bytes != [] && value == EncodeUrl(bytes)
  {
    hide FromSextets, UrlSextets, UrlText, Base64UrlToBytes;
    if bytes != [] && value == EncodeUrl(bytes) {
      UrlTextReadsBack(ToSextets(bytes));
      DecoderSteps(value);
      DecodeOfEncode(bytes);
    }
    if Base64UrlToBytes(value) == Some(bytes) {
      assert LooksLikeBase64Url(value) by {
        NothingElseDecodes(value);
      }
      DecoderSteps(value);
      assert value == EncodeUrl(bytes);
      assert bytes != [] by {
        assert UrlText([]) == [];
      }
    }
  }

  lemma NothingElseDecodes(value: Text)
    ensures Base64UrlToBytes(value).Some? ==> LooksLikeBase64Url(value)
  {
  }

  /** The accepted strings, by their shape: alphabet, length, and zero surplus bits. */
  lemma AcceptsExactlyCanonicalText(value: Text)
    ensures Base64UrlToBytes(value).Some? <==> LooksLikeBase64Url(value) && Canonical(UrlSextets(value))
  {
    hide FromSextets, ToSextets, UrlSextets, UrlText, Base64UrlToBytes, Canonical;
    NothingElseDecodes(value);
    if LooksLikeBase64Url(value) {
      DecoderSteps(value);
      var s := UrlSextets(value);
      assert |s| == |value| by { SextetCount(value); }
      EncodeOfDecode(s);
      var canonical := ToSextets(FromSextets(s));
      if UrlText(canonical) == value {
        UrlTextReadsBack(canonical);
      }
    }
  }

  lemma SextetCount(value: Text)
    ensures |UrlSextets(value)| == |value|
  {
  }

  /** No two accepted strings decode alike. */
  lemma DecodingIsInjective(v: Text, w: Text)
    requires Base64UrlToBytes(v).Some? && Base64UrlToBytes(v) == Base64UrlToBytes(w)
    ensures v == w
  {
    hide Base64UrlToBytes, EncodeUrl;
    AcceptsExactlyEncodings(v, Base64UrlToBytes(v).value);
    AcceptsExactlyEncodings(w, Base64UrlToBytes(v).value);
  }
}
