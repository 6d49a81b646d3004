/** The string operations of JavaScript that the parsers share: split, join and lower case. */
module Text {

  /** `s.split(sep)` for a one-character separator. */
  function Split(s: string, sep: char): (parts: seq<string>)
    ensures |parts| >= 1
  {
    if s == "" then [""]
    else
      var rest := Split(s[1..], sep);
      if s[0] == sep then [""] + rest else [[s[0]] + rest[0]] + rest[1..]
  }

  function Join(parts: seq<string>, sep: char): string {
    if parts == [] then ""
    else if |parts| == 1 then parts[0]
    else parts[0] + [sep] + Join(parts[1..], sep)
  }

  function LowerChar(c: char): char {
    if 'A' <= c <= 'Z' then c - 'A' + 'a' else c
  }

  const UPPER := "ABCDEFGHIJKLMNOPQRSTUVWXYZ"
  const LOWER := "abcdefghijklmnopqrstuvwxyz"

  /** Two characters are the same, or the two cases of one letter. */
  predicate SameLetter(c: char, d: char) {
    c == d || exists k :: 0 <= k < 26 && c in {UPPER[k], LOWER[k]} && d in {UPPER[k], LOWER[k]}
  }

  lemma Alphabet(k: nat)
    requires k < 26
    ensures UPPER[k] as int == 0x41 + k && LOWER[k] as int == 0x61 + k
  {
  }

  lemma CasesOfLetter(c: char, d: char, k: nat)
    requires k < 26 && c in {UPPER[k], LOWER[k]} && d in {UPPER[k], LOWER[k]}
    ensures LowerChar(c) == LowerChar(d)
  {
    Alphabet(k);
  }

  lemma LetterOf(c: char) returns (k: nat)
    requires 'A' <= c <= 'Z' || 'a' <= c <= 'z'
    ensures k < 26 && LowerChar(c) == LOWER[k]
    ensures forall d :: LowerChar(d) == LOWER[k] ==> d in {UPPER[k], LOWER[k]}
  {
    k := LowerChar(c) as int - 0x61;
    Alphabet(k);
  }

  /** Lower case makes the cases of a letter one and the same, the lower one, and keeps all else apart. */
  lemma LowerCharMergesCases(c: char, d: char)
    ensures LowerChar(c) == LowerChar(d) <==> SameLetter(c, d)
    ensures c in LOWER ==> LowerChar(c) == c
  {
    if k: nat :| k < 26 && c in {UPPER[k], LOWER[k]} && d in {UPPER[k], LOWER[k]} {
      CasesOfLetter(c, d, k);
    }
    if LowerChar(c) == LowerChar(d) && c != d {
      var k := LetterOf(c);
      assert c in {UPPER[k], LOWER[k]} && d in {UPPER[k], LOWER[k]};
    }
    if k :| 0 <= k < 26 && c == LOWER[k] {
      Alphabet(k);
    }
  }

  function Lower(s: string): (r: string)
    ensures |r| == |s| && forall i :: 0 <= i < |s| ==> r[i] == LowerChar(s[i])
  {
    if s == "" then "" else [LowerChar(s[0])] + Lower(s[1..])
  }

  lemma {:induction false} JoinOfSplit(s: string, sep: char)
    ensures Join(Split(s, sep), sep) == s
    ensures forall i :: 0 <= i < |Split(s, sep)| ==> sep !in Split(s, sep)[i]
    decreases |s|
  {
    if s != "" {
      JoinOfSplit(s[1..], sep);
      var rest := Split(s[1..], sep);
      if s[0] == sep {
        JoinAfter("", rest, sep);
      } else {
        JoinPrefixed(s[0], rest[0], rest[1..], sep);
        assert [rest[0]] + rest[1..] == rest;
      }
      assert [s[0]] + s[1..] == s;
    }
  }

  lemma JoinAfter(part: string, rest: seq<string>, sep: char)
    requires rest != []
    ensures Join([part] + rest, sep) == part + [sep] + Join(rest, sep)
  {
    assert ([part] + rest)[1..] == rest;
  }

  lemma JoinPrefixed(c: char, part: string, rest: seq<string>, sep: char)
    ensures Join([[c] + part] + rest, sep) == [c] + Join([part] + rest, sep)
  {
    if rest != [] {
      JoinAfter(part, rest, sep);
      JoinAfter([c] + part, rest, sep);
    }
  }

  lemma {:induction false} SplitOfPart(part: string, rest: string, sep: char)
    requires sep !in part
    ensures Split(part, sep) == [part]
    ensures Split(part + [sep] + rest, sep) == [part] + Split(rest, sep)
    decreases |part|
  {
    var text := part + [sep] + rest;
    if part == "" {
      assert text[1..] == rest;
    } else {
      SplitOfPart(part[1..], rest, sep);
      assert text[1..] == part[1..] + [sep] + rest;
      assert [part[0]] + part[1..] == part;
    }
  }

  lemma {:induction false} SplitOfJoin(parts: seq<string>, sep: char)
    requires parts != [] && forall i :: 0 <= i < |parts| ==> sep !in parts[i]
    ensures Split(Join(parts, sep), sep) == parts
    decreases |parts|
  {
    if |parts| == 1 {
      assert parts == [parts[0]];
      SplitOfPart(parts[0], "", sep);
    } else {
      SplitOfJoin(parts[1..], sep);
      SplitOfPart(parts[0], Join(parts[1..], sep), sep);
      assert parts == [parts[0]] + parts[1..];
    }
  }

  lemma JoinShort(a: string, b: string, sep: char)
    ensures Join([a], sep) == a && Join([a, b], sep) == a + [sep] + b
  {
    assert [a, b][1..] == [b];
  }

  /** Joining the two halves of a list with the separator between them joins the list. */
  lemma {:induction false} JoinAppend(a: seq<string>, b: seq<string>, sep: char)
    requires a != [] && b != []
    ensures Join(a + b, sep) == Join(a, sep) + [sep] + Join(b, sep)
    decreases |a|
  {
    assert (a + b)[1..] == a[1..] + b;
    if |a| > 1 {
      JoinAppend(a[1..], b, sep);
    }
  }

  lemma ConsBeforeAppend(c: char, a: seq<string>, b: seq<string>)
    requires a != []
    ensures [""] + (a + b) == ([""] + a) + b
    ensures [[c] + (a + b)[0]] + (a + b)[1..] == ([[c] + a[0]] + a[1..]) + b
  {
  }

  lemma {:induction false} SplitAppend(s: string, rest: string, sep: char)
    ensures Split(s + [sep] + rest, sep) == Split(s, sep) + Split(rest, sep)
    decreases |s|
  {
    var text := s + [sep] + rest;
    if s == "" {
      assert text[1..] == rest;
    } else {
      SplitAppend(s[1..], rest, sep);
      assert text[0] == s[0] && text[1..] == s[1..] + [sep] + rest;
      ConsBeforeAppend(s[0], Split(s[1..], sep), Split(rest, sep));
    }
  }

  lemma {:induction false} SplitHeadIsPrefix(s: string, sep: char)
    ensures Split(s, sep)[0] <= s
  {
    if s != "" {
      SplitHeadIsPrefix(s[1..], sep);
    }
  }

  /** The value of the decimal digit with this code unit, and 0 for any other. */
  function DigitValue(unit: int): nat {
    if 0x30 <= unit <= 0x39 then unit - 0x30 else 0
  }

  /** White space and line ends, by code unit, as `trim` and `parseInt` skip them. */
  predicate IsWhiteSpace(unit: int) {
    || 0x9 <= unit <= 0xD || unit == 0x20 || unit == 0xA0 || unit == 0x1680 || 0x2000 <= unit <= 0x200A
    || unit == 0x2028 || unit == 0x2029 || unit == 0x202F || unit == 0x205F || unit == 0x3000 || unit == 0xFEFF
  }

  /** They are the code points of `WhiteSpace` and `LineTerminator` in ECMA-262, sections 12.2 and 12.3. */
  lemma WhiteSpaceIsListed(unit: int)
    ensures IsWhiteSpace(unit) <==>
              unit in {0x9, 0xA, 0xB, 0xC, 0xD, 0x20, 0xA0, 0x1680, 0x2000, 0x2001, 0x2002, 0x2003, 0x2004, 0x2005,
                       0x2006, 0x2007, 0x2008, 0x2009, 0x200A, 0x2028, 0x2029, 0x202F, 0x205F, 0x3000, 0xFEFF}
  {
  }
}
