/** Strings as the parsers take them apart: lines, trimming, letter case and numbers. */
module Texts {
  import opened Bytes

  /** Unicode white space, as the standard library's `trim` understands it. */
  predicate IsWhitespace(c: char) {
    || '\t' <= c <= '\r' || c == ' ' || c == '\U{85}' || c == '\U{A0}' || c == '\U{1680}'
    || '\U{2000}' <= c <= '\U{200A}' || c == '\U{2028}' || c == '\U{2029}' || c == '\U{202F}'
    || c == '\U{205F}' || c == '\U{3000}'
  }

  /** The 25 code points with the property White_Space. */
  lemma WhitespaceExactly(c: char)
    ensures IsWhitespace(c) <==>
              c as int in {0x9, 0xA, 0xB, 0xC, 0xD, 0x20, 0x85, 0xA0, 0x1680, 0x2000, 0x2001, 0x2002, 0x2003, 0x2004, 0x2005,
                           0x2006, 0x2007, 0x2008, 0x2009, 0x200A, 0x2028, 0x2029, 0x202F, 0x205F, 0x3000}
  {
  }

  // ---------------------------------------------------------------- trimming

  function TrimStart(drop: char -> bool, s: string): string {
    if s != [] && drop(s[0]) then TrimStart(drop, s[1..]) else s
  }

  function TrimEnd(drop: char -> bool, s: string): string {
    if s != [] && drop(s[|s| - 1]) then TrimEnd(drop, s[..|s| - 1]) else s
  }

  function Trim(drop: char -> bool, s: string): string {
    TrimEnd(drop, TrimStart(drop, s))
  }

  /** Nothing to drop at either end. */
  predicate Trimmed(drop: char -> bool, s: string) {
    s == [] || (!drop(s[0]) && !drop(s[|s| - 1]))
  }

  lemma TrimKeeps(drop: char -> bool, s: string)
    requires Trimmed(drop, s)
    ensures Trim(drop, s) == s
  {
  }

  /** A pair of dropped characters around a trimmed string goes, and nothing else. */
  lemma TrimUnwraps(drop: char -> bool, c: char, s: string)
    requires drop(c) && Trimmed(drop, s)
    ensures Trim(drop, [c] + s + [c]) == s
  {
    var wrapped := [c] + s + [c];
    assert wrapped[1..] == s + [c];
    if s == [] {
      assert s + [c] == [c] && [c][1..] == [];
      assert TrimStart(drop, [c]) == TrimStart(drop, []) == [];
    } else {
      assert TrimStart(drop, s + [c]) == s + [c];
      assert (s + [c])[..|s|] == s;
      assert TrimEnd(drop, s + [c]) == TrimEnd(drop, s) == s;
    }
  }

  lemma {:induction false} TrimStartDrops(drop: char -> bool, lead: string, s: string)
    requires forall i :: 0 <= i < |lead| ==> drop(lead[i])
    requires s == [] || !drop(s[0])
    ensures TrimStart(drop, lead + s) == s
  {
    if lead == [] {
      assert lead + s == s;
    } else {
      assert (lead + s)[1..] == lead[1..] + s;
      TrimStartDrops(drop, lead[1..], s);
    }
  }

  lemma {:induction false} TrimEndDrops(drop: char -> bool, s: string, trail: string)
    requires forall i :: 0 <= i < |trail| ==> drop(trail[i])
    requires s == [] || !drop(s[|s| - 1])
    ensures TrimEnd(drop, s + trail) == s
    decreases |trail|
  {
    if trail == [] {
      assert s + trail == s;
    } else {
      var last := |trail| - 1;
      assert (s + trail)[..|s| + last] == s + trail[..last];
      TrimEndDrops(drop, s, trail[..last]);
    }
  }

  /** Whatever can be dropped around a text goes, and nothing of the text itself. */
  lemma TrimAround(drop: char -> bool, lead: string, s: string, trail: string)
    requires forall i :: 0 <= i < |lead| ==> drop(lead[i])
    requires forall i :: 0 <= i < |trail| ==> drop(trail[i])
    requires Trimmed(drop, s)
    ensures Trim(drop, lead + s + trail) == s
  {
    if s == [] {
      assert lead + s + trail == (lead + trail) + [];
      TrimStartDrops(drop, lead + trail, []);
    } else {
      assert lead + s + trail == lead + (s + trail);
      TrimStartDrops(drop, lead, s + trail);
      TrimEndDrops(drop, s, trail);
    }
  }

  // ---------------------------------------------------------------- lines

  predicate OneLine(s: string) {
    forall i :: 0 <= i < |s| ==> s[i] != '\n'
  }

  /** The pieces between line feeds; the one after the last line feed may be empty. */
  function Lines(text: string): (lines: seq<string>)
    ensures |lines| > 0
  {
    if text == [] then [[]]
    else
      var rest := Lines(text[1..]);
      if text[0] == '\n' then [[]] + rest else [[text[0]] + rest[0]] + rest[1..]
  }

  function Join(lines: seq<string>): string {
    if lines == [] then [] else lines[0] + "\n" + Join(lines[1..])
  }

  lemma {:induction false} LinesOfLine(line: string, rest: string)
    requires OneLine(line)
    ensures Lines(line + "\n" + rest) == [line] + Lines(rest)
  {
    var text := line + "\n" + rest;
    if line == [] {
      assert text[1..] == rest;
    } else {
      assert text[1..] == line[1..] + "\n" + rest;
      LinesOfLine(line[1..], rest);
      assert [line[0]] + line[1..] == line;
    }
  }

  lemma {:induction false} LinesOfJoin(lines: seq<string>)
    requires forall i :: 0 <= i < |lines| ==> OneLine(lines[i])
    ensures Lines(Join(lines)) == lines + [[]]
  {
    if lines != [] {
      LinesOfLine(lines[0], Join(lines[1..]));
      LinesOfJoin(lines[1..]);
      assert [lines[0]] + (lines[1..] + [[]]) == lines + [[]];
    }
  }

  // ---------------------------------------------------------------- letter case

  function UpperChar(c: char): char {
    if 'a' <= c <= 'z' then (c as int - 32) as char else c
  }

  function LowerChar(c: char): char {
    if 'A' <= c <= 'Z' then (c as int + 32) as char else c
  }

  function Upper(s: string): (r: string)
    ensures |r| == |s|
    ensures forall i :: 0 <= i < |s| ==> r[i] == UpperChar(s[i])
  {
    seq(|s|, i requires 0 <= i < |s| => UpperChar(s[i]))
  }

  function Lower(s: string): (r: string)
    ensures |r| == |s|
    ensures forall i :: 0 <= i < |s| ==> r[i] == LowerChar(s[i])
  {
    seq(|s|, i requires 0 <= i < |s| => LowerChar(s[i]))
  }

  // ---------------------------------------------------------------- splitting

  /** What precedes and what follows the first `c`. */
  function SplitOnce(s: string, c: char): (r: Option<(string, string)>)
    decreases |s|
  {
    if s == [] then None
    else if s[0] == c then Some(([], s[1..]))
    else
      match SplitOnce(s[1..], c)
      case None => None
      case Some((before, after)) => Some(([s[0]] + before, after))
  }

  lemma {:induction false} SplitAtFirst(before: string, c: char, after: string)
    requires forall i :: 0 <= i < |before| ==> before[i] != c
    ensures SplitOnce(before + [c] + after, c) == Some((before, after))
    decreases |before|
  {
    var s := before + [c] + after;
    if before == [] {
      assert s[1..] == after;
    } else {
      assert s[1..] == before[1..] + [c] + after;
      SplitAtFirst(before[1..], c, after);
      assert [before[0]] + before[1..] == before;
    }
  }

  /** There is nothing to split at. */
  lemma {:induction false} SplitNowhere(s: string, c: char)
    requires c !in s
    ensures SplitOnce(s, c) == None
  {
    if s != [] {
      SplitNowhere(s[1..], c);
    }
  }

  // ---------------------------------------------------------------- numbers

  function DigitValue(c: char, radix: nat): (d: Option<nat>)
    ensures d.Some? ==> d.value < radix
  {
    var d := if '0' <= c <= '9' then c as int - '0' as int
             else if 'a' <= c <= 'z' then c as int - 'a' as int + 10
             else if 'A' <= c <= 'Z' then c as int - 'A' as int + 10
             else radix;
    if d < radix then Some(d) else None
  }

  /** The value of a string of digits, most significant first; None if some character is no digit. */
  function DigitsValue(s: string, radix: nat): Option<nat> {
    if s == [] then Some(0)
    else
      match (DigitsValue(s[..|s| - 1], radix), DigitValue(s[|s| - 1], radix))
      case (Some(high), Some(low)) => Some(high * radix + low)
      case _ => None
  }

  /** What is left of a number once its plus sign is gone. */
  function Unsigned(s: string): string {
    if s != [] && s[0] == '+' then s[1..] else s
  }

  /** An unsigned number below `limit`: an optional plus sign and at least one digit. */
  function ParseNumber(s: string, radix: nat, limit: nat): (r: Option<nat>)
    ensures r.Some? ==> r.value < limit
  {
    var digits := Unsigned(s);
    if digits == [] then None
    else
      match DigitsValue(digits, radix)
      case Some(v) => if v < limit then Some(v) else None
      case None => None
  }

  function DigitChar(d: nat): (c: char)
    requires d < 16
    ensures '0' <= c <= '9' || 'a' <= c <= 'f'
  {
    if d < 10 then ('0' as int + d) as char else ('a' as int + d - 10) as char
  }

  /** A number written out without a sign or leading zeros. */
  function Numeral(n: nat, radix: nat): (s: string)
    requires 2 <= radix <= 16
    ensures s != []
    ensures forall i :: 0 <= i < |s| ==> '0' <= s[i] <= '9' || 'a' <= s[i] <= 'f'
    decreases n, radix
  {
    if n < radix then [DigitChar(n)] else Numeral(n / radix, radix) + [DigitChar(n % radix)]
  }

  lemma DigitRoundTrip(d: nat, radix: nat)
    requires d < radix <= 16
    ensures DigitValue(DigitChar(d), radix) == Some(d)
  {
  }

  lemma DigitsSnoc(high: string, value: nat, d: nat, radix: nat)
    requires d < radix <= 16 && DigitsValue(high, radix) == Some(value)
    ensures DigitsValue(high + [DigitChar(d)], radix) == Some(value * radix + d)
  {
    DigitRoundTrip(d, radix);
    var s := high + [DigitChar(d)];
    assert s[..|s| - 1] == high;
  }

  lemma Divide(n: nat, d: nat) returns (q: nat, r: nat)
    requires d > 0
    ensures q == n / d && r == n % d && n == q * d + r
    ensures n > 0 && d > 1 ==> q < n
  {
    q, r := n / d, n % d;
    if d > 1 {
      MulMonotone(2, d, q);
    }
  }

  lemma NumeralStep(n: nat, radix: nat, q: nat, r: nat)
    requires 2 <= radix <= 16 && n >= radix && q == n / radix && r == n % radix
    ensures Numeral(n, radix) == Numeral(q, radix) + [DigitChar(r)]
  {
  }

  lemma {:induction false} NumeralValue(n: nat, radix: nat)
    requires 2 <= radix <= 16
    ensures DigitsValue(Numeral(n, radix), radix) == Some(n)
    decreases n
  {
    if n < radix {
      DigitsSnoc([], 0, n, radix);
      assert [] + [DigitChar(n)] == [DigitChar(n)];
    } else {
      var q, r := Divide(n, radix);
      NumeralValue(q, radix);
      DigitsSnoc(Numeral(q, radix), q, r, radix);
      NumeralStep(n, radix, q, r);
    }
  }

  lemma NumeralRoundTrip(n: nat, radix: nat, limit: nat)
    requires 2 <= radix <= 16 && n < limit
    ensures ParseNumber(Numeral(n, radix), radix, limit) == Some(n)
  {
    NumeralValue(n, radix);
  }

  // ---------------------------------------------------------------- every way to write a number

  /** `s` writes `n`: perhaps a plus sign, perhaps leading zeros, then its numeral in any letter case. */
  ghost predicate Spells(s: string, n: nat, radix: nat)
    requires 2 <= radix <= 16
  {
    exists sign: string, zeros: nat ::
      (sign == "" || sign == "+") && Lower(s) == sign + (Repeated('0', zeros) + Numeral(n, radix))
  }

  function Repeated(c: char, n: nat): (s: string)
    ensures |s| == n && forall i :: 0 <= i < n ==> s[i] == c
  {
    if n == 0 then [] else [c] + Repeated(c, n - 1)
  }

  lemma {:induction false} RepeatedSnoc(c: char, n: nat)
    ensures Repeated(c, n) + [c] == Repeated(c, n + 1)
  {
    if n > 0 {
      RepeatedSnoc(c, n - 1);
      assert Repeated(c, n) + [c] == [c] + (Repeated(c, n - 1) + [c]);
    }
  }

  lemma CaseOfDigit(c: char, radix: nat)
    requires radix <= 16
    ensures DigitValue(c, radix) == DigitValue(LowerChar(c), radix)
    ensures DigitValue(c, radix).Some? ==> LowerChar(c) == DigitChar(DigitValue(c, radix).value)
  {
  }

  lemma LowerSnoc(s: string, c: char)
    ensures Lower(s + [c]) == Lower(s) + [LowerChar(c)]
  {
  }

  /** One more digit behind zeros and a numeral. */
  lemma SpelledOnward(high: string, zeros: nat, h: nat, d: nat, radix: nat) returns (more: nat)
    requires 2 <= radix <= 16 && d < radix && high == Repeated('0', zeros) + Numeral(h, radix)
    ensures high + [DigitChar(d)] == Repeated('0', more) + Numeral(h * radix + d, radix)
  {
    if h == 0 {
      RepeatedSnoc('0', zeros);
      assert Numeral(0, radix) == ['0'] && Numeral(d, radix) == [DigitChar(d)];
      more := zeros + 1;
    } else {
      NumeralSnoc(h, d, radix);
      assert high + [DigitChar(d)] == Repeated('0', zeros) + (Numeral(h, radix) + [DigitChar(d)]);
      more := zeros;
    }
  }

  /** The value of some digits is that of those before the last, times the radix, and the last. */
  lemma DigitsLast(high: string, c: char, radix: nat) returns (h: nat, d: nat)
    requires radix <= 16 && DigitsValue(high + [c], radix).Some?
    ensures d < radix && LowerChar(c) == DigitChar(d) && DigitsValue(high, radix) == Some(h)
    ensures DigitsValue(high + [c], radix) == Some(h * radix + d)
  {
    var s := high + [c];
    assert s[..|s| - 1] == high;
    CaseOfDigit(c, radix);
    h, d := DigitsValue(high, radix).value, DigitValue(c, radix).value;
  }

  lemma OneDigitSpells(c: char, d: nat, radix: nat)
    requires d < radix <= 16 && radix >= 2 && LowerChar(c) == DigitChar(d)
    ensures Lower([c]) == Repeated('0', 0) + Numeral(d, radix)
  {
  }

  /** Digits with a value are zeros and the numeral of that value. */
  lemma {:induction false} DigitsSpell(s: string, radix: nat, n: nat) returns (zeros: nat)
    requires 2 <= radix <= 16 && s != [] && DigitsValue(s, radix) == Some(n)
    ensures Lower(s) == Repeated('0', zeros) + Numeral(n, radix)
    decreases |s|
  {
    var high, c := s[..|s| - 1], s[|s| - 1];
    assert s == high + [c];
    var h, d := DigitsLast(high, c, radix);
    if high == [] {
      zeros := 0;
      assert s == [c];
      OneDigitSpells(c, d, radix);
    } else {
      LowerSnoc(high, c);
      zeros := DigitsSpell(high, radix, h);
      zeros := SpelledOnward(Lower(high), zeros, h, d, radix);
    }
  }

  lemma NumeralSnoc(h: nat, d: nat, radix: nat)
    requires 2 <= radix <= 16 && 0 < h && d < radix
    ensures Numeral(h * radix + d, radix) == Numeral(h, radix) + [DigitChar(d)]
  {
    MultipleAtLeast(h, radix);
    DivModUnique(h, d, radix);
    NumeralStep(h * radix + d, radix, h, d);
  }

  lemma {:induction false} DigitsAnyCase(s: string, radix: nat)
    requires radix <= 16
    ensures DigitsValue(s, radix) == DigitsValue(Lower(s), radix)
    decreases |s|
  {
    if s != [] {
      DigitsAnyCase(s[..|s| - 1], radix);
      CaseOfDigit(s[|s| - 1], radix);
      assert Lower(s)[..|s| - 1] == Lower(s[..|s| - 1]);
    }
  }

  lemma {:induction false} ZerosAddNothing(zeros: nat, s: string, radix: nat)
    requires 2 <= radix <= 16
    ensures DigitsValue(Repeated('0', zeros) + s, radix) == DigitsValue(s, radix)
    decreases |s|, zeros
  {
    var all := Repeated('0', zeros) + s;
    if s != [] {
      assert all[..|all| - 1] == Repeated('0', zeros) + s[..|s| - 1];
      ZerosAddNothing(zeros, s[..|s| - 1], radix);
    } else if zeros > 0 {
      RepeatedSnoc('0', zeros - 1);
      assert all[..|all| - 1] == Repeated('0', zeros - 1) + [];
      ZerosAddNothing(zeros - 1, [], radix);
    }
  }

  lemma SpelledDigits(s: string, sign: string, digits: string)
    requires (sign == "" || sign == "+") && Lower(s) == sign + digits && digits != [] && digits[0] != '+'
    ensures Lower(Unsigned(s)) == digits
  {
    assert Lower(s)[0] == LowerChar(s[0]);
    if sign == "+" {
      assert Lower(s[1..]) == Lower(s)[1..] == digits;
    }
  }

  lemma ParsedIsSpelled(s: string, radix: nat, n: nat)
    requires 2 <= radix <= 16 && Unsigned(s) != [] && DigitsValue(Unsigned(s), radix) == Some(n)
    ensures Spells(s, n, radix)
  {
    var zeros := DigitsSpell(Unsigned(s), radix, n);
    var sign := if s[0] == '+' then "+" else "";
    assert Lower(s) == sign + Lower(Unsigned(s));
  }

  lemma SpelledIsParsed(s: string, radix: nat, n: nat, sign: string, zeros: nat)
    requires 2 <= radix <= 16
    requires (sign == "" || sign == "+") && Lower(s) == sign + (Repeated('0', zeros) + Numeral(n, radix))
    ensures Unsigned(s) != [] && DigitsValue(Unsigned(s), radix) == Some(n)
  {
    var digits := Repeated('0', zeros) + Numeral(n, radix);
    assert digits[0] == if zeros > 0 then '0' else Numeral(n, radix)[0];
    SpelledDigits(s, sign, digits);
    DigitsAnyCase(Unsigned(s), radix);
    ZerosAddNothing(zeros, Numeral(n, radix), radix);
    NumeralValue(n, radix);
  }

  /** A number is parsed exactly when the text writes one below the limit, in whatever way. */
  lemma NumberExactly(s: string, radix: nat, limit: nat, n: nat)
    requires 2 <= radix <= 16
    ensures ParseNumber(s, radix, limit) == Some(n) <==> n < limit && Spells(s, n, radix)
  {
    assert ParseNumber(s, radix, limit) == Some(n) <==>
           n < limit && Unsigned(s) != [] && DigitsValue(Unsigned(s), radix) == Some(n);
    if Unsigned(s) != [] && DigitsValue(Unsigned(s), radix) == Some(n) {
      ParsedIsSpelled(s, radix, n);
    } else if Spells(s, n, radix) {
      var sign: string, zeros: nat :|
        (sign == "" || sign == "+") && Lower(s) == sign + (Repeated('0', zeros) + Numeral(n, radix));
      SpelledIsParsed(s, radix, n, sign, zeros);
    }
  }

  /** The letter cases undo each other, and leave everything else alone. */
  lemma LetterCases(c: char)
    ensures 'a' <= c <= 'z' ==> 'A' <= UpperChar(c) <= 'Z' && LowerChar(UpperChar(c)) == c
    ensures 'A' <= c <= 'Z' ==> 'a' <= LowerChar(c) <= 'z' && UpperChar(LowerChar(c)) == c
    ensures !('a' <= c <= 'z') ==> UpperChar(c) == c
    ensures !('A' <= c <= 'Z') ==> LowerChar(c) == c
  {
  }
}
