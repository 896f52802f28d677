/** The tokenizer and the parser of VMDK text descriptors. */
module DescriptorParsing {
  import opened Bytes
  import opened Texts
  import opened Descriptors

  predicate IsPadding(c: char) {
    c == '\0' || c == ' ' || c == '\t' || c == '\r'
  }

  predicate IsQuote(c: char) {
    c == '"'
  }

  predicate IsBlankChar(c: char) {
    c == ' ' || c == '\t'
  }

  // ---------------------------------------------------------------- tokens

  function Flush(current: string): seq<string> {
    if current == [] then [] else [current]
  }

  /** The tokens of the rest of a line when `current` has been collected so far. */
  function Tokens(s: string, current: string, quoted: bool): seq<string>
    decreases |s|
  {
    if s == [] then Flush(current)
    else if s[0] == '"' then Tokens(s[1..], current, !quoted)
    else if IsBlankChar(s[0]) && !quoted then Flush(current) + Tokens(s[1..], [], false)
    else Tokens(s[1..], current + [s[0]], quoted)
  }

  method Tokenize(line: string) returns (tokens: seq<string>)
    ensures tokens == Tokens(line, [], false)
  {
    tokens := [];
    var current: string := [];
    var quoted := false;
    for i := 0 to |line|
      invariant Tokens(line, [], false) == tokens + Tokens(line[i..], current, quoted)
    {
      var c := line[i];
      assert line[i..][0] == c && line[i..][1..] == line[i + 1..];
      if c == '"' {
        quoted := !quoted;
      } else if (c == ' ' || c == '\t') && !quoted {
        assert tokens + (Flush(current) + Tokens(line[i + 1..], [], false))
            == (tokens + Flush(current)) + Tokens(line[i + 1..], [], false);
        if current != [] {
          tokens := tokens + [current];
          current := [];
        }
      } else {
        current := current + [c];
      }
    }
    if current != [] {
      tokens := tokens + [current];
    }
  }

  // ---------------------------------------------------------------- lines

  predicate IsAccess(word: string) {
    word == "RW" || word == "RDONLY" || word == "NOACCESS"
  }

  function OrZero(n: Option<nat>): nat {
    if n.Some? then n.value else 0
  }

  function ExtentOf(tokens: seq<string>): ExtentDescriptor
    requires |tokens| >= 3
  {
    ExtentDescriptor(
      Upper(tokens[0]),
      OrZero(ParseNumber(tokens[1], 10, U64_LIMIT)),
      Upper(tokens[2]),
      if |tokens| > 3 then Some(tokens[3]) else None,
      if |tokens| > 4 then OrZero(ParseNumber(tokens[4], 10, U64_LIMIT)) else 0)
  }

  function SetKey(d: Descriptor, key: string, value: string): Descriptor {
    if key == "createtype" then d.(createType := value)
    else if key == "parentcid" then d.(parentCid := ParseNumber(value, 16, U32_LIMIT))
    else if key == "parentfilenamehint" then d.(parentFileNameHint := Some(value))
    else d
  }

  /** The key and the value of a line `key = "value"`. */
  function KeyValue(line: string): Option<(string, string)> {
    match SplitOnce(line, '=')
    case None => None
    case Some((key, value)) => Some((Trim(IsWhitespace, key), Trim(IsQuote, Trim(IsWhitespace, value))))
  }

  /** The line says nothing: it is blank or a comment. */
  predicate Skipped(line: string) {
    var trimmed := Trim(IsPadding, line);
    trimmed == [] || trimmed[0] == '#'
  }

  function ParseLine(d: Descriptor, line: string): Descriptor {
    if Skipped(line) then d
    else
      var trimmed := Trim(IsPadding, line);
      ParseTokens(d, trimmed, Tokens(trimmed, [], false))
  }

  function ParseTokens(d: Descriptor, line: string, tokens: seq<string>): Descriptor {
    if tokens == [] then d
    else if IsAccess(Upper(tokens[0])) && |tokens| >= 3 then d.(extents := d.extents + [ExtentOf(tokens)])
    else
      match KeyValue(line)
      case None => d
      case Some((key, value)) => SetKey(d, Lower(key), value)
  }

  function Fold<A, B>(step: (A, B) -> A, a: A, items: seq<B>): A {
    if items == [] then a
    else step(Fold(step, a, items[..|items| - 1]), items[|items| - 1])
  }

  function ParseLines(d: Descriptor, lines: seq<string>): Descriptor {
    Fold(ParseLine, d, lines)
  }

  const EMPTY := Descriptor([], None, None, [])

  method ParseDescriptor(text: string) returns (d: Descriptor)
    ensures d == ParseLines(EMPTY, Lines(text))
  {
    d := EMPTY;
    var lines := Lines(text);
    for i := 0 to |lines|
      invariant d == ParseLines(EMPTY, lines[..i])
    {
      assert lines[..i + 1][..i] == lines[..i];
      var line := Trim(IsPadding, lines[i]);
      if line == [] || line[0] == '#' {
        continue;
      }
      var tokens := Tokenize(line);
      if tokens == [] {
        continue;
      }
      if IsAccess(Upper(tokens[0])) && |tokens| >= 3 {
        d := d.(extents := d.extents + [ExtentOf(tokens)]);
      } else {
        var entry := KeyValue(line);
        if entry.Some? {
          d := SetKey(d, Lower(entry.value.0), entry.value.1);
        }
      }
    }
    assert lines[..|lines|] == lines;
  }

  // ---------------------------------------------------------------- comments and blank lines

  function Filter<A>(keep: A -> bool, items: seq<A>): seq<A> {
    if items == [] then []
    else
      var last := |items| - 1;
      Filter(keep, items[..last]) + if keep(items[last]) then [items[last]] else []
  }

  /** What of a descriptor a line can set. */
  datatype LineKind = ExtentKind | TypeKind | CidKind | HintKind | NothingKind

  function KindOfKey(key: string): LineKind {
    if key == "createtype" then TypeKind
    else if key == "parentcid" then CidKind
    else if key == "parentfilenamehint" then HintKind
    else NothingKind
  }

  function KindOfTokens(line: string, tokens: seq<string>): LineKind {
    if tokens == [] then NothingKind
    else if IsAccess(Upper(tokens[0])) && |tokens| >= 3 then ExtentKind
    else
      match KeyValue(line)
      case None => NothingKind
      case Some((key, _)) => KindOfKey(Lower(key))
  }

  /** Comments, blank lines and lines with any other key set nothing. */
  function KindOf(line: string): LineKind {
    if Skipped(line) then NothingKind
    else
      var trimmed := Trim(IsPadding, line);
      KindOfTokens(trimmed, Tokens(trimmed, [], false))
  }

  predicate Tells(line: string) {
    KindOf(line) != NothingKind
  }

  function OfKind(kind: LineKind): string -> bool {
    (line: string) => KindOf(line) == kind
  }

  /** A line sets nothing but what its kind says. */
  lemma LineSets(d: Descriptor, line: string)
    ensures KindOf(line) != ExtentKind ==> ParseLine(d, line).extents == d.extents
    ensures KindOf(line) != TypeKind ==> ParseLine(d, line).createType == d.createType
    ensures KindOf(line) != CidKind ==> ParseLine(d, line).parentCid == d.parentCid
    ensures KindOf(line) != HintKind ==> ParseLine(d, line).parentFileNameHint == d.parentFileNameHint
  {
  }

  /** What it sets does not depend on the other fields. */
  lemma LineSetsAlike(d: Descriptor, d': Descriptor, line: string)
    ensures d.extents == d'.extents ==> ParseLine(d, line).extents == ParseLine(d', line).extents
    ensures d.createType == d'.createType ==> ParseLine(d, line).createType == ParseLine(d', line).createType
    ensures d.parentCid == d'.parentCid ==> ParseLine(d, line).parentCid == ParseLine(d', line).parentCid
    ensures d.parentFileNameHint == d'.parentFileNameHint ==>
              ParseLine(d, line).parentFileNameHint == ParseLine(d', line).parentFileNameHint
  {
  }

  /** The lines that say something. */
  function Significant(lines: seq<string>): seq<string> {
    Filter(Tells, lines)
  }

  /** Dropping what a fold passes over does not change it. */
  lemma FoldFiltered<A(!new), B(!new)>(step: (A, B) -> A, keep: B -> bool, a: A, items: seq<B>)
    requires forall x, y :: !keep(y) ==> step(x, y) == x
    ensures Fold(step, a, items) == Fold(step, a, Filter(keep, items))
  {
    FoldPart(step, keep, (x: A) => x, a, items);
  }

  ghost predicate Ignores<A(!new), B(!new), C>(step: (A, B) -> A, keep: B -> bool, part: A -> C) {
    forall x, y :: !keep(y) ==> part(step(x, y)) == part(x)
  }

  ghost predicate Respects<A(!new), B(!new), C>(step: (A, B) -> A, part: A -> C) {
    forall x, x', y :: part(x) == part(x') ==> part(step(x, y)) == part(step(x', y))
  }

  /** A part of the result that only some items can change is decided by those items alone. */
  lemma {:induction false} FoldPart<A(!new), B(!new), C>(step: (A, B) -> A, keep: B -> bool, part: A -> C, a: A,
                                                         items: seq<B>)
    requires Ignores(step, keep, part) && Respects(step, part)
    ensures part(Fold(step, a, items)) == part(Fold(step, a, Filter(keep, items)))
  {
    if items != [] {
      var last := |items| - 1;
      FoldPart(step, keep, part, a, items[..last]);
      var kept := Filter(keep, items[..last]);
      if keep(items[last]) {
        assert (kept + [items[last]])[..|kept|] == kept;
      } else {
        assert kept + [] == kept;
      }
    }
  }

  /** Comments, blank lines and unknown keys, wherever they stand, change nothing. */
  lemma OnlySignificantLinesCount(d: Descriptor, lines: seq<string>)
    ensures ParseLines(d, lines) == ParseLines(d, Significant(lines))
  {
    forall x, y | !Tells(y) ensures ParseLine(x, y) == x {
      LineSets(x, y);
    }
    FoldFiltered(ParseLine, Tells, d, lines);
  }

  /** The extent lines alone decide the extents, in whatever order they are mixed with others. */
  lemma ExtentsApart(d: Descriptor, lines: seq<string>)
    ensures ParseLines(d, lines).extents == ParseLines(d, Filter(OfKind(ExtentKind), lines)).extents
  {
    var part := (x: Descriptor) => x.extents;
    forall x, line | !OfKind(ExtentKind)(line) ensures part(ParseLine(x, line)) == part(x) {
      LineSets(x, line);
    }
    forall x, x', line | part(x) == part(x') ensures part(ParseLine(x, line)) == part(ParseLine(x', line)) {
      LineSetsAlike(x, x', line);
    }
    FoldPart(ParseLine, OfKind(ExtentKind), part, d, lines);
  }
}
