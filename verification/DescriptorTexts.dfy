/**
 * The ways to write a VMDK descriptor, and what each of them says. A text is a list of lines, a line
 * is a row of fields, a setting, a comment or blank; nothing here names the tokenizer or the parser
 * but the theorems, by which parsing gives back what was written.
 */
module DescriptorTexts {
  import opened Bytes
  import opened Texts
  import opened Descriptors
  import opened DescriptorParsing

  predicate Blanks(s: string) {
    forall i :: 0 <= i < |s| ==> s[i] == ' ' || s[i] == '\t'
  }

  predicate Pads(s: string) {
    forall i :: 0 <= i < |s| ==> s[i] == '\0' || s[i] == ' ' || s[i] == '\t' || s[i] == '\r'
  }

  function Quoted(value: string): string {
    "\"" + value + "\""
  }

  // ---------------------------------------------------------------- lines

  /** A piece of a field; between quotes it may hold blanks, or be empty. */
  datatype Piece = Piece(text: string, quoted: bool) {
    predicate Valid() {
      && (quoted || text != [])
      && forall i :: 0 <= i < |text| ==> text[i] != '"' && (quoted || !IsPadding(text[i]))
    }

    function Shown(): string {
      if quoted then Quoted(text) else text
    }
  }

  function ShownPieces(pieces: seq<Piece>): string {
    if pieces == [] then [] else pieces[0].Shown() + ShownPieces(pieces[1..])
  }

  function PieceTexts(pieces: seq<Piece>): string {
    if pieces == [] then [] else pieces[0].text + PieceTexts(pieces[1..])
  }

  /** A field of a row, in one or more pieces, and the blanks before it. */
  datatype Field = Field(gap: string, pieces: seq<Piece>) {
    predicate Valid() {
      Blanks(gap) && Text() != [] && forall i :: 0 <= i < |pieces| ==> pieces[i].Valid()
    }

    function Shown(): string {
      ShownPieces(pieces)
    }

    function Text(): string {
      PieceTexts(pieces)
    }
  }

  predicate IsRemark(s: string) {
    s != [] && s[0] == '#'
  }

  /** Fields set off from each other by blanks. */
  predicate Spaced(fields: seq<Field>) {
    forall i :: 0 <= i < |fields| ==> fields[i].Valid() && (i > 0 ==> fields[i].gap != [])
  }

  function RowText(fields: seq<Field>): string {
    if fields == [] then [] else fields[0].gap + fields[0].Shown() + RowText(fields[1..])
  }

  function FieldTexts(fields: seq<Field>): (r: seq<string>)
    ensures |r| == |fields| && forall i :: 0 <= i < |r| ==> r[i] == fields[i].Text()
  {
    seq(|fields|, i requires 0 <= i < |fields| => fields[i].Text())
  }

  /** A value between any number of quotes. */
  function Wrapped(left: nat, value: string, right: nat): string {
    Repeated('"', left) + value + Repeated('"', right)
  }

  /** The text ends in a quote, behind a character that stays at the end of a line. */
  predicate EndsOpen(s: string) {
    |s| > 1 && s[|s| - 1] == '"' && !IsPadding(s[|s| - 2])
  }

  /** A number without a sign; what is none, or does not fit 64 bits, counts as zero. */
  function Amount(text: string): nat {
    match ParseNumber(text, 10, 0x1_0000_0000_0000_0000)
    case Some(n) => n
    case None => 0
  }

  datatype Line =
    | Row(fields: seq<Field>, open: bool)
    | Setting(key: string, before: string, after: string, left: nat, value: string, right: nat)
    | Comment(words: string)
    | Blank
  {
    /** At least three fields, the first of which is an access word in any letter case. */
    predicate IsExtent() {
      Row? && |fields| >= 3 && Upper(fields[0].Text()) in {"RW", "RDONLY", "NOACCESS"}
    }

    predicate Sets(name: string) {
      Setting? && Lower(key) == name
    }

    predicate Known() {
      Sets("createtype") || Sets("parentcid") || Sets("parentfilenamehint")
    }

    predicate Valid() {
      match this
      case Row(fields, open) =>
        && fields != [] && Spaced(fields) && fields[0].gap == [] && !IsRemark(RowText(fields))
        && (open ==> EndsOpen(RowText(fields)))
        && (IsExtent() || '=' !in RowText(fields))
      case Setting(key, before, after, left, value, right) =>
        && KeyWord(key) && Blanks(before) && Blanks(after)
        && (var shown := Wrapped(left, value, right);
            if shown == [] then after == [] else !IsPadding(shown[|shown| - 1]))
        && (Known() ==> Trimmed(IsQuote, value) && Trimmed(IsWhitespace, Wrapped(left, value, right)))
      case Comment(words) => words == [] || !IsPadding(words[|words| - 1])
      case Blank => true
    }

    /** The last quote of an open row is missing. */
    function Core(): string {
      match this
      case Row(fields, open) => if open && RowText(fields) != [] then RowText(fields)[..|RowText(fields)| - 1] else RowText(fields)
      case Setting(key, before, after, left, value, right) =>
        key + before + "=" + (after + Wrapped(left, value, right))
      case Comment(words) => "#" + words
      case Blank => []
    }

    /** The extent a row declares: access, sectors, kind, and perhaps a file and where it starts in it. */
    function Extent(): ExtentDescriptor
      requires IsExtent()
    {
      ExtentDescriptor(
        Upper(fields[0].Text()),
        Amount(fields[1].Text()),
        Upper(fields[2].Text()),
        if |fields| == 3 then None else Some(fields[3].Text()),
        if |fields| <= 4 then 0 else Amount(fields[4].Text()))
    }
  }

  /** A word that can stand before an equals sign, and is no access word. */
  predicate KeyWord(key: string) {
    && key != [] && key[0] != '#' && Upper(key) !in {"RW", "RDONLY", "NOACCESS"}
    && forall i :: 0 <= i < |key| ==>
         key[i] != '=' && key[i] != '"' && key[i] != '\n' && !IsPadding(key[i]) && !IsWhitespace(key[i])
  }

  /** A line with what may stand around it: blanks, carriage returns and zeros. */
  datatype TextLine = TextLine(lead: string, line: Line, trail: string) {
    predicate Valid() {
      Pads(lead) && Pads(trail) && line.Valid()
    }

    function Text(): string {
      lead + line.Core() + trail
    }
  }

  // ---------------------------------------------------------------- what they say

  predicate AllValid(doc: seq<TextLine>) {
    forall i :: 0 <= i < |doc| ==> doc[i].Valid()
  }

  function LineTexts(doc: seq<TextLine>): (r: seq<string>)
    ensures |r| == |doc| && forall i :: 0 <= i < |r| ==> r[i] == doc[i].Text()
  {
    seq(|doc|, i requires 0 <= i < |doc| => doc[i].Text())
  }

  /** The extents of a text, in order. */
  function ExtentsIn(doc: seq<TextLine>): seq<ExtentDescriptor> {
    if doc == [] then []
    else
      var last := doc[|doc| - 1].line;
      ExtentsIn(doc[..|doc| - 1]) + if last.IsExtent() then [last.Extent()] else []
  }

  /** The value of the last line that sets this key. */
  function LastValue(doc: seq<TextLine>, name: string): Option<string> {
    if doc == [] then None
    else
      var last := doc[|doc| - 1].line;
      if last.Sets(name) then Some(last.value) else LastValue(doc[..|doc| - 1], name)
  }

  /** What a text says. A parent CID that is no hexadecimal number of 32 bits is none. */
  function Meaning(doc: seq<TextLine>): Descriptor {
    Descriptor(
      match LastValue(doc, "createtype") { case Some(value) => value case None => [] },
      match LastValue(doc, "parentcid") { case Some(value) => ParseNumber(value, 16, 0x1_0000_0000) case None => None },
      LastValue(doc, "parentfilenamehint"),
      ExtentsIn(doc))
  }

  /** The lines are a way to write the descriptor. */
  ghost predicate Say(lines: seq<string>, d: Descriptor) {
    exists doc :: AllValid(doc) && LineTexts(doc) == lines && Meaning(doc) == d
  }

  // ---------------------------------------------------------------- one row

  /** Text that the tokenizer collects as it stands. */
  predicate Collected(word: string, quoted: bool) {
    forall i :: 0 <= i < |word| ==> word[i] != '"' && (quoted || !IsBlankChar(word[i]))
  }

  lemma {:induction false} TokensOfWord(word: string, rest: string, current: string, quoted: bool)
    requires Collected(word, quoted)
    ensures Tokens(word + rest, current, quoted) == Tokens(rest, current + word, quoted)
    decreases |word|
  {
    if word == [] {
      assert word + rest == rest && current + word == current;
    } else {
      assert (word + rest)[1..] == word[1..] + rest;
      TokensOfWord(word[1..], rest, current + [word[0]], quoted);
      assert (current + [word[0]]) + word[1..] == current + word;
    }
  }

  /** Blanks between tokens are passed over. */
  lemma {:induction false} TokensPastBlanks(gap: string, rest: string)
    requires Blanks(gap)
    ensures Tokens(gap + rest, [], false) == Tokens(rest, [], false)
    decreases |gap|
  {
    if gap == [] {
      assert gap + rest == rest;
    } else {
      assert (gap + rest)[1..] == gap[1..] + rest;
      TokensPastBlanks(gap[1..], rest);
      assert [] + Tokens(rest, [], false) == Tokens(rest, [], false);
    }
  }

  /** A token ends at a blank or with the line. */
  lemma TokenEnds(word: string, rest: string)
    requires word != [] && (rest == [] || IsBlankChar(rest[0]))
    ensures Tokens(rest, word, false) == [word] + Tokens(rest, [], false)
  {
    if rest != [] {
      assert [] + Tokens(rest[1..], [], false) == Tokens(rest[1..], [], false);
    }
  }

  /** What stands between quotes is collected as it stands. */
  lemma TokensOfQuoted(name: string, current: string, rest: string)
    requires Collected(name, true)
    ensures Tokens(Quoted(name) + rest, current, false) == Tokens(rest, current + name, false)
  {
    var s := Quoted(name) + rest;
    assert s[1..] == name + ("\"" + rest);
    TokensOfWord(name, "\"" + rest, current, true);
    assert ("\"" + rest)[1..] == rest;
  }

  /** Pieces side by side are collected into one token. */
  lemma {:induction false} TokensOfPieces(pieces: seq<Piece>, current: string, rest: string)
    requires forall i :: 0 <= i < |pieces| ==> pieces[i].Valid()
    ensures Tokens(ShownPieces(pieces) + rest, current, false) == Tokens(rest, current + PieceTexts(pieces), false)
    decreases |pieces|
  {
    if pieces == [] {
      assert ShownPieces(pieces) + rest == rest && current + [] == current;
    } else {
      var p, more := pieces[0], ShownPieces(pieces[1..]) + rest;
      assert ShownPieces(pieces) + rest == p.Shown() + more;
      if p.quoted {
        TokensOfQuoted(p.text, current, more);
      } else {
        TokensOfWord(p.text, more, current, false);
      }
      TokensOfPieces(pieces[1..], current + p.text, rest);
      assert (current + p.text) + PieceTexts(pieces[1..]) == current + PieceTexts(pieces);
    }
  }

  lemma FieldToken(f: Field, rest: string)
    requires f.Valid() && (rest == [] || IsBlankChar(rest[0]))
    ensures Tokens(f.gap + f.Shown() + rest, [], false) == [f.Text()] + Tokens(rest, [], false)
  {
    assert f.gap + f.Shown() + rest == f.gap + (f.Shown() + rest);
    TokensPastBlanks(f.gap, f.Shown() + rest);
    TokensOfPieces(f.pieces, [], rest);
    assert [] + f.Text() == f.Text();
    TokenEnds(f.Text(), rest);
  }

  /** A quote at the end of a line makes no difference. */
  lemma {:induction false} LastQuote(s: string, current: string, quoted: bool)
    ensures Tokens(s + "\"", current, quoted) == Tokens(s, current, quoted)
    decreases |s|
  {
    if s == [] {
      assert s + "\"" == "\"" && "\""[1..] == [];
    } else {
      assert (s + "\"")[1..] == s[1..] + "\"";
      if s[0] == '"' {
        LastQuote(s[1..], current, !quoted);
      } else if IsBlankChar(s[0]) && !quoted {
        LastQuote(s[1..], [], false);
      } else {
        LastQuote(s[1..], current + [s[0]], quoted);
      }
    }
  }

  lemma {:induction false} SpacedRest(fields: seq<Field>)
    requires Spaced(fields) && fields != []
    ensures Spaced(fields[1..])
    ensures fields[1..] != [] ==> RowText(fields[1..]) != [] && IsBlankChar(RowText(fields[1..])[0])
  {
    var rest := fields[1..];
    assert forall i :: 0 <= i < |rest| ==> rest[i] == fields[i + 1];
    if rest != [] {
      assert RowText(rest)[0] == rest[0].gap[0];
    }
  }

  /** The tokens of a row are its fields, whatever blanks stand between them and inside their quotes. */
  lemma {:induction false} RowTokens(fields: seq<Field>)
    requires Spaced(fields)
    ensures Tokens(RowText(fields), [], false) == FieldTexts(fields)
    decreases |fields|
  {
    if fields != [] {
      SpacedRest(fields);
      FieldToken(fields[0], RowText(fields[1..]));
      RowTokens(fields[1..]);
      assert [fields[0].Text()] + FieldTexts(fields[1..]) == FieldTexts(fields);
    }
  }

  /** What is shown of valid pieces starts and ends with characters that stay at the ends of a line. */
  lemma {:induction false} PiecesEnd(pieces: seq<Piece>)
    requires pieces != [] && forall i :: 0 <= i < |pieces| ==> pieces[i].Valid()
    ensures var s := ShownPieces(pieces); s != [] && !IsPadding(s[0]) && !IsPadding(s[|s| - 1])
    decreases |pieces|
  {
    var first := pieces[0].Shown();
    assert ShownPieces(pieces)[0] == first[0];
    if |pieces| == 1 {
      assert ShownPieces(pieces) == first + [] == first;
    } else {
      PiecesEnd(pieces[1..]);
    }
  }

  lemma {:induction false} RowEnds(fields: seq<Field>)
    requires Spaced(fields) && fields != []
    ensures RowText(fields) != [] && !IsPadding(RowText(fields)[|RowText(fields)| - 1])
    decreases |fields|
  {
    var f := fields[0];
    PiecesEnd(f.pieces);
    var head := f.gap + f.Shown();
    assert head[|head| - 1] == f.Shown()[|f.Shown()| - 1];
    if |fields| > 1 {
      SpacedRest(fields);
      RowEnds(fields[1..]);
    } else {
      assert RowText(fields) == head;
    }
  }

  lemma {:induction false} RowStarts(fields: seq<Field>)
    requires Spaced(fields) && fields != [] && fields[0].gap == [] && !IsRemark(RowText(fields))
    ensures RowText(fields) != [] && !IsPadding(RowText(fields)[0]) && RowText(fields)[0] != '#'
  {
    PiecesEnd(fields[0].pieces);
    var s := RowText(fields);
    assert s == fields[0].Shown() + RowText(fields[1..]);
    assert s[0] == fields[0].Shown()[0];
  }

  // ---------------------------------------------------------------- one line

  lemma TrimmedText(t: TextLine)
    requires t.Valid() && Trimmed(IsPadding, t.line.Core())
    ensures Trim(IsPadding, t.Text()) == t.line.Core()
  {
    TrimAround(IsPadding, t.lead, t.line.Core(), t.trail);
  }

  /** A descriptor with what one more line sets. */
  predicate Extends(d: Descriptor, line: Line, after: Descriptor) {
    && after.extents == d.extents + (if line.IsExtent() then [line.Extent()] else [])
    && after.createType == (if line.Sets("createtype") then line.value else d.createType)
    && after.parentCid == (if line.Sets("parentcid") then ParseNumber(line.value, 16, 0x1_0000_0000) else d.parentCid)
    && after.parentFileNameHint == if line.Sets("parentfilenamehint") then Some(line.value) else d.parentFileNameHint
  }

  /** With its last quote or without, a row has the same tokens, and keeps its ends when trimmed. */
  lemma RowCore(line: Line)
    requires line.Row? && line.Valid()
    ensures var core := line.Core();
            && core != [] && Trimmed(IsPadding, core) && core[0] != '#'
            && Tokens(core, [], false) == FieldTexts(line.fields)
            && ('=' !in RowText(line.fields) ==> '=' !in core)
  {
    var all, core := RowText(line.fields), line.Core();
    RowStarts(line.fields);
    RowEnds(line.fields);
    RowTokens(line.fields);
    if line.open {
      assert all == core + "\"";
      LastQuote(core, [], false);
    }
  }

  /** A row with enough fields and an access word is an extent; any other row sets nothing. */
  lemma RowMeans(d: Descriptor, t: TextLine)
    requires t.Valid() && t.line.Row?
    ensures Extends(d, t.line, ParseLine(d, t.Text()))
  {
    RowCore(t.line);
    TrimmedText(t);
    assert d.extents + [] == d.extents;
    if !t.line.IsExtent() {
      SplitNowhere(t.line.Core(), '=');
    }
  }

  lemma BlankMeans(d: Descriptor, t: TextLine)
    requires t.Valid() && (t.line.Comment? || t.line.Blank?)
    ensures Extends(d, t.line, ParseLine(d, t.Text()))
  {
    TrimmedText(t);
    assert d.extents + [] == d.extents;
  }

  lemma {:induction false} FirstTokenExtends(s: string, current: string, quoted: bool)
    requires current != []
    ensures var tokens := Tokens(s, current, quoted);
            tokens != [] && current <= tokens[0]
    decreases |s|
  {
    if s != [] {
      if s[0] == '"' {
        FirstTokenExtends(s[1..], current, !quoted);
      } else if quoted || !IsBlankChar(s[0]) {
        FirstTokenExtends(s[1..], current + [s[0]], quoted);
      }
    }
  }

  /** The first token of a setting is its key, or goes on with the equals sign. */
  lemma SettingToken(key: string, before: string, rest: string)
    requires KeyWord(key) && Blanks(before)
    ensures var tokens := Tokens(key + before + "=" + rest, [], false);
            tokens != [] && Upper(tokens[0]) !in {"RW", "RDONLY", "NOACCESS"}
  {
    var tokens := Tokens(key + before + "=" + rest, [], false);
    if before == [] {
      var lead := key + "=";
      assert key + before + "=" + rest == lead + rest;
      TokensOfWord(lead, rest, [], false);
      assert [] + lead == lead;
      FirstTokenExtends(rest, lead, false);
      assert Upper(tokens[0])[|key|] == '=';
    } else {
      var tail := before + "=" + rest;
      assert key + before + "=" + rest == key + tail;
      TokensOfWord(key, tail, [], false);
      assert [] + key == key;
      TokenEnds(key, tail);
    }
  }

  /** The value without the blanks and quotes around it. */
  lemma SettingValue(line: Line)
    requires line.Setting? && line.Valid() && line.Known()
    ensures Trim(IsQuote, Trim(IsWhitespace, line.after + Wrapped(line.left, line.value, line.right))) == line.value
  {
    var shown := Wrapped(line.left, line.value, line.right);
    assert line.after + shown == line.after + shown + [];
    TrimAround(IsWhitespace, line.after, shown, []);
    TrimAround(IsQuote, Repeated('"', line.left), line.value, Repeated('"', line.right));
  }

  lemma SettingKey(key: string, before: string)
    requires KeyWord(key) && Blanks(before)
    ensures Trim(IsWhitespace, key + before) == key
    ensures '=' !in key + before
  {
    assert key + before == [] + key + before;
    TrimAround(IsWhitespace, [], key, before);
  }

  lemma SettingTrimmed(line: Line)
    requires line.Setting? && line.Valid()
    ensures Trimmed(IsPadding, line.Core()) && line.Core() != [] && line.Core()[0] != '#'
  {
    var shown := line.after + Wrapped(line.left, line.value, line.right);
    var core := line.Core();
    assert core[0] == line.key[0];
    assert shown != [] ==> core[|core| - 1] == shown[|shown| - 1];
  }

  /** A setting sets its key, in any letter case, to its value; a key of another name sets nothing. */
  lemma SettingMeans(d: Descriptor, t: TextLine)
    requires t.Valid() && t.line.Setting?
    ensures Extends(d, t.line, ParseLine(d, t.Text()))
  {
    var line := t.line;
    var shown := line.after + Wrapped(line.left, line.value, line.right);
    var name := line.key + line.before;
    SettingTrimmed(line);
    TrimmedText(t);
    SettingToken(line.key, line.before, shown);
    SettingKey(line.key, line.before);
    assert line.Core() == name + ['='] + shown;
    SplitAtFirst(name, '=', shown);
    if line.Known() {
      SettingValue(line);
    }
    assert d.extents + [] == d.extents;
  }

  lemma LineMeans(d: Descriptor, t: TextLine)
    requires t.Valid()
    ensures Extends(d, t.line, ParseLine(d, t.Text()))
  {
    match t.line
    case Row(_, _) => RowMeans(d, t);
    case Setting(_, _, _, _, _, _) => SettingMeans(d, t);
    case Comment(_) => BlankMeans(d, t);
    case Blank => BlankMeans(d, t);
  }

  // ---------------------------------------------------------------- a whole text

  lemma MeaningSnoc(doc: seq<TextLine>)
    requires doc != []
    ensures Extends(Meaning(doc[..|doc| - 1]), doc[|doc| - 1].line, Meaning(doc))
  {
    var last := |doc| - 1;
    assert ExtentsIn(doc) ==
           ExtentsIn(doc[..last]) + if doc[last].line.IsExtent() then [doc[last].line.Extent()] else [];
  }

  lemma ExtendsOnce(d: Descriptor, line: Line, a: Descriptor, b: Descriptor)
    requires Extends(d, line, a) && Extends(d, line, b)
    ensures a == b
  {
  }

  /** Parsing any text gives what it says: the extents in order, and of each key the last value. */
  lemma {:induction false} TextMeans(doc: seq<TextLine>)
    requires AllValid(doc)
    ensures ParseLines(EMPTY, LineTexts(doc)) == Meaning(doc)
    decreases |doc|
  {
    if doc != [] {
      var last := |doc| - 1;
      TextMeans(doc[..last]);
      assert LineTexts(doc)[..last] == LineTexts(doc[..last]);
      LineMeans(Meaning(doc[..last]), doc[last]);
      MeaningSnoc(doc);
      ExtendsOnce(Meaning(doc[..last]), doc[last].line, ParseLines(EMPTY, LineTexts(doc)), Meaning(doc));
    }
  }

  /** Any text that says what `d` says parses to `d`. */
  lemma DescriptorRoundTrip(d: Descriptor, text: string)
    requires Say(Lines(text), d)
    ensures ParseLines(EMPTY, Lines(text)) == d
  {
    var doc :| AllValid(doc) && LineTexts(doc) == Lines(text) && Meaning(doc) == d;
    TextMeans(doc);
  }

  // ---------------------------------------------------------------- printing

  predicate PlainWord(s: string) {
    s != [] && s[0] != '#' && OneLine(s) && forall i :: 0 <= i < |s| ==> s[i] != '"' && !IsPadding(s[i])
  }

  /** A file name that can be written between quotes. */
  predicate Nameable(name: string) {
    name != [] && OneLine(name) && '"' !in name
  }

  predicate ExtentWellFormed(e: ExtentDescriptor) {
    && e.access in {"RW", "RDONLY", "NOACCESS"} && e.sectors < U64_LIMIT
    && PlainWord(e.kind) && Upper(e.kind) == e.kind
    && (if e.file.Some? then Nameable(e.file.value) && e.offsetSectors < U64_LIMIT else e.offsetSectors == 0)
  }

  /** A value that survives the removal of the quotes around it. */
  predicate Quotable(value: string) {
    OneLine(value) && Trimmed(IsQuote, value)
  }

  predicate WellFormed(d: Descriptor) {
    && Quotable(d.createType)
    && (d.parentCid.Some? ==> d.parentCid.value < U32_LIMIT)
    && (d.parentFileNameHint.Some? ==> Quotable(d.parentFileNameHint.value))
    && forall i :: 0 <= i < |d.extents| ==> ExtentWellFormed(d.extents[i])
  }

  function Plain(gap: string, text: string): Field {
    Field(gap, [Piece(text, false)])
  }

  function Named(name: string): Field {
    Field(" ", [Piece(name, true)])
  }

  /** Access, sectors and kind. */
  function LeadFields(e: ExtentDescriptor): seq<Field> {
    [Plain("", e.access), Plain(" ", Numeral(e.sectors, 10)), Plain(" ", e.kind)]
  }

  /** The line of an extent; when the file is used from its start, the offset may be left out. */
  function ExtentRow(e: ExtentDescriptor, brief: bool): Line {
    match e.file
    case None => Row(LeadFields(e), false)
    case Some(name) =>
      if brief && e.offsetSectors == 0 then Row(LeadFields(e) + [Named(name)], false)
      else Row(LeadFields(e) + [Named(name), Plain(" ", Numeral(e.offsetSectors, 10))], false)
  }

  lemma AmountOfNumeral(n: nat)
    requires n < U64_LIMIT
    ensures Amount(Numeral(n, 10)) == n
  {
    NumeralRoundTrip(n, 10, 0x1_0000_0000_0000_0000);
  }

  /** A field in one piece. */
  lemma OnePiece(gap: string, p: Piece)
    ensures Field(gap, [p]).Text() == p.text && Field(gap, [p]).Shown() == p.Shown()
  {
    var one := [p];
    assert one[1..] == [];
    assert PieceTexts(one) == p.text + PieceTexts(one[1..]) == p.text;
    assert ShownPieces(one) == p.Shown() + ShownPieces(one[1..]) == p.Shown();
  }

  /** A field of one line, in its place. */
  predicate Fine(f: Field, text: string) {
    f.Valid() && f.Text() == text && OneLine(f.gap) && OneLine(f.Shown())
  }

  lemma PlainFine(gap: string, text: string)
    requires Blanks(gap) && PlainWord(text)
    ensures Fine(Plain(gap, text), text) && Plain(gap, text).Shown() == text
  {
    OnePiece(gap, Piece(text, false));
  }

  lemma NamedFine(name: string)
    requires Nameable(name)
    ensures Fine(Named(name), name)
  {
    OnePiece(" ", Piece(name, true));
  }

  lemma AccessWord(access: string)
    requires access in {"RW", "RDONLY", "NOACCESS"}
    ensures PlainWord(access) && Upper(access) == access
  {
  }

  lemma NumeralWord(n: nat)
    ensures PlainWord(Numeral(n, 10))
  {
  }

  /** The texts of the fields of an extent's line. */
  function ExtentFields(e: ExtentDescriptor, brief: bool): seq<string> {
    [e.access, Numeral(e.sectors, 10), e.kind]
    + match e.file
      case None => []
      case Some(name) => if brief && e.offsetSectors == 0 then [name] else [name, Numeral(e.offsetSectors, 10)]
  }

  /** Fields that show these texts, the first without and the others with blanks before them. */
  predicate AllFine(fields: seq<Field>, texts: seq<string>) {
    && |fields| == |texts|
    && forall i :: 0 <= i < |fields| ==> Fine(fields[i], texts[i]) && (fields[i].gap == [] <==> i == 0)
  }

  lemma ExtentRowFine(e: ExtentDescriptor, brief: bool)
    requires ExtentWellFormed(e)
    ensures var line := ExtentRow(e, brief);
            line.Row? && !line.open && AllFine(line.fields, ExtentFields(e, brief)) && line.fields[0].Shown() == e.access
  {
    AccessWord(e.access);
    NumeralWord(e.sectors);
    NumeralWord(e.offsetSectors);
    PlainFine("", e.access);
    PlainFine(" ", Numeral(e.sectors, 10));
    PlainFine(" ", e.kind);
    PlainFine(" ", Numeral(e.offsetSectors, 10));
    if e.file.Some? {
      NamedFine(e.file.value);
    }
  }

  lemma {:induction false} FineOneLine(fields: seq<Field>)
    requires forall i :: 0 <= i < |fields| ==> OneLine(fields[i].gap) && OneLine(fields[i].Shown())
    ensures OneLine(RowText(fields))
    decreases |fields|
  {
    if fields != [] {
      FineOneLine(fields[1..]);
    }
  }

  lemma FineRow(fields: seq<Field>, texts: seq<string>)
    requires AllFine(fields, texts) && |texts| >= 3
    ensures Spaced(fields) && OneLine(RowText(fields))
    ensures forall i :: 0 <= i < |fields| ==> fields[i].Text() == texts[i]
  {
    assert forall i :: 0 <= i < |fields| ==> Fine(fields[i], texts[i]);
    FineOneLine(fields);
  }

  lemma {:induction false} StartsPlainly(fields: seq<Field>, word: string)
    requires fields != [] && fields[0].gap == [] && fields[0].Shown() == word && word != [] && word[0] != '#'
    ensures !IsRemark(RowText(fields))
  {
    assert RowText(fields)[0] == word[0];
  }

  /** Either line of a well-formed extent declares exactly that extent. */
  lemma ExtentRoundTrip(e: ExtentDescriptor, brief: bool)
    requires ExtentWellFormed(e)
    ensures var line := ExtentRow(e, brief);
            line.Valid() && OneLine(line.Core()) && line.IsExtent() && line.Extent() == e
  {
    var line := ExtentRow(e, brief);
    ExtentRowFine(e, brief);
    FineRow(line.fields, ExtentFields(e, brief));
    AccessWord(e.access);
    StartsPlainly(line.fields, e.access);
    AmountOfNumeral(e.sectors);
    AmountOfNumeral(e.offsetSectors);
  }

  /** A line with nothing around it. */
  function Bare(line: Line): TextLine {
    TextLine("", line, "")
  }

  function Assign(key: string, value: string, quoted: bool): TextLine {
    Bare(Setting(key, "", "", One(quoted), value, One(quoted)))
  }

  function CidLines(d: Descriptor): seq<TextLine> {
    if d.parentCid.Some? then [Assign("parentCID", Numeral(d.parentCid.value, 16), false)] else []
  }

  function HintLines(d: Descriptor): seq<TextLine> {
    if d.parentFileNameHint.Some? then [Assign("parentFileNameHint", d.parentFileNameHint.value, true)] else []
  }

  function ExtentRows(es: seq<ExtentDescriptor>, brief: nat -> bool): (r: seq<TextLine>)
    ensures |r| == |es|
    ensures forall i :: 0 <= i < |r| ==> r[i] == Bare(ExtentRow(es[i], brief(i)))
  {
    seq(|es|, i requires 0 <= i < |es| => Bare(ExtentRow(es[i], brief(i))))
  }

  /** What the usual text of a descriptor begins with, whatever the descriptor. */
  function Preamble(): seq<TextLine> {
    [Bare(Comment(" Disk DescriptorFile")), Assign("version", "1", false), Assign("CID", "fffffffe", false)]
  }

  /** The usual text of a descriptor; `brief` chooses the extents that are written without a zero offset. */
  function Standard(d: Descriptor, brief: nat -> bool): seq<TextLine> {
    Preamble() + CidLines(d) + HintLines(d) + [Assign("createType", d.createType, true)] + ExtentRows(d.extents, brief)
  }

  function Print(d: Descriptor, brief: nat -> bool): string {
    Join(LineTexts(Standard(d, brief)))
  }

  /** Lines that can be joined to a text. */
  predicate Printable(doc: seq<TextLine>) {
    AllValid(doc) && forall i :: 0 <= i < |doc| ==> OneLine(doc[i].Text())
  }

  lemma BareText(line: Line)
    ensures Bare(line).Text() == line.Core()
  {
    assert "" + line.Core() + "" == line.Core();
  }

  /** Joined and split again, lines are themselves with a blank one behind. */
  lemma JoinedLines(doc: seq<TextLine>)
    requires Printable(doc)
    ensures AllValid(doc + [Bare(Blank)]) && Lines(Join(LineTexts(doc))) == LineTexts(doc + [Bare(Blank)])
  {
    LinesOfJoin(LineTexts(doc));
    BareText(Blank);
  }

  /** One more line. */
  lemma MeaningThen(doc: seq<TextLine>, t: TextLine)
    ensures Extends(Meaning(doc), t.line, Meaning(doc + [t]))
  {
    MeaningSnoc(doc + [t]);
    assert (doc + [t])[..|doc|] == doc;
  }

  lemma ThenExtent(doc: seq<TextLine>, line: Line)
    requires line.IsExtent()
    ensures Meaning(doc + [Bare(line)]) == WithExtents(Meaning(doc), [line.Extent()])
  {
    MeaningThen(doc, Bare(line));
  }

  lemma ThenNothing(doc: seq<TextLine>, line: Line)
    requires !line.IsExtent() && !line.Known()
    ensures Meaning(doc + [Bare(line)]) == Meaning(doc)
  {
    MeaningThen(doc, Bare(line));
    assert Meaning(doc).extents + [] == Meaning(doc).extents;
  }

  lemma ThenSetting(doc: seq<TextLine>, key: string, value: string, quoted: bool)
    ensures var d, all := Meaning(doc), Meaning(doc + [Assign(key, value, quoted)]);
            && (Lower(key) == "createtype" ==> all == d.(createType := value))
            && (Lower(key) == "parentcid" ==> all == d.(parentCid := ParseNumber(value, 16, 0x1_0000_0000)))
            && (Lower(key) == "parentfilenamehint" ==> all == d.(parentFileNameHint := Some(value)))
  {
    MeaningThen(doc, Assign(key, value, quoted));
    assert Meaning(doc).extents + [] == Meaning(doc).extents;
    NamesDiffer();
  }

  lemma NamesDiffer()
    ensures "createtype" != "parentcid" && "createtype" != "parentfilenamehint" && "parentcid" != "parentfilenamehint"
  {
    assert |"createtype"| == 10 && |"parentcid"| == 9 && |"parentfilenamehint"| == 18;
  }

  lemma RowsSnoc(doc: seq<TextLine>, es: seq<ExtentDescriptor>, brief: nat -> bool)
    requires es != []
    ensures var last := |es| - 1;
            doc + ExtentRows(es, brief) ==
            (doc + ExtentRows(es[..last], brief)) + [Bare(ExtentRow(es[last], brief(last)))]
  {
  }

  /** The descriptor with these extents behind its own. */
  function WithExtents(d: Descriptor, es: seq<ExtentDescriptor>): Descriptor {
    d.(extents := d.extents + es)
  }

  lemma WithOneMore(d: Descriptor, es: seq<ExtentDescriptor>)
    requires es != []
    ensures WithExtents(WithExtents(d, es[..|es| - 1]), [es[|es| - 1]]) == WithExtents(d, es)
  {
    assert (d.extents + es[..|es| - 1]) + [es[|es| - 1]] == d.extents + es;
  }

  lemma {:induction false} ThenExtents(doc: seq<TextLine>, es: seq<ExtentDescriptor>, brief: nat -> bool)
    requires forall i :: 0 <= i < |es| ==> ExtentWellFormed(es[i])
    ensures Meaning(doc + ExtentRows(es, brief)) == WithExtents(Meaning(doc), es)
    decreases |es|
  {
    if es == [] {
      assert doc + ExtentRows(es, brief) == doc && Meaning(doc).extents + es == Meaning(doc).extents;
    } else {
      var last := |es| - 1;
      RowsSnoc(doc, es, brief);
      ThenExtents(doc, es[..last], brief);
      ExtentRoundTrip(es[last], brief(last));
      ThenExtent(doc + ExtentRows(es[..last], brief), ExtentRow(es[last], brief(last)));
      WithOneMore(Meaning(doc), es);
    }
  }

  lemma CommentPrintable(words: string)
    requires words != [] && OneLine(words) && !IsPadding(words[|words| - 1])
    ensures Printable([Bare(Comment(words))])
  {
    BareText(Comment(words));
  }

  lemma TitlePrintable()
    ensures Printable([Bare(Comment(" Disk DescriptorFile"))])
  {
    CommentPrintable(" Disk DescriptorFile");
  }

  lemma BothPrintable(a: seq<TextLine>, b: seq<TextLine>)
    requires Printable(a) && Printable(b)
    ensures Printable(a + b)
  {
  }

  lemma AssignPrintable(key: string, value: string, quoted: bool)
    requires KeyWord(key) && OneLine(value) && Trimmed(IsQuote, value)
    requires quoted || (value != [] && Trimmed(IsWhitespace, value) && !IsPadding(value[|value| - 1]))
    ensures Printable([Assign(key, value, quoted)])
  {
    BareText(Assign(key, value, quoted).line);
  }

  lemma VersionKey()
    ensures KeyWord("version") && Lower("version") == "version"
  {
  }

  lemma CidKey()
    ensures KeyWord("CID") && Lower("CID") == "cid"
  {
  }

  lemma TypeKey()
    ensures KeyWord("createType") && Lower("createType") == "createtype"
  {
  }

  lemma ParentKey()
    ensures KeyWord("parentCID") && Lower("parentCID") == "parentcid"
  {
  }

  lemma HintKey()
    ensures KeyWord("parentFileNameHint") && Lower("parentFileNameHint") == "parentfilenamehint"
  {
  }

  /** The usual text starts with a comment and two settings that say nothing about the disk. */
  lemma PreambleSaysNothing()
    ensures Printable(Preamble()) && Meaning(Preamble()) == EMPTY
  {
    var first, second, third := Bare(Comment(" Disk DescriptorFile")), Assign("version", "1", false), Assign("CID", "fffffffe", false);
    VersionKey();
    CidKey();
    TitlePrintable();
    AssignPrintable("version", "1", false);
    AssignPrintable("CID", "fffffffe", false);
    BothPrintable([first], [second]);
    BothPrintable([first] + [second], [third]);
    ThenNothing([], first.line);
    ThenNothing([] + [first], second.line);
    ThenNothing([] + [first] + [second], third.line);
    assert Preamble() == [first] + [second] + [third] == [] + [first] + [second] + [third];
  }

  /** The line for the parent's CID, when there is one. */
  lemma CidSays(doc: seq<TextLine>, d: Descriptor)
    requires WellFormed(d) && Meaning(doc).parentCid == None
    ensures Printable(CidLines(d)) && Meaning(doc + CidLines(d)) == Meaning(doc).(parentCid := d.parentCid)
  {
    if d.parentCid.Some? {
      var text := Numeral(d.parentCid.value, 16);
      ParentKey();
      AssignPrintable("parentCID", text, false);
      ThenSetting(doc, "parentCID", text, false);
      NumeralRoundTrip(d.parentCid.value, 16, U32_LIMIT);
    } else {
      assert doc + CidLines(d) == doc;
    }
  }

  lemma HintSays(doc: seq<TextLine>, d: Descriptor)
    requires WellFormed(d) && Meaning(doc).parentFileNameHint == None
    ensures Printable(HintLines(d))
    ensures Meaning(doc + HintLines(d)) == Meaning(doc).(parentFileNameHint := d.parentFileNameHint)
  {
    if d.parentFileNameHint.Some? {
      HintKey();
      AssignPrintable("parentFileNameHint", d.parentFileNameHint.value, true);
      ThenSetting(doc, "parentFileNameHint", d.parentFileNameHint.value, true);
    } else {
      assert doc + HintLines(d) == doc;
    }
  }

  lemma ExtentsPrintable(es: seq<ExtentDescriptor>, brief: nat -> bool)
    requires forall i :: 0 <= i < |es| ==> ExtentWellFormed(es[i])
    ensures Printable(ExtentRows(es, brief))
  {
    forall i | 0 <= i < |es|
      ensures ExtentRows(es, brief)[i].Valid() && OneLine(ExtentRows(es, brief)[i].Text())
    {
      ExtentRoundTrip(es[i], brief(i));
      BareText(ExtentRow(es[i], brief(i)));
    }
  }

  lemma StandardSays(d: Descriptor, brief: nat -> bool)
    requires WellFormed(d)
    ensures Printable(Standard(d, brief)) && Meaning(Standard(d, brief)) == d
  {
    var a := Preamble();
    PreambleSaysNothing();
    var b := a + CidLines(d);
    CidSays(a, d);
    BothPrintable(a, CidLines(d));
    var c := b + HintLines(d);
    HintSays(b, d);
    BothPrintable(b, HintLines(d));
    var e := c + [Assign("createType", d.createType, true)];
    TypeKey();
    AssignPrintable("createType", d.createType, true);
    ThenSetting(c, "createType", d.createType, true);
    BothPrintable(c, [Assign("createType", d.createType, true)]);
    ThenExtents(e, d.extents, brief);
    ExtentsPrintable(d.extents, brief);
    BothPrintable(e, ExtentRows(d.extents, brief));
    assert [] + d.extents == d.extents;
  }

  /** A printed descriptor says what the descriptor says. */
  lemma PrintSays(d: Descriptor, brief: nat -> bool)
    requires WellFormed(d)
    ensures Say(Lines(Print(d, brief)), d)
  {
    var doc := Standard(d, brief);
    StandardSays(d, brief);
    JoinedLines(doc);
    ThenNothing(doc, Blank);
  }

  /** Parsing what was printed gives the descriptor back, extents in order. */
  lemma PrintRoundTrip(d: Descriptor, brief: nat -> bool)
    requires WellFormed(d)
    ensures ParseLines(EMPTY, Lines(Print(d, brief))) == d
  {
    PrintSays(d, brief);
    DescriptorRoundTrip(d, Print(d, brief));
  }
}
