/** Which file names stand for primary disk images. */
module ImageNames {
  import opened Bytes
  import opened Texts

  const SUPPORTED: seq<string> := ["vmdk", "qcow2", "vdi", "vhd", "vhdx", "raw", "img"]

  predicate EndsWith(s: string, suffix: string) {
    |suffix| <= |s| && s[|s| - |suffix|..] == suffix
  }

  predicate OccursAt(s: string, sep: string, i: nat) {
    i + |sep| <= |s| && s[i..i + |sep|] == sep
  }

  /** The last position of `sep` in `s`. */
  function LastIndexOf(s: string, sep: string): (r: Option<nat>)
    ensures r.Some? ==> OccursAt(s, sep, r.value)
    ensures forall i: nat :: OccursAt(s, sep, i) ==> r.Some? && i <= r.value
  {
    LastIndexUpTo(s, sep, |s|)
  }

  function LastIndexUpTo(s: string, sep: string, k: nat): (r: Option<nat>)
    ensures r.Some? ==> OccursAt(s, sep, r.value)
    ensures forall i: nat :: i <= k && OccursAt(s, sep, i) ==> r.Some? && i <= r.value
  {
    if OccursAt(s, sep, k) then Some(k)
    else if k == 0 then None
    else LastIndexUpTo(s, sep, k - 1)
  }

  /** The stem and the extension; a name whose only dot is its first character has no extension. */
  function SplitName(name: string): (string, Option<string>) {
    match LastIndexOf(name, ".")
    case None => (name, None)
    case Some(i) => if i == 0 then (name, None) else (name[..i], Some(name[i + 1..]))
  }

  predicate IsDigit(c: char) {
    '0' <= c <= '9'
  }

  /** A digit follows the last `sep`. */
  predicate Numbered(stem: string, sep: string) {
    var i := LastIndexOf(stem, sep);
    i.Some? && i.value + |sep| < |stem| && IsDigit(stem[i.value + |sep|])
  }

  predicate PlainlySecondary(stem: string) {
    || EndsWith(stem, "-flat") || EndsWith(stem, "_flat")
    || EndsWith(stem, "-delta") || EndsWith(stem, "_delta")
    || EndsWith(stem, "-sesparse") || EndsWith(stem, "_sesparse")
  }

  predicate SecondaryVmdk(stem: string) {
    PlainlySecondary(stem) || Numbered(stem, "-s") || Numbered(stem, "_s")
  }

  predicate SecondaryVhd(stem: string) {
    || EndsWith(stem, "-sys") || EndsWith(stem, "_sys")
    || EndsWith(stem, "-delta") || EndsWith(stem, "_delta")
  }

  predicate IsSecondaryExtent(name: string) {
    var stem := Lower(SplitName(name).0);
    var lower := Lower(name);
    if EndsWith(lower, ".vmdk") then SecondaryVmdk(stem)
    else if EndsWith(lower, ".vhd") || EndsWith(lower, ".vhdx") then SecondaryVhd(stem)
    else false
  }

  predicate IsImageCandidate(name: string) {
    var ext := SplitName(name).1;
    ext.Some? && Lower(ext.value) in SUPPORTED && !IsSecondaryExtent(name)
  }

  // ---------------------------------------------------------------- what the predicates mean

  lemma SplitNameOf(stem: string, ext: string)
    requires stem != [] && '.' !in ext
    ensures SplitName(stem + "." + ext) == (stem, Some(ext))
  {
    var name := stem + "." + ext;
    var at := |stem|;
    assert OccursAt(name, ".", at);
    var i := LastIndexOf(name, ".").value;
    assert name[i] == name[i..i + 1][0] == '.';
    assert forall j :: at < j < |name| ==> name[j] == ext[j - at - 1] != '.';
    assert i == at;
    assert name[..at] == stem && name[at + 1..] == ext;
  }

  lemma LowerOfThree(a: string, b: string, c: string)
    ensures Lower(a + b + c) == Lower(a) + Lower(b) + Lower(c)
  {
  }

  /** What follows the last `c` is determined. */
  lemma AfterLast(a: string, b: string, a': string, b': string, c: char)
    requires a + [c] + b == a' + [c] + b'
    requires c !in b && c !in b'
    ensures b == b'
  {
    var s := a + [c] + b;
    assert s[|a|] == c == s[|a'|];
    assert forall j :: |a| < j < |s| ==> s[j] == b[j - |a| - 1] && s[j] in b;
    assert forall j :: |a'| < j < |s| ==> s[j] == b'[j - |a'| - 1] && s[j] in b';
    assert |a| == |a'|;
    assert b == s[|a| + 1..] == b';
  }

  lemma EndsWithExtension(stem: string, ext: string, suffix: string)
    requires '.' !in ext && '.' !in suffix
    ensures EndsWith(Lower(stem + "." + ext), "." + suffix) <==> Lower(ext) == suffix
  {
    var lower := Lower(stem + "." + ext);
    LowerOfThree(stem, ".", ext);
    assert Lower(".") == ".";
    if EndsWith(lower, "." + suffix) {
      var front := lower[..|lower| - |suffix| - 1];
      assert lower == front + "." + suffix;
      AfterLast(Lower(stem), Lower(ext), front, suffix, '.');
    }
    if Lower(ext) == suffix {
      assert lower[|stem|..] == "." + suffix;
    }
  }

  /** The candidates among the names of the form `stem.ext`, whatever letter case they are written in. */
  lemma CandidateOf(stem: string, ext: string)
    requires stem != [] && '.' !in ext
    ensures IsImageCandidate(stem + "." + ext) <==>
              && Lower(ext) in SUPPORTED
              && !(Lower(ext) == "vmdk" && SecondaryVmdk(Lower(stem)))
              && !((Lower(ext) == "vhd" || Lower(ext) == "vhdx") && SecondaryVhd(Lower(stem)))
  {
    SplitNameOf(stem, ext);
    EndsWithExtension(stem, ext, "vmdk");
    EndsWithExtension(stem, ext, "vhd");
    EndsWithExtension(stem, ext, "vhdx");
    assert "." + "vmdk" == ".vmdk" && "." + "vhd" == ".vhd" && "." + "vhdx" == ".vhdx";
  }

  lemma OccursHead(s: string, sep: string, i: nat)
    requires |sep| == 2 && OccursAt(s, sep, i)
    ensures s[i] == sep[0] && s[i + 1] == sep[1]
  {
    assert s[i] == s[i..i + 2][0] && s[i + 1] == s[i..i + 2][1];
  }

  lemma OccursPast(front: string, tail: string, sep: string, j: nat)
    ensures OccursAt(front + tail, sep, |front| + j) <==> OccursAt(tail, sep, j)
  {
    if |front| + j + |sep| <= |front + tail| {
      assert (front + tail)[|front| + j..|front| + j + |sep|] == tail[j..j + |sep|];
    }
  }

  lemma OccursWithin(front: string, tail: string, sep: string, j: nat)
    requires j + |sep| <= |front|
    ensures OccursAt(front + tail, sep, j) <==> OccursAt(front, sep, j)
  {
    assert (front + tail)[j..j + |sep|] == front[j..j + |sep|];
  }

  /** Occurrences inside the tail are the last ones. */
  lemma LastInTail(front: string, tail: string, sep: string)
    requires LastIndexOf(tail, sep).Some?
    ensures LastIndexOf(front + tail, sep) == Some(|front| + LastIndexOf(tail, sep).value)
  {
    var j := LastIndexOf(tail, sep).value;
    OccursPast(front, tail, sep, j);
    var i := LastIndexOf(front + tail, sep).value;
    OccursPast(front, tail, sep, i - |front|);
  }

  /** With none in the tail, none starts there. */
  lemma NoneInTail(front: string, tail: string, sep: string, i: nat)
    requires LastIndexOf(tail, sep).None? && OccursAt(front + tail, sep, i)
    ensures i < |front|
  {
    if i >= |front| {
      OccursPast(front, tail, sep, i - |front|);
    }
  }

  lemma NumberedInTail(front: string, tail: string, sep: string)
    requires LastIndexOf(tail, sep).Some?
    ensures Numbered(front + tail, sep) <==> Numbered(tail, sep)
  {
    LastInTail(front, tail, sep);
  }

  /** Whether a stem counts as numbered is decided after its last separator: in the tail if the tail has one. */
  lemma NumberedExactly(base: string, sep: string, tail: string)
    requires |sep| == 2 && sep[0] != sep[1]
    ensures Numbered(base + sep + tail, sep) <==>
              if LastIndexOf(tail, sep).Some? then Numbered(tail, sep) else tail != [] && IsDigit(tail[0])
  {
    var front := base + sep;
    var stem := front + tail;
    if LastIndexOf(tail, sep).Some? {
      NumberedInTail(front, tail, sep);
    } else {
      assert OccursAt(stem, sep, |base|);
      var i := LastIndexOf(stem, sep).value;
      NoneInTail(front, tail, sep, i);
      OccursHead(stem, sep, i);
      assert stem[|base| + 1] == sep[1];
    }
  }

  /** The same for a separator other than the one that was put between base and tail. */
  lemma NumberedAcross(base: string, mark: string, tail: string, other: string)
    requires |mark| == |other| == 2 && other[0] !in mark && mark[0] != other[1] && !IsDigit(mark[0])
    ensures Numbered(base + mark + tail, other) <==>
              if LastIndexOf(tail, other).Some? then Numbered(tail, other) else Numbered(base, other)
  {
    var front := base + mark;
    if LastIndexOf(tail, other).Some? {
      NumberedInTail(front, tail, other);
    } else {
      LastInBase(base, mark, tail, other);
    }
  }

  lemma LastInBase(base: string, mark: string, tail: string, other: string)
    requires |mark| == |other| == 2 && other[0] !in mark && mark[0] != other[1]
    requires LastIndexOf(tail, other).None?
    ensures LastIndexOf(base + mark + tail, other) == LastIndexOf(base, other)
  {
    var stem := base + mark + tail;
    assert stem == base + (mark + tail);
    var i, j := LastIndexOf(stem, other), LastIndexOf(base, other);
    if j.Some? {
      OccursWithin(base, mark + tail, other, j.value);
    }
    if i.Some? {
      NoneInTail(base + mark, tail, other, i.value);
      OccursHead(stem, other, i.value);
      assert stem[|base|] == mark[0] && stem[|base| + 1] == mark[1];
      OccursWithin(base, mark + tail, other, i.value);
    }
  }

  /** The other of the two separators. */
  function OtherMark(mark: string): string {
    if mark == "-s" then "_s" else "-s"
  }

  /**
   * Exactly when a numbered `.vmdk` piece is taken for a primary image: its tail has the
   * separator again and no digit after the last one, the other separator does not number the
   * name either, and the name has none of the plain endings.
   */
  lemma PieceIsCandidateExactly(base: string, mark: string, tail: string, ext: string)
    requires base != [] && tail != [] && IsDigit(tail[0]) && (Lower(mark) == "-s" || Lower(mark) == "_s")
    requires '.' !in ext && Lower(ext) == "vmdk"
    ensures var b, m, t := Lower(base), Lower(mark), Lower(tail);
            var other := OtherMark(m);
            IsImageCandidate(base + mark + tail + "." + ext) <==>
              && LastIndexOf(t, m).Some? && !Numbered(t, m)
              && !(if LastIndexOf(t, other).Some? then Numbered(t, other) else Numbered(b, other))
              && !PlainlySecondary(b + m + t)
  {
    var b, m, t := Lower(base), Lower(mark), Lower(tail);
    CandidateOf(base + mark + tail, ext);
    LowerOfThree(base, mark, tail);
    assert SUPPORTED[0] == "vmdk";
    NumberedExactly(b, m, t);
    NumberedAcross(b, m, t, OtherMark(m));
  }

  /** Numbered pieces whose tail does not repeat the separator are never candidates, suffixed or not. */
  lemma NumberedPieces(base: string, mark: string, tail: string, ext: string)
    requires base != [] && tail != [] && IsDigit(tail[0]) && (Lower(mark) == "-s" || Lower(mark) == "_s")
    requires '.' !in ext && Lower(ext) == "vmdk"
    requires LastIndexOf(Lower(tail), Lower(mark)).None?
    ensures !IsImageCandidate(base + mark + tail + "." + ext)
  {
    PieceIsCandidateExactly(base, mark, tail, ext);
  }

  lemma NoOccurrence(s: string, sep: string)
    requires |sep| == 2 && sep[0] !in s
    ensures LastIndexOf(s, sep).None?
  {
    var i := LastIndexOf(s, sep);
    if i.Some? {
      OccursHead(s, sep, i.value);
    }
  }

  /** A piece whose descriptive suffix repeats the separator passes for a primary image. */
  lemma SuffixedPieceSlips()
    ensures IsImageCandidate("disk-s001-snap" + "." + "vmdk")
  {
    var stem := "disk-s001-snap";
    CandidateOf(stem, "vmdk");
    LowerKept(stem);
    LowerKept("vmdk");
    assert SUPPORTED[0] == "vmdk";
    NotSecondary(stem);
  }

  lemma LowerKept(s: string)
    requires forall i :: 0 <= i < |s| ==> !('A' <= s[i] <= 'Z')
    ensures Lower(s) == s
  {
  }

  lemma NotSecondary(stem: string)
    requires stem == "disk-s001-snap"
    ensures !SecondaryVmdk(stem)
  {
    assert stem == "disk-s001" + "-s" + "nap";
    NumberedExactly("disk-s001", "-s", "nap");
    NoOccurrence("nap", "-s");
    NoOccurrence(stem, "_s");
    LastChar(stem, "-flat");
    LastChar(stem, "_flat");
    LastChar(stem, "-delta");
    LastChar(stem, "_delta");
    LastChar(stem, "-sesparse");
    LastChar(stem, "_sesparse");
  }

  lemma LastChar(s: string, suffix: string)
    requires s != [] && suffix != [] && s[|s| - 1] != suffix[|suffix| - 1]
    ensures !EndsWith(s, suffix)
  {
    if |suffix| <= |s| {
      assert s[|s| - |suffix|..][|suffix| - 1] == s[|s| - 1];
    }
  }

  // ---------------------------------------------------------------- names without the predicates

  /** `s` is something and then `suffix`. */
  ghost predicate EndsIn(s: string, suffix: string) {
    exists front: string :: s == front + suffix
  }

  /** A digit follows the last `sep`. */
  ghost predicate PieceOf(stem: string, sep: string) {
    exists front: string, digit: char, rest: string ::
      && stem == front + sep + ([digit] + rest) && '0' <= digit <= '9'
      && forall later: string, tail: string :: stem == later + sep + tail ==> |later| <= |front|
  }

  lemma EndsInExactly(s: string, suffix: string)
    ensures EndsWith(s, suffix) <==> EndsIn(s, suffix)
  {
    if EndsWith(s, suffix) {
      assert s == s[..|s| - |suffix|] + suffix;
    }
  }

  lemma SplitAt(s: string, sep: string, i: nat)
    requires OccursAt(s, sep, i)
    ensures s == s[..i] + sep + s[i + |sep|..]
  {
  }

  lemma FoundAt(front: string, sep: string, tail: string)
    ensures OccursAt(front + sep + tail, sep, |front|)
  {
  }

  lemma PieceFound(stem: string, sep: string, i: nat)
    requires LastIndexOf(stem, sep) == Some(i) && i + |sep| < |stem| && IsDigit(stem[i + |sep|])
    ensures PieceOf(stem, sep)
  {
    var digit, rest := stem[i + |sep|], stem[i + |sep| + 1..];
    SplitAt(stem, sep, i);
    assert stem[i + |sep|..] == [digit] + rest;
    forall later: string, tail: string | stem == later + sep + tail ensures |later| <= |stem[..i]| {
      FoundAt(later, sep, tail);
    }
    assert stem == stem[..i] + sep + ([digit] + rest);
  }

  lemma PieceIsNumbered(stem: string, sep: string, front: string, digit: char, rest: string)
    requires stem == front + sep + ([digit] + rest) && IsDigit(digit)
    requires forall later: string, tail: string :: stem == later + sep + tail ==> |later| <= |front|
    ensures Numbered(stem, sep)
  {
    FoundAt(front, sep, [digit] + rest);
    var i := LastIndexOf(stem, sep).value;
    SplitAt(stem, sep, i);
    assert i == |front| && stem[i + |sep|] == digit;
  }

  lemma PieceExactly(stem: string, sep: string)
    ensures Numbered(stem, sep) <==> PieceOf(stem, sep)
  {
    if Numbered(stem, sep) {
      PieceFound(stem, sep, LastIndexOf(stem, sep).value);
    }
    if PieceOf(stem, sep) {
      var front: string, digit: char, rest: string :|
        && stem == front + sep + ([digit] + rest) && '0' <= digit <= '9'
        && forall later: string, tail: string :: stem == later + sep + tail ==> |later| <= |front|;
      PieceIsNumbered(stem, sep, front, digit, rest);
    }
  }

  /** The endings of VMDK files that belong to another one. */
  ghost predicate PartOfVmdk(stem: string) {
    || EndsIn(stem, "-flat") || EndsIn(stem, "_flat") || EndsIn(stem, "-delta") || EndsIn(stem, "_delta")
    || EndsIn(stem, "-sesparse") || EndsIn(stem, "_sesparse")
    || PieceOf(stem, "-s") || PieceOf(stem, "_s")
  }

  ghost predicate PartOfVhd(stem: string) {
    EndsIn(stem, "-sys") || EndsIn(stem, "_sys") || EndsIn(stem, "-delta") || EndsIn(stem, "_delta")
  }

  lemma PartOfVmdkExactly(stem: string)
    ensures SecondaryVmdk(stem) <==> PartOfVmdk(stem)
  {
    EndsInExactly(stem, "-flat");
    EndsInExactly(stem, "_flat");
    EndsInExactly(stem, "-delta");
    EndsInExactly(stem, "_delta");
    EndsInExactly(stem, "-sesparse");
    EndsInExactly(stem, "_sesparse");
    PieceExactly(stem, "-s");
    PieceExactly(stem, "_s");
  }

  lemma PartOfVhdExactly(stem: string)
    ensures SecondaryVhd(stem) <==> PartOfVhd(stem)
  {
    EndsInExactly(stem, "-sys");
    EndsInExactly(stem, "_sys");
    EndsInExactly(stem, "-delta");
    EndsInExactly(stem, "_delta");
  }

  /** The candidates among all names with an extension, in any letter case. */
  lemma PrimaryExactly(stem: string, ext: string)
    requires stem != [] && '.' !in ext
    ensures IsImageCandidate(stem + "." + ext) <==>
              || Lower(ext) in {"qcow2", "vdi", "raw", "img"}
              || (Lower(ext) == "vmdk" && !PartOfVmdk(Lower(stem)))
              || (Lower(ext) in {"vhd", "vhdx"} && !PartOfVhd(Lower(stem)))
  {
    CandidateOf(stem, ext);
    PartOfVmdkExactly(Lower(stem));
    PartOfVhdExactly(Lower(stem));
    SupportedExactly(Lower(ext));
  }

  lemma SupportedExactly(ext: string)
    ensures ext in SUPPORTED <==> ext in {"vmdk", "qcow2", "vdi", "vhd", "vhdx", "raw", "img"}
  {
    assert ext == "vmdk" ==> SUPPORTED[0] == ext;
    assert ext == "qcow2" ==> SUPPORTED[1] == ext;
    assert ext == "vdi" ==> SUPPORTED[2] == ext;
    assert ext == "vhd" ==> SUPPORTED[3] == ext;
    assert ext == "vhdx" ==> SUPPORTED[4] == ext;
    assert ext == "raw" ==> SUPPORTED[5] == ext;
    assert ext == "img" ==> SUPPORTED[6] == ext;
  }

  lemma DotAt(s: string, i: nat)
    requires OccursAt(s, ".", i)
    ensures s[i] == '.'
  {
    assert s[i] == s[i..i + 1][0];
  }

  lemma NoDot(s: string, from: nat)
    requires forall k :: from <= k < |s| ==> s[k] != '.'
    ensures var i := LastIndexOf(s, "."); i.Some? ==> i.value < from
  {
    forall i: nat | OccursAt(s, ".", i) ensures i < from {
      DotAt(s, i);
    }
  }

  /** A name without an extension is none: no dot, or only one, in front. */
  lemma BareNameIsNone(name: string)
    requires '.' !in name
    ensures !IsImageCandidate(name) && !IsImageCandidate("." + name)
  {
    NoDot(name, 0);
    NoDot("." + name, 1);
  }
}
