/** The preflight check of a VMDK and of the parent disks it depends on. */
module ParentChain {
  import opened Bytes
  import opened SparseExtents
  import opened Texts
  import opened Descriptors
  import opened DescriptorParsing

  const MAX_PARENTS := 32
  const SIGNATURE := "# Disk DescriptorFile"

  type Path = string

  /** The files as the check finds them: what can be opened and read, what merely exists, and how
      paths and bytes are turned into file identities and text. */
  datatype FileSystem = FileSystem(
    readable: map<Path, seq<Byte>>,
    present: set<Path>,
    identity: Path -> Path,
    resolve: (Path, string) -> Path,
    lossy: seq<Byte> -> string,
    strict: seq<Byte> -> Option<string>)

  datatype ChainError = TooDeep | Cycle | Unreadable | Malformed | MissingComponent

  // ---------------------------------------------------------------- one file

  predicate StartsWith(s: string, prefix: string) {
    prefix <= s
  }

  predicate IsSparseHeader(header: seq<Byte>) {
    |header| >= 4 && header[..4] == MAGIC
  }

  predicate IsTextDescriptor(fs: FileSystem, header: seq<Byte>) {
    StartsWith(TrimStart(IsWhitespace, fs.lossy(header[..Min(|header|, 64)])), SIGNATURE)
  }

  function Parse(text: string): Descriptor {
    ParseLines(EMPTY, Lines(text))
  }

  /** The descriptor a file carries: embedded behind a sparse header, or as its whole text. */
  function DescriptorIn(fs: FileSystem, contents: seq<Byte>): Result<Option<Descriptor>, ChainError> {
    var header := contents[..Min(|contents|, SECTOR)];
    if IsSparseHeader(header) then
      match ReadSparseHeader(header)
      case Err(_) => Err(Malformed)
      case Ok(h) =>
        if !h.Describes() then Ok(None)
        else Ok(Some(Parse(fs.lossy(Padded(contents, h.descriptorOffset * SECTOR, h.descriptorSectors * SECTOR)))))
    else if IsTextDescriptor(fs, header) then
      match fs.strict(contents)
      case None => Err(Malformed)
      case Some(text) => Ok(Some(Parse(text)))
    else Ok(None)
  }

  /** Where the file says its descriptor lies can be computed in 64 bits. */
  predicate HeaderFits(contents: seq<Byte>) {
    var header := contents[..Min(|contents|, SECTOR)];
    IsSparseHeader(header) && ReadSparseHeader(header).Ok? ==> ReadSparseHeader(header).value.DescriptorFits()
  }

  function DescriptorOf(fs: FileSystem, path: Path): Result<Option<Descriptor>, ChainError> {
    if path in fs.readable then DescriptorIn(fs, fs.readable[path]) else Err(Unreadable)
  }

  /** The name of the parent disk, unless it is missing or blank. */
  function ParentName(d: Descriptor): Option<string> {
    if d.parentFileNameHint.Some? && !Blank(d.parentFileNameHint.value) then d.parentFileNameHint else None
  }

  function Parent(fs: FileSystem, path: Path): Option<Path> {
    match DescriptorOf(fs, path)
    case Ok(Some(d)) => if ParentName(d).Some? then Some(fs.resolve(path, ParentName(d).value)) else None
    case _ => None
  }

  predicate ExtentPresent(fs: FileSystem, path: Path, e: ExtentDescriptor) {
    e.kind != "ZERO" && e.file.Some? ==> fs.resolve(path, e.file.value) in fs.present
  }

  /** Every file the descriptor declares exists. */
  predicate ComponentsPresent(fs: FileSystem, path: Path, d: Descriptor) {
    && (ParentName(d).Some? ==> fs.resolve(path, ParentName(d).value) in fs.present)
    && forall i :: 0 <= i < |d.extents| ==> ExtentPresent(fs, path, d.extents[i])
  }

  /** The file opens, its descriptor if any can be read, and what the descriptor declares exists. */
  predicate Sound(fs: FileSystem, path: Path) {
    match DescriptorOf(fs, path)
    case Err(_) => false
    case Ok(None) => true
    case Ok(Some(d)) => ComponentsPresent(fs, path, d)
  }

  /** Why a file does not pass by itself. */
  function Failure(fs: FileSystem, path: Path): ChainError {
    match DescriptorOf(fs, path)
    case Err(error) => error
    case Ok(_) => MissingComponent
  }

  predicate FileFits(fs: FileSystem, path: Path) {
    path in fs.readable ==> HeaderFits(fs.readable[path])
  }

  // ---------------------------------------------------------------- the chain

  /** What the check needs to know of each file. */
  datatype View = View(identity: Path -> Path, sound: Path -> bool, parent: Path -> Option<Path>, fits: Path -> bool)

  /** The numbers fit in each of the files that a walk of at most `links` files opens. */
  predicate AllFit(view: View, path: Path, links: nat)
    decreases links
  {
    links > 0 ==>
      && view.fits(path)
      && (view.sound(path) && view.parent(path).Some? ==> AllFit(view, view.parent(path).value, links - 1))
  }

  /** From the first path on, each file names the next as its parent and the last names none. */
  predicate Linked(view: View, chain: seq<Path>) {
    && chain != []
    && view.parent(chain[0]) == (if |chain| == 1 then None else Some(chain[1]))
    && (|chain| > 1 ==> Linked(view, chain[1..]))
  }

  /** No file is met twice, and none was met before. */
  predicate Distinct(view: View, visited: set<Path>, chain: seq<Path>)
    decreases |chain|
  {
    chain != [] ==>
      view.identity(chain[0]) !in visited && Distinct(view, visited + {view.identity(chain[0])}, chain[1..])
  }

  predicate AllSound(view: View, chain: seq<Path>) {
    chain != [] ==> view.sound(chain[0]) && AllSound(view, chain[1..])
  }

  /** The chain from `path` ends, and passes, within `links` files. */
  ghost predicate Passes(view: View, path: Path, visited: set<Path>, links: nat) {
    exists chain ::
      && Linked(view, chain) && chain[0] == path && |chain| <= links
      && Distinct(view, visited, chain) && AllSound(view, chain)
  }

  lemma PassesOnward(view: View, path: Path, visited: set<Path>, links: nat)
    requires links > 0 && Passes(view, path, visited, links)
    ensures view.identity(path) !in visited && view.sound(path)
    ensures view.parent(path).Some? ==>
              Passes(view, view.parent(path).value, visited + {view.identity(path)}, links - 1)
  {
    var chain :| Linked(view, chain) && chain[0] == path && |chain| <= links
                 && Distinct(view, visited, chain) && AllSound(view, chain);
    if view.parent(path).Some? {
      var rest := chain[1..];
      assert Linked(view, rest) && Distinct(view, visited + {view.identity(path)}, rest) && AllSound(view, rest);
    }
  }

  lemma PassesBackward(view: View, path: Path, visited: set<Path>, links: nat)
    requires links > 0 && view.identity(path) !in visited && view.sound(path)
    requires view.parent(path).Some? ==>
               Passes(view, view.parent(path).value, visited + {view.identity(path)}, links - 1)
    ensures Passes(view, path, visited, links)
  {
    var seen := visited + {view.identity(path)};
    var rest: seq<Path> := [];
    if view.parent(path).Some? {
      rest :| Linked(view, rest) && rest[0] == view.parent(path).value && |rest| <= links - 1
              && Distinct(view, seen, rest) && AllSound(view, rest);
    }
    var chain := [path] + rest;
    assert chain[1..] == rest;
    assert Linked(view, chain) && Distinct(view, visited, chain) && AllSound(view, chain);
  }

  /** Sound files, each the parent of the one before, up to one that was met before. */
  predicate LoopsAlong(view: View, visited: set<Path>, chain: seq<Path>)
    decreases |chain|
  {
    && chain != []
    && if view.identity(chain[0]) in visited then |chain| == 1
       else
         && view.sound(chain[0]) && |chain| > 1 && view.parent(chain[0]) == Some(chain[1])
         && LoopsAlong(view, visited + {view.identity(chain[0])}, chain[1..])
  }

  /** The chain from `path` comes back to a file met before, within `links` files. */
  ghost predicate Loops(view: View, path: Path, visited: set<Path>, links: nat) {
    exists chain :: LoopsAlong(view, visited, chain) && chain[0] == path && |chain| <= links
  }

  lemma LoopsOnward(view: View, path: Path, visited: set<Path>, links: nat)
    requires links > 0
    ensures Loops(view, path, visited, links) <==>
              || view.identity(path) in visited
              || (&& view.sound(path) && view.parent(path).Some?
                  && Loops(view, view.parent(path).value, visited + {view.identity(path)}, links - 1))
  {
    var seen := visited + {view.identity(path)};
    if view.identity(path) in visited {
      assert LoopsAlong(view, visited, [path]);
    } else {
      if Loops(view, path, visited, links) {
        var chain :| LoopsAlong(view, visited, chain) && chain[0] == path && |chain| <= links;
        assert LoopsAlong(view, seen, chain[1..]);
      }
      if view.sound(path) && view.parent(path).Some? && Loops(view, view.parent(path).value, seen, links - 1) {
        var rest :| LoopsAlong(view, seen, rest) && rest[0] == view.parent(path).value && |rest| <= links - 1;
        var chain := [path] + rest;
        assert chain[1..] == rest;
        assert LoopsAlong(view, visited, chain);
      }
    }
  }

  /** Each file names the next as its parent, and the last one names a parent too. */
  predicate LinkedOnward(view: View, chain: seq<Path>) {
    chain != [] ==>
      && (if |chain| == 1 then view.parent(chain[0]).Some? else view.parent(chain[0]) == Some(chain[1]))
      && LinkedOnward(view, chain[1..])
  }

  /** From `path` on there are `links` sound, distinct files, each the parent of the one before, and yet another parent. */
  ghost predicate Exceeds(view: View, path: Path, visited: set<Path>, links: nat) {
    exists chain ::
      && LinkedOnward(view, chain) && |chain| == links && (chain != [] ==> chain[0] == path)
      && Distinct(view, visited, chain) && AllSound(view, chain)
  }

  lemma ExceedsNothing(view: View, path: Path, visited: set<Path>)
    ensures Exceeds(view, path, visited, 0)
  {
    var chain: seq<Path> := [];
    assert LinkedOnward(view, chain) && Distinct(view, visited, chain) && AllSound(view, chain);
  }

  lemma ExceedsOnward(view: View, path: Path, visited: set<Path>, links: nat)
    requires links > 0 && Exceeds(view, path, visited, links)
    ensures view.identity(path) !in visited && view.sound(path) && view.parent(path).Some?
    ensures Exceeds(view, view.parent(path).value, visited + {view.identity(path)}, links - 1)
  {
    var chain :| LinkedOnward(view, chain) && |chain| == links && chain[0] == path
                 && Distinct(view, visited, chain) && AllSound(view, chain);
    var rest := chain[1..];
    assert LinkedOnward(view, rest) && Distinct(view, visited + {view.identity(path)}, rest) && AllSound(view, rest);
  }

  lemma ExceedsBackward(view: View, path: Path, visited: set<Path>, links: nat)
    requires links > 0 && view.identity(path) !in visited && view.sound(path) && view.parent(path).Some?
    requires Exceeds(view, view.parent(path).value, visited + {view.identity(path)}, links - 1)
    ensures Exceeds(view, path, visited, links)
  {
    var rest :| LinkedOnward(view, rest) && |rest| == links - 1 && (rest != [] ==> rest[0] == view.parent(path).value)
                && Distinct(view, visited + {view.identity(path)}, rest) && AllSound(view, rest);
    var chain := [path] + rest;
    assert chain[1..] == rest;
    assert LinkedOnward(view, chain) && Distinct(view, visited, chain) && AllSound(view, chain);
  }

  lemma ExceedsStep(view: View, path: Path, visited: set<Path>, links: nat)
    requires links > 0
    ensures Exceeds(view, path, visited, links) <==>
              && view.identity(path) !in visited && view.sound(path) && view.parent(path).Some?
              && Exceeds(view, view.parent(path).value, visited + {view.identity(path)}, links - 1)
  {
    if Exceeds(view, path, visited, links) {
      ExceedsOnward(view, path, visited, links);
    } else if view.identity(path) !in visited && view.sound(path) && view.parent(path).Some? {
      if Exceeds(view, view.parent(path).value, visited + {view.identity(path)}, links - 1) {
        ExceedsBackward(view, path, visited, links);
      }
    }
  }

  /** What the first file of a chain decides. */
  lemma Step(view: View, path: Path, visited: set<Path>, links: nat)
    requires links > 0
    ensures Passes(view, path, visited, links) <==>
              && view.identity(path) !in visited && view.sound(path)
              && (view.parent(path).Some? ==>
                    Passes(view, view.parent(path).value, visited + {view.identity(path)}, links - 1))
    ensures Loops(view, path, visited, links) <==>
              || view.identity(path) in visited
              || (&& view.sound(path) && view.parent(path).Some?
                  && Loops(view, view.parent(path).value, visited + {view.identity(path)}, links - 1))
  {
    if Passes(view, path, visited, links) {
      PassesOnward(view, path, visited, links);
    } else if view.identity(path) !in visited && view.sound(path) {
      if view.parent(path).Some? ==> Passes(view, view.parent(path).value, visited + {view.identity(path)}, links - 1) {
        PassesBackward(view, path, visited, links);
      }
    }
    LoopsOnward(view, path, visited, links);
  }

  // ---------------------------------------------------------------- the check

  method CheckComponents(fs: FileSystem, path: Path, d: Descriptor) returns (r: Result<(), ChainError>)
    ensures r.Ok? <==> ComponentsPresent(fs, path, d)
    ensures r.Err? ==> r.error == MissingComponent
  {
    var parent := ParentName(d);
    if parent.Some? && fs.resolve(path, parent.value) !in fs.present {
      return Err(MissingComponent);
    }
    for i := 0 to |d.extents|
      invariant forall k :: 0 <= k < i ==> ExtentPresent(fs, path, d.extents[k])
    {
      var e := d.extents[i];
      if e.kind == "ZERO" || e.file.None? {
        continue;
      }
      if fs.resolve(path, e.file.value) !in fs.present {
        return Err(MissingComponent);
      }
    }
    return Ok(());
  }

  ghost function ViewOf(fs: FileSystem): View {
    View(fs.identity, (p: Path) => Sound(fs, p), (p: Path) => Parent(fs, p), (p: Path) => FileFits(fs, p))
  }

  /** The view says of every file what the file system says of it. */
  ghost predicate Describes(view: View, fs: FileSystem) {
    && view.identity == fs.identity
    && (forall p: Path {:trigger Sound(fs, p)} :: view.sound(p) == Sound(fs, p))
    && (forall p: Path {:trigger Parent(fs, p)} :: view.parent(p) == Parent(fs, p))
    && (forall p: Path {:trigger FileFits(fs, p)} :: view.fits(p) == FileFits(fs, p))
  }

  lemma ViewDescribes(fs: FileSystem)
    ensures Describes(ViewOf(fs), fs)
  {
  }

  class Validator {
    const fs: FileSystem
    ghost const view: View
    var visited: set<Path>
    /** The files opened so far, in order. */
    var openedFiles: seq<Path>

    constructor (fs: FileSystem)
      ensures this.fs == fs && visited == {} && openedFiles == []
      ensures Valid() && view == ViewOf(fs)
    {
      this.fs := fs;
      view := ViewOf(fs);
      visited := {};
      openedFiles := [];
      new;
      ViewDescribes(fs);
    }

    ghost predicate Valid() {
      Describes(view, fs)
    }

    /** Opens and checks one file; returns its parent if it names one. */
    method CheckFile(path: Path) returns (r: Result<Option<Path>, ChainError>)
      requires Valid() && view.fits(path)
      modifies this`openedFiles
      ensures openedFiles == old(openedFiles) + [path]
      ensures r.Ok? <==> view.sound(path)
      ensures r.Ok? ==> r.value == view.parent(path)
      ensures r.Err? ==> r.error == Failure(fs, path) && r.error != Cycle && r.error != TooDeep
    {
      assert view.sound(path) == Sound(fs, path) && view.parent(path) == Parent(fs, path);
      openedFiles := openedFiles + [path];
      var descriptor := DescriptorOf(fs, path);
      if descriptor.Err? {
        return Err(descriptor.error);
      }
      if descriptor.value.None? {
        return Ok(None);
      }
      var d := descriptor.value.value;
      var present := CheckComponents(fs, path, d);
      if present.Err? {
        return Err(present.error);
      }
      var name := ParentName(d);
      return Ok(if name.Some? then Some(fs.resolve(path, name.value)) else None);
    }

    /** The file opened last does not pass by itself, for this reason. */
    predicate FailedLast(error: ChainError)
      reads this
    {
      openedFiles != [] && var last := openedFiles[|openedFiles| - 1]; !Sound(fs, last) && error == Failure(fs, last)
    }

    /** Checks the file at `path`, then the parents behind it. */
    method Inner(path: Path, depth: nat) returns (r: Result<(), ChainError>)
      requires Valid() && depth <= MAX_PARENTS + 1 && AllFit(view, path, MAX_PARENTS + 1 - depth)
      modifies this
      ensures r.Ok? <==> Passes(view, path, old(visited), MAX_PARENTS + 1 - depth)
      ensures r == Err(Cycle) <==> Loops(view, path, old(visited), MAX_PARENTS + 1 - depth)
      ensures r == Err(TooDeep) <==> Exceeds(view, path, old(visited), MAX_PARENTS + 1 - depth)
      ensures r.Err? && r.error != Cycle && r.error != TooDeep ==> FailedLast(r.error)
      ensures old(visited) <= visited
      ensures old(openedFiles) <= openedFiles && |openedFiles| <= old(|openedFiles|) + (MAX_PARENTS + 1 - depth)
      ensures r == Err(TooDeep) ==> |openedFiles| == old(|openedFiles|) + (MAX_PARENTS + 1 - depth)
      decreases MAX_PARENTS + 1 - depth
    {
      if depth > MAX_PARENTS {
        ExceedsNothing(view, path, visited);
        return Err(TooDeep);
      }
      Step(view, path, visited, MAX_PARENTS + 1 - depth);
      ExceedsStep(view, path, visited, MAX_PARENTS + 1 - depth);
      var identity := fs.identity(path);
      if identity in visited {
        return Err(Cycle);
      }
      visited := visited + {identity};
      var parent := CheckFile(path);
      if parent.Err? {
        return Err(parent.error);
      }
      if parent.value.Some? {
        r := Inner(parent.value.value, depth + 1);
        return;
      }
      return Ok(());
    }
  }

  /** The whole check: the file and at most 32 parents behind it. */
  method ValidateComponents(fs: FileSystem, path: Path) returns (r: Result<(), ChainError>, files: seq<Path>)
    requires AllFit(ViewOf(fs), path, 33)
    ensures r.Ok? <==> Passes(ViewOf(fs), path, {}, 33)
    ensures r == Err(Cycle) <==> Loops(ViewOf(fs), path, {}, 33)
    ensures r == Err(TooDeep) <==> Exceeds(ViewOf(fs), path, {}, 33)
    ensures |files| <= 33 && (r == Err(TooDeep) ==> |files| == 33)
    ensures r.Err? && r.error != Cycle && r.error != TooDeep ==>
              files != [] && var last := files[|files| - 1]; !Sound(fs, last) && r.error == Failure(fs, last)
  {
    var validator := new Validator(fs);
    r := validator.Inner(path, 0);
    files := validator.openedFiles;
  }

  // ---------------------------------------------------------------- what the predicates mean

  lemma {:induction false} DistinctIsPairwise(view: View, visited: set<Path>, chain: seq<Path>)
    ensures Distinct(view, visited, chain) <==>
              && (forall i :: 0 <= i < |chain| ==> view.identity(chain[i]) !in visited)
              && (forall i, j :: 0 <= i < j < |chain| ==> view.identity(chain[i]) != view.identity(chain[j]))
    decreases |chain|
  {
    if chain != [] {
      var tail := chain[1..];
      DistinctIsPairwise(view, visited + {view.identity(chain[0])}, tail);
      assert forall i :: 0 <= i < |tail| ==> tail[i] == chain[i + 1];
      assert forall i :: 1 <= i < |chain| ==> chain[i] == tail[i - 1];
    }
  }

  lemma {:induction false} LinkedByIndex(view: View, chain: seq<Path>)
    requires chain != []
    ensures Linked(view, chain) <==>
              && (forall i :: 0 <= i < |chain| - 1 ==> view.parent(chain[i]) == Some(chain[i + 1]))
              && view.parent(chain[|chain| - 1]) == None
    decreases |chain|
  {
    if |chain| > 1 {
      var tail := chain[1..];
      LinkedByIndex(view, tail);
      assert forall i :: 0 <= i < |tail| ==> tail[i] == chain[i + 1];
      if Linked(view, chain) {
        forall i | 0 <= i < |chain| - 1
          ensures view.parent(chain[i]) == Some(chain[i + 1])
        {
          if i > 0 {
            assert view.parent(tail[i - 1]) == Some(tail[i]);
          }
        }
      } else {
        assert view.parent(chain[0]) == Some(chain[1]) ==> !Linked(view, tail);
      }
    }
  }

  predicate NamesOnward(view: View, chain: seq<Path>, i: nat)
    requires i < |chain|
  {
    if i + 1 < |chain| then view.parent(chain[i]) == Some(chain[i + 1]) else view.parent(chain[i]).Some?
  }

  lemma {:induction false} LinkedOnwardByIndex(view: View, chain: seq<Path>)
    ensures LinkedOnward(view, chain) <==> forall i :: 0 <= i < |chain| ==> NamesOnward(view, chain, i)
    decreases |chain|
  {
    if chain != [] {
      var tail := chain[1..];
      LinkedOnwardByIndex(view, tail);
      assert forall i :: 0 <= i < |tail| ==> NamesOnward(view, tail, i) == NamesOnward(view, chain, i + 1);
      assert LinkedOnward(view, chain) <==> NamesOnward(view, chain, 0) && LinkedOnward(view, tail);
      forall i | 1 <= i < |chain| ensures NamesOnward(view, chain, i) == NamesOnward(view, tail, i - 1) {
      }
    }
  }
}
