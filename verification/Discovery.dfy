/** Breadth-first search for disk images below a chosen directory. */
module Discovery {
  import opened Bytes
  import opened Sorting
  import opened Paths
  import opened ImageNames

  // ---------------------------------------------------------------- the tree that is searched

  /** A directory: whether it can be opened, and its entries in the order they are listed. */
  datatype Dir = Dir(readable: bool, entries: seq<Entry>)

  datatype Entry = BadEntry | Entry(name: string, kind: Kind)

  /** A file's size is None when its metadata cannot be read. */
  datatype Kind = UnknownType | SubDir(dir: Dir) | RegularFile(size: Option<nat>) | Special

  datatype Options = Options(recursive: bool, excluded: seq<Path>, maxDepth: Option<nat>) {
    /** The exclusions that apply to a directory at `path`: the same path, or the same final name. */
    predicate Excludes(path: Path)
      requires path != []
    {
      exists i :: 0 <= i < |excluded| &&
        (excluded[i] == path || (excluded[i] != [] && excluded[i][|excluded[i]| - 1] == path[|path| - 1]))
    }

    /** The exclusions of a final name. */
    predicate ExcludesName(name: string) {
      exists i :: 0 <= i < |excluded| && excluded[i] != [] && excluded[i][|excluded[i]| - 1] == name
    }

    /** What the exclusions say: the path itself, or its final name on its own. */
    predicate Lists(path: Path)
      requires path != []
    {
      exists i :: 0 <= i < |excluded| && (excluded[i] == path || excluded[i] == [path[|path| - 1]])
    }

    predicate BelowLimit(depth: nat) {
      maxDepth.Some? ==> depth < maxDepth.value
    }

    /** Whether the search goes down into a directory called `name` at this depth. */
    predicate Enters(name: string, depth: nat) {
      recursive && !ExcludesName(name) && BelowLimit(depth)
    }
  }

  /** An excluded path is always also excluded by its final name. */
  lemma ExclusionIsByName(options: Options, path: Path)
    requires path != []
    ensures options.Excludes(path) <==> options.ExcludesName(path[|path| - 1])
  {
    if options.Excludes(path) {
      var i :| 0 <= i < |options.excluded| &&
        (options.excluded[i] == path
         || (options.excluded[i] != [] && options.excluded[i][|options.excluded[i]| - 1] == path[|path| - 1]));
      assert options.excluded[i] != [] && options.excluded[i][|options.excluded[i]| - 1] == path[|path| - 1];
    }
  }

  /** A directory that is not listed is excluded when the path of another one that is ends alike. */
  lemma UnlistedIsExcluded()
    ensures var options := Options(true, [["data", "cache"]], None);
            !options.Lists(["work", "cache"]) && options.Excludes(["work", "cache"])
  {
    var options := Options(true, [["data", "cache"]], None);
    assert options.excluded[0][1] == "cache" == ["work", "cache"][1];
    assert options.excluded[0][0][0] != ["work", "cache"][0][0];
  }

  /** For every longer path that is excluded, its final name is also excluded on its own. */
  predicate NamesListed(options: Options) {
    forall i :: 0 <= i < |options.excluded| && |options.excluded[i]| > 1 ==>
      [options.excluded[i][|options.excluded[i]| - 1]] in options.excluded
  }

  function Longest(paths: seq<Path>): (n: nat)
    ensures forall p :: p in paths ==> |p| <= n
  {
    if paths == [] then 0 else Max(|paths[0]|, Longest(paths[1..]))
  }

  /** Some directory with this final name is not listed, unless the name itself is. */
  lemma UnlistedElsewhere(options: Options, name: string) returns (path: Path)
    requires [name] !in options.excluded
    ensures path != [] && path[|path| - 1] == name && !options.Lists(path)
  {
    path := seq(Longest(options.excluded) + 1, _ => name);
    assert path !in options.excluded;
  }

  /** A search that excludes by final name excludes what is listed and nothing else, exactly when every
      longer excluded path has its final name listed alone. */
  lemma ExcludesAsListedExactly(options: Options)
    ensures (forall path: Path :: path != [] ==> (options.Excludes(path) <==> options.Lists(path))) <==>
              NamesListed(options)
  {
    if NamesListed(options) {
      forall path: Path | path != [] ensures options.Excludes(path) <==> options.Lists(path) {
        ListedWhenExcluded(options, path);
      }
    } else {
      var i :| 0 <= i < |options.excluded| && |options.excluded[i]| > 1
               && [options.excluded[i][|options.excluded[i]| - 1]] !in options.excluded;
      var path := UnlistedElsewhere(options, options.excluded[i][|options.excluded[i]| - 1]);
      assert options.Excludes(path);
    }
  }

  lemma ListedWhenExcluded(options: Options, path: Path)
    requires NamesListed(options) && path != []
    ensures options.Excludes(path) <==> options.Lists(path)
  {
    var name := path[|path| - 1];
    if options.Excludes(path) {
      var i :| 0 <= i < |options.excluded| && (options.excluded[i] == path ||
        (options.excluded[i] != [] && options.excluded[i][|options.excluded[i]| - 1] == name));
      if |options.excluded[i]| > 1 {
        assert [name] in options.excluded;
      } else {
        assert options.excluded[i] == [name];
      }
    }
    if options.Lists(path) {
      var i :| 0 <= i < |options.excluded| && (options.excluded[i] == path || options.excluded[i] == [name]);
      assert options.excluded[i] != [] && options.excluded[i][|options.excluded[i]| - 1] == name;
    }
  }

  // ---------------------------------------------------------------- what a search meets

  datatype Event =
    | Image(path: Path)
    | Inaccessible(path: Path)
    | UnreadableEntry(directory: Path)
    | SkippedEntry(path: Path)

  function DirEvents(dir: Dir, path: Path, depth: nat, options: Options): seq<Event>
    decreases dir
  {
    if !dir.readable then [Inaccessible(path)] else EntriesEvents(dir.entries, path, depth, options)
  }

  function EntriesEvents(entries: seq<Entry>, path: Path, depth: nat, options: Options): seq<Event>
    decreases entries
  {
    if entries == [] then []
    else EntryEvents(entries[0], path, depth, options) + EntriesEvents(entries[1..], path, depth, options)
  }

  function EntryEvents(e: Entry, path: Path, depth: nat, options: Options): seq<Event>
    decreases e
  {
    match e
    case BadEntry => [UnreadableEntry(path)]
    case Entry(name, UnknownType) => [SkippedEntry(path + [name])]
    case Entry(name, SubDir(dir)) =>
      if options.Enters(name, depth) then DirEvents(dir, path + [name], depth + 1, options) else []
    case Entry(name, RegularFile(size)) =>
      if !IsImageCandidate(name) then []
      else if size.None? then [SkippedEntry(path + [name])]
      else if size.value > 0 then [Image(path + [name])]
      else []
    case Entry(_, Special) => []
  }

  // ---------------------------------------------------------------- the search

  datatype Root = Missing | NotADirectory | Directory(dir: Dir)

  datatype DiscoveryError = NotFound | WrongKind | RootUnreadable

  datatype Report = Report(images: seq<Path>, warnings: seq<Event>, inaccessible: seq<Path>)

  /** A directory that is waiting to be visited. */
  datatype Item = Item(path: Path, dir: Dir, depth: nat)

  function ImagesOf(log: seq<Event>): seq<Path> {
    if log == [] then []
    else
      var last := |log| - 1;
      ImagesOf(log[..last]) + if log[last].Image? then [log[last].path] else []
  }

  function InaccessibleOf(log: seq<Event>): seq<Path> {
    if log == [] then []
    else
      var last := |log| - 1;
      InaccessibleOf(log[..last]) + if log[last].Inaccessible? then [log[last].path] else []
  }

  function WarningsOf(log: seq<Event>): seq<Event> {
    if log == [] then []
    else
      var last := |log| - 1;
      WarningsOf(log[..last]) + if log[last].Image? then [] else [log[last]]
  }

  /** The report holds what has been met so far, in order. */
  ghost predicate Holds(report: Report, log: seq<Event>) {
    report == Report(ImagesOf(log), WarningsOf(log), InaccessibleOf(log))
  }

  lemma LogSnoc(log: seq<Event>, e: Event)
    ensures ImagesOf(log + [e]) == ImagesOf(log) + if e.Image? then [e.path] else []
    ensures InaccessibleOf(log + [e]) == InaccessibleOf(log) + if e.Inaccessible? then [e.path] else []
    ensures WarningsOf(log + [e]) == WarningsOf(log) + if e.Image? then [] else [e]
  {
    assert (log + [e])[..|log|] == log;
  }

  method Record(report: Report, e: Event, ghost log: seq<Event>) returns (extended: Report)
    requires Holds(report, log)
    ensures Holds(extended, log + [e])
  {
    LogSnoc(log, e);
    match e
    case Image(path) =>
      return report.(images := report.images + [path]);
    case Inaccessible(path) =>
      return report.(warnings := report.warnings + [e], inaccessible := report.inaccessible + [path]);
    case UnreadableEntry(_) =>
      return report.(warnings := report.warnings + [e]);
    case SkippedEntry(_) =>
      return report.(warnings := report.warnings + [e]);
  }

  function QueueEvents(queue: seq<Item>, options: Options): seq<Event> {
    if queue == [] then []
    else DirEvents(queue[0].dir, queue[0].path, queue[0].depth, options) + QueueEvents(queue[1..], options)
  }

  lemma {:induction false} QueueSnoc(queue: seq<Item>, item: Item, options: Options)
    ensures multiset(QueueEvents(queue + [item], options)) ==
            multiset(QueueEvents(queue, options)) + multiset(DirEvents(item.dir, item.path, item.depth, options))
    decreases |queue|
  {
    var longer := queue + [item];
    if queue == [] {
      assert longer[1..] == [];
      assert QueueEvents(longer, options) == DirEvents(item.dir, item.path, item.depth, options) + [];
    } else {
      assert longer[1..] == queue[1..] + [item];
      QueueSnoc(queue[1..], item, options);
    }
  }

  function DirSize(dir: Dir): (n: nat)
    ensures n > 0
    decreases dir
  {
    1 + EntriesSize(dir.entries)
  }

  function EntriesSize(entries: seq<Entry>): nat
    decreases entries
  {
    if entries == [] then 0 else EntrySize(entries[0]) + EntriesSize(entries[1..])
  }

  function EntrySize(e: Entry): nat
    decreases e
  {
    if e.Entry? && e.kind.SubDir? then DirSize(e.kind.dir) else 0
  }

  function QueueSize(queue: seq<Item>): nat {
    if queue == [] then 0 else DirSize(queue[0].dir) + QueueSize(queue[1..])
  }

  lemma {:induction false} QueueSizeSnoc(queue: seq<Item>, item: Item)
    ensures QueueSize(queue + [item]) == QueueSize(queue) + DirSize(item.dir)
    decreases |queue|
  {
    if queue == [] {
      assert (queue + [item])[1..] == [];
    } else {
      assert (queue + [item])[1..] == queue[1..] + [item];
      QueueSizeSnoc(queue[1..], item);
    }
  }

  /** Everything still to be met, and everything met already. */
  ghost function Ledger(log: seq<Event>, queue: seq<Item>, options: Options): multiset<Event> {
    multiset(log) + multiset(QueueEvents(queue, options))
  }

  lemma LedgerMet(log: seq<Event>, queue: seq<Item>, options: Options, e: Event)
    ensures Ledger(log + [e], queue, options) == Ledger(log, queue, options) + multiset([e])
  {
  }

  lemma LedgerQueued(log: seq<Event>, queue: seq<Item>, options: Options, item: Item)
    ensures Ledger(log, queue + [item], options) ==
            Ledger(log, queue, options) + multiset(DirEvents(item.dir, item.path, item.depth, options))
  {
    QueueSnoc(queue, item, options);
  }

  /** Only the root stands at depth zero, and paths grow with depth. */
  predicate ItemPlaced(item: Item, directory: Path, root: Dir) {
    && |item.path| == |directory| + item.depth
    && (item.depth == 0 ==> item.dir == root)
  }

  predicate Placed(queue: seq<Item>, directory: Path, root: Dir) {
    forall i :: 0 <= i < |queue| ==> ItemPlaced(queue[i], directory, root)
  }

  lemma PlacedSnoc(queue: seq<Item>, item: Item, directory: Path, root: Dir)
    requires Placed(queue, directory, root) && ItemPlaced(item, directory, root)
    ensures Placed(queue + [item], directory, root)
  {
  }

  lemma SubDirEvents(name: string, dir: Dir, path: Path, depth: nat, options: Options)
    ensures EntryEvents(Entry(name, SubDir(dir)), path, depth, options) ==
            if options.Enters(name, depth) then DirEvents(dir, path + [name], depth + 1, options) else []
  {
  }

  /** Queues a subdirectory unless the options keep the search out of it. */
  method Enqueue(name: string, dir: Dir, item: Item, options: Options, queue: seq<Item>,
                 ghost log: seq<Event>, ghost directory: Path, ghost root: Dir)
    returns (queue': seq<Item>)
    requires Placed(queue, directory, root) && ItemPlaced(item, directory, root)
    ensures Ledger(log, queue', options) ==
            Ledger(log, queue, options) + multiset(EntryEvents(Entry(name, SubDir(dir)), item.path, item.depth, options))
    ensures QueueSize(queue') <= QueueSize(queue) + DirSize(dir)
    ensures Placed(queue', directory, root)
  {
    var path := item.path + [name];
    SubDirEvents(name, dir, item.path, item.depth, options);
    EntersExactly(options, path, item.depth);
    if !options.recursive || options.Excludes(path) || !options.BelowLimit(item.depth) {
      return queue;
    }
    var next := Item(path, dir, item.depth + 1);
    LedgerQueued(log, queue, options, next);
    QueueSizeSnoc(queue, next);
    PlacedSnoc(queue, next, directory, root);
    return queue + [next];
  }

  lemma EntersExactly(options: Options, path: Path, depth: nat)
    requires path != []
    ensures options.Enters(path[|path| - 1], depth) <==>
              options.recursive && !options.Excludes(path) && options.BelowLimit(depth)
  {
    ExclusionIsByName(options, path);
  }

  /** What an entry other than a subdirectory adds to the report. */
  function Mention(e: Entry, path: Path): Option<Event> {
    match e
    case BadEntry => Some(UnreadableEntry(path))
    case Entry(name, UnknownType) => Some(SkippedEntry(path + [name]))
    case Entry(name, RegularFile(size)) =>
      if !IsImageCandidate(name) then None
      else if size.None? then Some(SkippedEntry(path + [name]))
      else if size.value > 0 then Some(Image(path + [name]))
      else None
    case _ => None
  }

  lemma MentionIsEvent(e: Entry, path: Path, depth: nat, options: Options)
    requires !(e.Entry? && e.kind.SubDir?)
    ensures EntryEvents(e, path, depth, options) ==
            match Mention(e, path) { case None => [] case Some(event) => [event] }
  {
  }

  /** Deals with one entry of a directory: a subdirectory is queued, anything else is reported or passed over. */
  method ScanEntry(e: Entry, item: Item, options: Options, queue: seq<Item>, report: Report,
                   ghost log: seq<Event>, ghost directory: Path, ghost root: Dir)
    returns (queue': seq<Item>, report': Report, ghost log': seq<Event>)
    requires Holds(report, log) && Placed(queue, directory, root) && ItemPlaced(item, directory, root)
    ensures Holds(report', log') && Placed(queue', directory, root)
    ensures Ledger(log', queue', options) ==
            Ledger(log, queue, options) + multiset(EntryEvents(e, item.path, item.depth, options))
    ensures QueueSize(queue') <= QueueSize(queue) + EntrySize(e)
  {
    queue', report', log' := queue, report, log;
    if e.Entry? && e.kind.SubDir? {
      queue' := Enqueue(e.name, e.kind.dir, item, options, queue, log, directory, root);
      return;
    }
    var mention := Mention(e, item.path);
    MentionIsEvent(e, item.path, item.depth, options);
    if mention.Some? {
      LedgerMet(log, queue, options, mention.value);
      report' := Record(report, mention.value, log);
      log' := log + [mention.value];
    }
  }

  method ScanDirectory(item: Item, options: Options, queue: seq<Item>, report: Report,
                       ghost log: seq<Event>, ghost directory: Path, ghost root: Dir)
    returns (queue': seq<Item>, report': Report, ghost log': seq<Event>)
    requires Holds(report, log) && Placed(queue, directory, root) && ItemPlaced(item, directory, root)
    ensures Holds(report', log') && Placed(queue', directory, root)
    ensures Ledger(log', queue', options) ==
            Ledger(log, queue, options) + multiset(EntriesEvents(item.dir.entries, item.path, item.depth, options))
    ensures QueueSize(queue') <= QueueSize(queue) + EntriesSize(item.dir.entries)
  {
    queue', report', log' := queue, report, log;
    var entries := item.dir.entries;
    ghost var all := Ledger(log, queue, options) + multiset(EntriesEvents(entries, item.path, item.depth, options));
    for i := 0 to |entries|
      invariant Holds(report', log') && Placed(queue', directory, root)
      invariant all == Ledger(log', queue', options)
                       + multiset(EntriesEvents(entries[i..], item.path, item.depth, options))
      invariant QueueSize(queue') + EntriesSize(entries[i..]) <= QueueSize(queue) + EntriesSize(entries)
    {
      assert entries[i..][0] == entries[i] && entries[i..][1..] == entries[i + 1..];
      queue', report', log' := ScanEntry(entries[i], item, options, queue', report', log', directory, root);
    }
  }

  lemma LedgerTakes(log: seq<Event>, queue: seq<Item>, options: Options)
    requires queue != []
    ensures Ledger(log, queue, options) ==
            Ledger(log, queue[1..], options)
            + multiset(DirEvents(queue[0].dir, queue[0].path, queue[0].depth, options))
  {
  }

  lemma LedgerStarts(first: Item, options: Options)
    ensures Ledger([], [first], options) == multiset(DirEvents(first.dir, first.path, first.depth, options))
  {
    assert [first][1..] == [];
    LedgerTakes([], [first], options);
  }

  /** Reports a directory that cannot be opened, or goes through the entries of one that can. */
  method Visit(item: Item, options: Options, queue: seq<Item>, report: Report,
               ghost log: seq<Event>, ghost directory: Path, ghost root: Dir)
    returns (queue': seq<Item>, report': Report, ghost log': seq<Event>)
    requires Holds(report, log) && Placed(queue, directory, root) && ItemPlaced(item, directory, root)
    ensures Holds(report', log') && Placed(queue', directory, root)
    ensures Ledger(log', queue', options) ==
            Ledger(log, queue, options) + multiset(DirEvents(item.dir, item.path, item.depth, options))
    ensures QueueSize(queue') < QueueSize(queue) + DirSize(item.dir)
  {
    if !item.dir.readable {
      LedgerMet(log, queue, options, Inaccessible(item.path));
      queue' := queue;
      report' := Record(report, Inaccessible(item.path), log);
      log' := log + [Inaccessible(item.path)];
    } else {
      queue', report', log' := ScanDirectory(item, options, queue, report, log, directory, root);
    }
  }

  /** Visits the queued directories until none is left. */
  method Search(root: Dir, directory: Path, options: Options)
    returns (r: Result<Report, DiscoveryError>, ghost log: seq<Event>)
    ensures r.Err? <==> !root.readable
    ensures r.Err? ==> r.error == RootUnreadable
    ensures r.Ok? ==> Holds(r.value, log) && multiset(log) == multiset(DirEvents(root, directory, 0, options))
  {
    var report := Report([], [], []);
    log := [];
    var first := Item(directory, root, 0);
    var queue := [first];
    ghost var all := Ledger(log, queue, options);
    LedgerStarts(first, options);
    while queue != []
      invariant Holds(report, log) && Placed(queue, directory, root)
      invariant Ledger(log, queue, options) == all
      invariant root.readable || queue == [first]
      decreases QueueSize(queue)
    {
      LedgerTakes(log, queue, options);
      var item := queue[0];
      if !item.dir.readable && item.path == directory {
        assert ItemPlaced(item, directory, root);
        return Err(RootUnreadable), log;
      }
      queue, report, log := Visit(item, options, queue[1..], report, log, directory, root);
    }
    LedgerEnds(log, options);
    return Ok(report), log;
  }

  lemma LedgerEnds(log: seq<Event>, options: Options)
    ensures Ledger(log, [], options) == multiset(log)
  {
  }

  method ListImages(root: Root, directory: Path, options: Options) returns (r: Result<Report, DiscoveryError>)
    ensures r == Err(NotFound) <==> root.Missing?
    ensures r == Err(WrongKind) <==> root.NotADirectory?
    ensures r == Err(RootUnreadable) <==> root.Directory? && !root.dir.readable
    ensures r.Ok? ==> Reports(r.value, DirEvents(root.dir, directory, 0, options))
  {
    if root.Missing? {
      return Err(NotFound);
    }
    if root.NotADirectory? {
      return Err(WrongKind);
    }
    var found;
    ghost var log;
    found, log := Search(root.dir, directory, options);
    if found.Err? {
      return found;
    }
    var report := found.value;
    Collected(log, DirEvents(root.dir, directory, 0, options));
    SortsPaths(report.images);
    SortsPaths(report.inaccessible);
    return Ok(Report(Sort(Leq, report.images), report.warnings, Sort(Leq, report.inaccessible)));
  }

  /** The report lists what was met: images and unreadable directories sorted, everything else as warnings. */
  ghost predicate Reports(report: Report, met: seq<Event>) {
    && Sorted(Leq, report.images) && Sorted(Leq, report.inaccessible)
    && (forall p: Path :: multiset(report.images)[p] == multiset(met)[Image(p)])
    && (forall p: Path :: multiset(report.inaccessible)[p] == multiset(met)[Inaccessible(p)])
    && (forall e: Event :: multiset(report.warnings)[e] == if e.Image? then 0 else multiset(met)[e])
  }

  /** What a log holds depends only on what was met, not on the order. */
  lemma Collected(log: seq<Event>, met: seq<Event>)
    requires multiset(log) == multiset(met)
    ensures forall p: Path :: multiset(ImagesOf(log))[p] == multiset(met)[Image(p)]
    ensures forall p: Path :: multiset(InaccessibleOf(log))[p] == multiset(met)[Inaccessible(p)]
    ensures forall e: Event :: multiset(WarningsOf(log))[e] == if e.Image? then 0 else multiset(met)[e]
  {
    forall p: Path
      ensures multiset(ImagesOf(log))[p] == multiset(log)[Image(p)]
      ensures multiset(InaccessibleOf(log))[p] == multiset(log)[Inaccessible(p)]
    {
      CountImages(log, p);
      CountInaccessible(log, p);
    }
    forall e: Event
      ensures multiset(WarningsOf(log))[e] == if e.Image? then 0 else multiset(log)[e]
    {
      CountWarnings(log, e);
    }
  }

  lemma {:induction false} CountImages(log: seq<Event>, p: Path)
    ensures multiset(ImagesOf(log))[p] == multiset(log)[Image(p)]
  {
    if log != [] {
      var last := |log| - 1;
      CountImages(log[..last], p);
      assert log == log[..last] + [log[last]];
    }
  }

  lemma {:induction false} CountInaccessible(log: seq<Event>, p: Path)
    ensures multiset(InaccessibleOf(log))[p] == multiset(log)[Inaccessible(p)]
  {
    if log != [] {
      var last := |log| - 1;
      CountInaccessible(log[..last], p);
      assert log == log[..last] + [log[last]];
    }
  }

  lemma {:induction false} CountWarnings(log: seq<Event>, e: Event)
    ensures multiset(WarningsOf(log))[e] == if e.Image? then 0 else multiset(log)[e]
  {
    if log != [] {
      var last := |log| - 1;
      CountWarnings(log[..last], e);
      assert log == log[..last] + [log[last]];
    }
  }

  // ---------------------------------------------------------------- where the images are

  /** The entry called `name`. */
  function Find(entries: seq<Entry>, name: string): Option<Kind> {
    if entries == [] then None
    else if entries[0].Entry? && entries[0].name == name then Some(entries[0].kind)
    else Find(entries[1..], name)
  }

  /** No directory lists a name twice. */
  predicate WellNamed(dir: Dir)
    decreases dir
  {
    AllWellNamed(dir.entries)
  }

  predicate AllWellNamed(entries: seq<Entry>)
    decreases entries
  {
    entries != [] ==>
      && (entries[0].Entry? ==> Find(entries[1..], entries[0].name) == None)
      && (entries[0].Entry? && entries[0].kind.SubDir? ==> WellNamed(entries[0].kind.dir))
      && AllWellNamed(entries[1..])
  }

  /** Goes down from `dir` by names, through directories that can be opened. */
  function Follow(dir: Dir, names: seq<string>): Option<Dir>
    decreases |names|
  {
    if names == [] then Some(dir)
    else if !dir.readable then None
    else
      match Find(dir.entries, names[0])
      case Some(SubDir(sub)) => Follow(sub, names[1..])
      case _ => None
  }

  /** The options let the search go down these names from this depth on. */
  predicate Allowed(options: Options, names: seq<string>, depth: nat) {
    names != [] ==>
      && options.recursive
      && (options.maxDepth.Some? ==> depth + |names| <= options.maxDepth.value)
      && forall i :: 0 <= i < |names| ==> !options.ExcludesName(names[i])
  }

  // ---------------------------------------------------------------- each found once, and nowhere else

  /** What a search is looked through for. */
  datatype What = AnImage | AClosedDirectory | ASkippedEntry | ABadEntry

  function Sought(what: What, path: Path): Event {
    match what
    case AnImage => Image(path)
    case AClosedDirectory => Inaccessible(path)
    case ASkippedEntry => SkippedEntry(path)
    case ABadEntry => UnreadableEntry(path)
  }

  /** An entry of this name and kind is an image, or one that has to be skipped because nothing more is known of it. */
  predicate Counts(kind: Kind, name: string, what: What) {
    match kind
    case UnknownType => what.ASkippedEntry?
    case RegularFile(size) =>
      IsImageCandidate(name) && if size.Some? then what.AnImage? && size.value > 0 else what.ASkippedEntry?
    case _ => false
  }

  /** Whether the search from `dir` meets it at `rel`, told by going down from `dir`. */
  predicate Met(dir: Dir, depth: nat, options: Options, rel: Path, what: What)
    decreases |rel|, 1
  {
    if !dir.readable then what.AClosedDirectory? && rel == []
    else
      && rel != []
      && Find(dir.entries, rel[0]).Some?
      && MetIn(Find(dir.entries, rel[0]).value, depth, options, rel, what)
  }

  predicate MetIn(kind: Kind, depth: nat, options: Options, rel: Path, what: What)
    requires rel != []
    decreases |rel|, 0
  {
    match kind
    case SubDir(dir) => options.Enters(rel[0], depth) && Met(dir, depth + 1, options, rel[1..], what)
    case _ => |rel| == 1 && Counts(kind, rel[0], what)
  }

  /** What is met in a directory lies below its path. */
  lemma {:induction false} ElsewhereInDir(dir: Dir, path: Path, depth: nat, options: Options, p: Path, what: What)
    requires !(path <= p)
    ensures Sought(what, p) !in multiset(DirEvents(dir, path, depth, options))
    decreases dir
  {
    if dir.readable {
      ElsewhereInEntries(dir.entries, path, depth, options, p, what);
    }
  }

  lemma {:induction false} ElsewhereInEntries(entries: seq<Entry>, path: Path, depth: nat, options: Options,
                                              p: Path, what: What)
    requires !(path <= p)
    ensures Sought(what, p) !in multiset(EntriesEvents(entries, path, depth, options))
    decreases entries
  {
    if entries != [] {
      ElsewhereInEntry(entries[0], path, depth, options, p, what);
      ElsewhereInEntries(entries[1..], path, depth, options, p, what);
    }
  }

  lemma {:induction false} ElsewhereInEntry(e: Entry, path: Path, depth: nat, options: Options, p: Path, what: What)
    requires !(path <= p) || (e.Entry? && !(path + [e.name] <= p))
    ensures Sought(what, p) !in multiset(EntryEvents(e, path, depth, options))
    decreases e
  {
    if e.Entry? {
      assert path + [e.name] <= p ==> path <= p;
      if e.kind.SubDir? && options.Enters(e.name, depth) {
        ElsewhereInDir(e.kind.dir, path + [e.name], depth + 1, options, p, what);
      }
    }
  }

  lemma {:induction false} CountInDir(dir: Dir, path: Path, depth: nat, options: Options, rel: Path, what: What)
    requires WellNamed(dir) && !what.ABadEntry?
    ensures multiset(DirEvents(dir, path, depth, options))[Sought(what, path + rel)]
         == One(Met(dir, depth, options, rel, what))
    decreases dir
  {
    if !dir.readable {
      assert path + rel == path <==> rel == [];
    } else {
      CountInEntries(dir.entries, path, depth, options, rel, what);
    }
  }

  lemma {:induction false} CountInEntries(entries: seq<Entry>, path: Path, depth: nat, options: Options,
                                          rel: Path, what: What)
    requires AllWellNamed(entries) && !what.ABadEntry?
    ensures multiset(EntriesEvents(entries, path, depth, options))[Sought(what, path + rel)]
         == One(rel != [] && Find(entries, rel[0]).Some?
                && MetIn(Find(entries, rel[0]).value, depth, options, rel, what))
    decreases entries
  {
    if entries != [] {
      CountInEntry(entries[0], path, depth, options, rel, what);
      CountInEntries(entries[1..], path, depth, options, rel, what);
    }
  }

  lemma PrefixIsFirst(path: Path, name: string, rel: Path)
    ensures path + [name] <= path + rel <==> rel != [] && rel[0] == name
  {
    var at, p := path + [name], path + rel;
    assert at[|path|] == name;
    if rel != [] {
      assert p[|path|] == rel[0];
      assert rel[0] == name ==> p[..|at|] == at;
    }
  }

  lemma {:induction false} CountInEntry(e: Entry, path: Path, depth: nat, options: Options, rel: Path, what: What)
    requires !what.ABadEntry? && (e.Entry? && e.kind.SubDir? ==> WellNamed(e.kind.dir))
    ensures multiset(EntryEvents(e, path, depth, options))[Sought(what, path + rel)]
         == One(rel != [] && e.Entry? && e.name == rel[0] && MetIn(e.kind, depth, options, rel, what))
    decreases e
  {
    if e.Entry? {
      var at := path + [e.name];
      PrefixIsFirst(path, e.name, rel);
      if rel == [] || rel[0] != e.name {
        ElsewhereInEntry(e, path, depth, options, path + rel, what);
      } else {
        assert path + rel == at + rel[1..];
        assert path + rel == at <==> |rel| == 1;
        if e.kind.SubDir? && options.Enters(e.name, depth) {
          CountInDir(e.kind.dir, at, depth + 1, options, rel[1..], what);
        }
      }
    }
  }

  lemma NoFileIsRoot(dir: Dir, depth: nat, options: Options, rel: Path, what: What)
    requires rel == [] && !what.AClosedDirectory?
    ensures !Met(dir, depth, options, rel, what)
  {
  }

  /** An entry right in the directory is met as what it is. */
  lemma MetHere(dir: Dir, depth: nat, options: Options, rel: Path, what: What)
    requires |rel| == 1 && !what.AClosedDirectory?
    ensures Met(dir, depth, options, rel, what) <==> EntryAt(dir, rel, what)
  {
    assert rel[..|rel| - 1] == [] && Follow(dir, []) == Some(dir);
    var kind := Find(dir.entries, rel[0]);
    if kind.Some? && kind.value.SubDir? {
      NoFileIsRoot(kind.value.dir, depth + 1, options, rel[1..], what);
    }
  }

  /** What lies further down is met through the directory its path names first. */
  lemma MetBelow(dir: Dir, depth: nat, options: Options, rel: Path, what: What)
    requires rel != [] && (|rel| > 1 || what.AClosedDirectory?)
    ensures Met(dir, depth, options, rel, what) <==>
              && dir.readable && Enterable(dir, rel[0]).Some? && options.Enters(rel[0], depth)
              && Met(Enterable(dir, rel[0]).value, depth + 1, options, rel[1..], what)
  {
  }

  /** The directory of this name in `dir`. */
  function Enterable(dir: Dir, name: string): Option<Dir> {
    match Find(dir.entries, name)
    case Some(SubDir(sub)) => Some(sub)
    case _ => None
  }

  lemma EntryBelow(dir: Dir, rel: Path, what: What)
    requires |rel| > 1
    ensures EntryAt(dir, rel, what) <==>
              dir.readable && Enterable(dir, rel[0]).Some? && EntryAt(Enterable(dir, rel[0]).value, rel[1..], what)
  {
    var names := rel[..|rel| - 1];
    assert names[0] == rel[0] && names[1..] == rel[1..][..|rel| - 2];
    assert rel[1..][|rel| - 2] == rel[|rel| - 1];
  }

  lemma AllowedBelow(options: Options, rel: Path, depth: nat)
    requires |rel| > 1
    ensures Allowed(options, rel[..|rel| - 1], depth) <==>
              options.Enters(rel[0], depth) && Allowed(options, rel[1..][..|rel| - 2], depth + 1)
  {
    var names := rel[..|rel| - 1];
    AllowedStep(options, names, depth);
    assert names[0] == rel[0] && names[1..] == rel[1..][..|rel| - 2];
  }

  /** Meeting an entry is finding it there, where the options let the search reach. */
  lemma {:induction false} MetEntry(dir: Dir, depth: nat, options: Options, rel: Path, what: What)
    requires !what.AClosedDirectory?
    ensures Met(dir, depth, options, rel, what) <==>
              rel != [] && Allowed(options, rel[..|rel| - 1], depth) && EntryAt(dir, rel, what)
    decreases |rel|
  {
    if |rel| == 1 {
      MetHere(dir, depth, options, rel, what);
    } else if |rel| > 1 {
      MetBelow(dir, depth, options, rel, what);
      EntryBelow(dir, rel, what);
      AllowedBelow(options, rel, depth);
      var sub := Enterable(dir, rel[0]);
      if sub.Some? {
        MetEntry(sub.value, depth + 1, options, rel[1..], what);
      }
    }
  }

  /** Such an entry lies at `rel`, behind directories that can be opened. */
  predicate EntryAt(root: Dir, rel: Path, what: What)
    requires rel != []
  {
    var dir := Follow(root, rel[..|rel| - 1]);
    && dir.Some? && dir.value.readable
    && var kind := Find(dir.value.entries, rel[|rel| - 1]);
       kind.Some? && Counts(kind.value, rel[|rel| - 1], what)
  }

  /** A non-empty candidate file lies at `rel`. */
  predicate FileAt(root: Dir, rel: Path)
    requires rel != []
  {
    var dir := Follow(root, rel[..|rel| - 1]);
    && dir.Some? && dir.value.readable
    && var kind := Find(dir.value.entries, rel[|rel| - 1]);
       && kind.Some? && kind.value.RegularFile? && kind.value.size.Some? && kind.value.size.value > 0
       && IsImageCandidate(rel[|rel| - 1])
  }

  /** An entry of unknown type, or a candidate file without metadata, lies at `rel`. */
  predicate UnknownAt(root: Dir, rel: Path)
    requires rel != []
  {
    var dir := Follow(root, rel[..|rel| - 1]);
    && dir.Some? && dir.value.readable
    && var kind := Find(dir.value.entries, rel[|rel| - 1]);
       && kind.Some?
       && (kind.value.UnknownType?
           || (kind.value.RegularFile? && kind.value.size.None? && IsImageCandidate(rel[|rel| - 1])))
  }

  lemma EntryAtMeans(root: Dir, rel: Path)
    requires rel != []
    ensures EntryAt(root, rel, AnImage) <==> FileAt(root, rel)
    ensures EntryAt(root, rel, ASkippedEntry) <==> UnknownAt(root, rel)
  {
  }

  /** An image is met exactly when its directory is reached and it lies there. */
  lemma MetImage(dir: Dir, depth: nat, options: Options, rel: Path)
    ensures Met(dir, depth, options, rel, AnImage) <==>
              rel != [] && Allowed(options, rel[..|rel| - 1], depth) && FileAt(dir, rel)
  {
    MetEntry(dir, depth, options, rel, AnImage);
    if rel != [] {
      EntryAtMeans(dir, rel);
    }
  }

  lemma MetUnknown(dir: Dir, depth: nat, options: Options, rel: Path)
    ensures Met(dir, depth, options, rel, ASkippedEntry) <==>
              rel != [] && Allowed(options, rel[..|rel| - 1], depth) && UnknownAt(dir, rel)
  {
    MetEntry(dir, depth, options, rel, ASkippedEntry);
    if rel != [] {
      EntryAtMeans(dir, rel);
    }
  }

  lemma {:induction false} MetInaccessible(dir: Dir, depth: nat, options: Options, rel: Path)
    ensures Met(dir, depth, options, rel, AClosedDirectory) <==>
              Allowed(options, rel, depth) && Follow(dir, rel).Some? && !Follow(dir, rel).value.readable
    decreases |rel|
  {
    if dir.readable && rel != [] {
      var kind := Find(dir.entries, rel[0]);
      if kind.Some? && kind.value.SubDir? {
        MetInaccessible(kind.value.dir, depth + 1, options, rel[1..]);
        AllowedStep(options, rel, depth);
      }
    }
  }

  lemma AllowedStep(options: Options, names: seq<string>, depth: nat)
    requires names != []
    ensures Allowed(options, names, depth) <==>
              options.Enters(names[0], depth) && Allowed(options, names[1..], depth + 1)
  {
    var rest := names[1..];
    assert forall i :: 0 <= i < |rest| ==> rest[i] == names[i + 1];
    assert forall i :: 1 <= i < |names| ==> names[i] == rest[i - 1];
  }

  // ---------------------------------------------------------------- entries that cannot be read

  /** How many entries of a directory could not be read. */
  function BadEntries(entries: seq<Entry>): nat {
    if entries == [] then 0 else One(entries[0].BadEntry?) + BadEntries(entries[1..])
  }

  /** How many of them the search meets in the directory at `rel`, told by going down from `dir`. */
  function BadMet(dir: Dir, depth: nat, options: Options, rel: Path): nat
    decreases |rel|
  {
    if !dir.readable then 0
    else if rel == [] then BadEntries(dir.entries)
    else
      var sub := Enterable(dir, rel[0]);
      if sub.Some? && options.Enters(rel[0], depth) then BadMet(sub.value, depth + 1, options, rel[1..]) else 0
  }

  lemma {:induction false} BadInDir(dir: Dir, path: Path, depth: nat, options: Options, rel: Path)
    requires WellNamed(dir)
    ensures multiset(DirEvents(dir, path, depth, options))[UnreadableEntry(path + rel)] == BadMet(dir, depth, options, rel)
    decreases dir
  {
    if dir.readable {
      BadInEntries(dir.entries, path, depth, options, rel);
    }
  }

  /** The part of `BadMet` that one entry is responsible for. */
  function BadBehind(kind: Option<Kind>, depth: nat, options: Options, rel: Path): nat
    requires rel != []
  {
    match kind
    case Some(SubDir(sub)) => if options.Enters(rel[0], depth) then BadMet(sub, depth + 1, options, rel[1..]) else 0
    case _ => 0
  }

  lemma {:induction false} BadInEntries(entries: seq<Entry>, path: Path, depth: nat, options: Options, rel: Path)
    requires AllWellNamed(entries)
    ensures multiset(EntriesEvents(entries, path, depth, options))[UnreadableEntry(path + rel)]
         == if rel == [] then BadEntries(entries) else BadBehind(Find(entries, rel[0]), depth, options, rel)
    decreases entries
  {
    if entries != [] {
      BadInEntry(entries[0], path, depth, options, rel);
      BadInEntries(entries[1..], path, depth, options, rel);
    }
  }

  lemma {:induction false} BadInEntry(e: Entry, path: Path, depth: nat, options: Options, rel: Path)
    requires e.Entry? && e.kind.SubDir? ==> WellNamed(e.kind.dir)
    ensures multiset(EntryEvents(e, path, depth, options))[UnreadableEntry(path + rel)]
         == if rel == [] then One(e.BadEntry?)
            else if e.Entry? && e.name == rel[0] then BadBehind(Some(e.kind), depth, options, rel)
            else 0
    decreases e
  {
    if e.BadEntry? {
      assert path + rel == path <==> rel == [];
    } else {
      var at := path + [e.name];
      PrefixIsFirst(path, e.name, rel);
      if rel == [] || rel[0] != e.name {
        ElsewhereInEntry(e, path, depth, options, path + rel, ABadEntry);
      } else {
        assert path + rel == at + rel[1..];
        if e.kind.SubDir? && options.Enters(e.name, depth) {
          BadInDir(e.kind.dir, at, depth + 1, options, rel[1..]);
        }
      }
    }
  }

  /** They are met exactly in the directories that the options let the search reach and that can be opened. */
  lemma {:induction false} BadMetExactly(dir: Dir, depth: nat, options: Options, rel: Path)
    ensures BadMet(dir, depth, options, rel) ==
            if Allowed(options, rel, depth) && Follow(dir, rel).Some? && Follow(dir, rel).value.readable
            then BadEntries(Follow(dir, rel).value.entries) else 0
    decreases |rel|
  {
    if dir.readable && rel != [] {
      var sub := Enterable(dir, rel[0]);
      if sub.Some? {
        BadMetExactly(sub.value, depth + 1, options, rel[1..]);
        AllowedStep(options, rel, depth);
      }
    }
  }

  /** The images are exactly the files the search is meant to find, each once and in order; so are the
      directories it could not open. */
  lemma ReportIsExact(root: Dir, directory: Path, options: Options, report: Report)
    requires WellNamed(root) && root.readable
    requires Reports(report, DirEvents(root, directory, 0, options))
    ensures Ascending(report.images) && Ascending(report.inaccessible)
    ensures forall rel: Path :: directory + rel in report.images <==>
              rel != [] && Allowed(options, rel[..|rel| - 1], 0) && FileAt(root, rel)
    ensures forall rel: Path :: directory + rel in report.inaccessible <==>
              Allowed(options, rel, 0) && Follow(root, rel).Some? && !Follow(root, rel).value.readable
    ensures forall p :: p in report.images || p in report.inaccessible ==> directory <= p
  {
    var met := DirEvents(root, directory, 0, options);
    forall p: Path
      ensures multiset(met)[Image(p)] <= 1 && multiset(met)[Inaccessible(p)] <= 1
      ensures !(directory <= p) ==> multiset(met)[Image(p)] == multiset(met)[Inaccessible(p)] == 0
    {
      AtMostOnce(root, directory, options, p, AnImage);
      AtMostOnce(root, directory, options, p, AClosedDirectory);
    }
    SortedAscends(report.images);
    SortedAscends(report.inaccessible);
    forall rel: Path
      ensures directory + rel in report.images <==>
                rel != [] && Allowed(options, rel[..|rel| - 1], 0) && FileAt(root, rel)
    {
      CountInDir(root, directory, 0, options, rel, AnImage);
      MetImage(root, 0, options, rel);
      InMultiset(report.images, directory + rel);
    }
    forall rel: Path
      ensures directory + rel in report.inaccessible <==>
                Allowed(options, rel, 0) && Follow(root, rel).Some? && !Follow(root, rel).value.readable
    {
      CountInDir(root, directory, 0, options, rel, AClosedDirectory);
      MetInaccessible(root, 0, options, rel);
      InMultiset(report.inaccessible, directory + rel);
    }
    forall p | p in report.images || p in report.inaccessible
      ensures directory <= p
    {
      InMultiset(report.images, p);
      InMultiset(report.inaccessible, p);
    }
  }

  lemma InMultiset(s: seq<Path>, p: Path)
    ensures p in s <==> multiset(s)[p] > 0
  {
  }

  lemma AtMostOnce(root: Dir, directory: Path, options: Options, p: Path, what: What)
    requires WellNamed(root) && !what.ABadEntry?
    ensures var n := multiset(DirEvents(root, directory, 0, options))[Sought(what, p)];
            n <= 1 && (!(directory <= p) ==> n == 0)
  {
    if directory <= p {
      assert p == directory + p[|directory|..];
      CountInDir(root, directory, 0, options, p[|directory|..], what);
    } else {
      ElsewhereInDir(root, directory, 0, options, p, what);
    }
  }

  /**
   * The warnings are exactly what had to be passed over on the way: the entries nothing more is known of, the directories
   * that could not be opened, and for each directory visited as many unreadable entries as it has.
   */
  lemma WarningsAreExact(root: Dir, directory: Path, options: Options, report: Report, rel: Path)
    requires WellNamed(root) && Reports(report, DirEvents(root, directory, 0, options))
    ensures multiset(report.warnings)[SkippedEntry(directory + rel)]
         == One(rel != [] && Allowed(options, rel[..|rel| - 1], 0) && UnknownAt(root, rel))
    ensures multiset(report.warnings)[Inaccessible(directory + rel)]
         == One(Allowed(options, rel, 0) && Follow(root, rel).Some? && !Follow(root, rel).value.readable)
    ensures multiset(report.warnings)[UnreadableEntry(directory + rel)]
         == if Allowed(options, rel, 0) && Follow(root, rel).Some? && Follow(root, rel).value.readable
            then BadEntries(Follow(root, rel).value.entries) else 0
    ensures forall e: Event :: e in report.warnings ==> !e.Image? && directory <= EventPath(e)
  {
    CountInDir(root, directory, 0, options, rel, ASkippedEntry);
    MetUnknown(root, 0, options, rel);
    CountInDir(root, directory, 0, options, rel, AClosedDirectory);
    MetInaccessible(root, 0, options, rel);
    BadInDir(root, directory, 0, options, rel);
    BadMetExactly(root, 0, options, rel);
    forall e: Event | e in report.warnings ensures !e.Image? && directory <= EventPath(e) {
      WarningBelow(root, directory, options, report, e);
    }
  }

  function EventPath(e: Event): Path {
    match e
    case Image(path) => path
    case Inaccessible(path) => path
    case UnreadableEntry(path) => path
    case SkippedEntry(path) => path
  }

  lemma WhatIs(e: Event) returns (what: What)
    ensures Sought(what, EventPath(e)) == e
  {
    what := if e.Image? then AnImage else if e.Inaccessible? then AClosedDirectory
            else if e.SkippedEntry? then ASkippedEntry else ABadEntry;
  }

  lemma WarningBelow(root: Dir, directory: Path, options: Options, report: Report, e: Event)
    requires Reports(report, DirEvents(root, directory, 0, options)) && e in report.warnings
    ensures !e.Image? && directory <= EventPath(e)
  {
    assert multiset(report.warnings)[e] > 0;
    var what := WhatIs(e);
    if !(directory <= EventPath(e)) {
      ElsewhereInDir(root, directory, 0, options, EventPath(e), what);
    }
  }
}
