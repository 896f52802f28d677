/**
 * Whole runs of seeks and reads on a view. However the reads are cut, whatever the cache
 * holds, and whatever fails in between, the answers are those of one immutable byte string; only
 * after an NBD session has been thrown out of step are they right in number and place alone.
 */
module DiskRuns {
  import opened Bytes
  import opened Files
  import opened NbdClient
  import opened DiskReaders
  import opened VirtualDisks

  datatype Op = SeekTo(from: SeekFrom) | ReadUpTo(n: nat)

  datatype Reply = MovedTo(p: nat) | Data(bytes: seq<Byte>) | Rejected | Failed(error: IoError)

  /** The answer of the abstract view: a byte string and a position. */
  function Answer(view: seq<Byte>, length: nat, position: nat, op: Op): (reply: Reply)
    ensures !reply.Failed?
  {
    match op
    case SeekTo(from) =>
      if NewPosition(from, length, position) < 0 then Rejected
      else MovedTo(NewPosition(from, length, position) % U64_LIMIT)
    case ReadUpTo(n) =>
      Data(Window(view, position, n))
  }

  /** At most `n` bytes of the view from `position` on. */
  function Window(view: seq<Byte>, position: nat, n: nat): seq<Byte> {
    if position >= |view| then [] else view[position..Min(position + n, |view|)]
  }

  function Next(position: nat, reply: Reply): nat {
    match reply
    case MovedTo(p) => p
    case Data(bytes) => position + |bytes|
    case Rejected => position
    case Failed(_) => position
  }

  /** The abstract answer, or a failed read. */
  predicate Right(view: seq<Byte>, length: nat, position: nat, op: Op, reply: Reply) {
    reply == Answer(view, length, position, op) || (reply.Failed? && op.ReadUpTo?)
  }

  /** The same but for the bytes, of which there are as many. */
  predicate Shaped(view: seq<Byte>, length: nat, position: nat, op: Op, reply: Reply) {
    var answer := Answer(view, length, position, op);
    || reply == answer
    || (reply.Failed? && op.ReadUpTo?)
    || (reply.Data? && answer.Data? && |reply.bytes| == |answer.bytes|)
  }

  /** Each reply is the abstract answer at the position reached so far, or a failed read that moved nothing. */
  predicate Conforms(view: seq<Byte>, length: nat, position: nat, ops: seq<Op>, replies: seq<Reply>)
    decreases |ops|
  {
    && |replies| == |ops|
    && (ops != [] ==>
          && Right(view, length, position, ops[0], replies[0])
          && Conforms(view, length, Next(position, replies[0]), ops[1..], replies[1..]))
  }

  /** So are the first `k` replies; the others have the right shape. */
  predicate ConformsFor(k: nat, view: seq<Byte>, length: nat, position: nat, ops: seq<Op>, replies: seq<Reply>)
    decreases |ops|
  {
    && |replies| == |ops|
    && (ops != [] ==>
          && Shaped(view, length, position, ops[0], replies[0])
          && (k > 0 ==> Right(view, length, position, ops[0], replies[0]))
          && ConformsFor(if k > 0 then k - 1 else 0, view, length, Next(position, replies[0]), ops[1..], replies[1..]))
  }

  lemma {:induction false} ConformsThroughout(view: seq<Byte>, length: nat, position: nat, ops: seq<Op>,
                                              replies: seq<Reply>)
    requires ConformsFor(|ops|, view, length, position, ops, replies)
    ensures Conforms(view, length, position, ops, replies)
    decreases |ops|
  {
    if ops != [] {
      ConformsThroughout(view, length, Next(position, replies[0]), ops[1..], replies[1..]);
    }
  }

  /** A read that the connection of an NBD session broke. */
  predicate Lost(reply: Reply) {
    reply.Failed? && reply.error.Remote? && InTransit(reply.error.cause)
  }

  /** If the session is thrown out of step, then by the last of the first `k` replies. */
  predicate LostAt(k: nat, replies: seq<Reply>) {
    k < |replies| ==> k > 0 && Lost(replies[k - 1])
  }

  /** The run of the abstract view. */
  function Run(view: seq<Byte>, length: nat, position: nat, ops: seq<Op>): seq<Reply>
    decreases |ops|
  {
    if ops == [] then []
    else
      var reply := Answer(view, length, position, ops[0]);
      [reply] + Run(view, length, Next(position, reply), ops[1..])
  }

  /** A run in which nothing failed is the abstract run. */
  lemma {:induction false} ConformingRun(view: seq<Byte>, length: nat, position: nat, ops: seq<Op>, replies: seq<Reply>)
    requires Conforms(view, length, position, ops, replies)
    requires forall i :: 0 <= i < |replies| ==> !replies[i].Failed?
    ensures replies == Run(view, length, position, ops)
    decreases |ops|
  {
    if ops != [] {
      ConformingRun(view, length, Next(position, replies[0]), ops[1..], replies[1..]);
    }
  }

  /** Reading in two pieces is reading in one. */
  lemma SplitRead(view: seq<Byte>, position: nat, a: nat, b: nat)
    ensures Window(view, position, a) + Window(view, position + |Window(view, position, a)|, b) == Window(view, position, a + b)
  {
  }

  // ---------------------------------------------------------------- where seeks lead

  lemma TwoOps(view: seq<Byte>, length: nat, position: nat, first: Op, second: Op)
    ensures var reply := Answer(view, length, position, first);
            Run(view, length, position, [first, second]) == [reply, Answer(view, length, Next(position, reply), second)]
  {
    var reply := Answer(view, length, position, first);
    assert [first, second][1..] == [second] && [second][1..] == [];
    assert Run(view, length, Next(position, reply), [second]) == [Answer(view, length, Next(position, reply), second)] + [];
  }

  /** From any position: a seek to `p` from the start, and what is read there. */
  lemma ReadsFromStart(view: seq<Byte>, length: nat, position: nat, p: nat, n: nat)
    requires p < 0x1_0000_0000_0000_0000
    ensures Run(view, length, position, [SeekTo(Start(p)), ReadUpTo(n)]) ==
            [MovedTo(p), Data(if p < |view| then view[p..Min(p + n, |view|)] else [])]
  {
    TwoOps(view, length, position, SeekTo(Start(p)), ReadUpTo(n));
  }

  /** From any position: a seek to `k` bytes before the end, and what is read there. */
  lemma ReadsFromEnd(view: seq<Byte>, length: nat, position: nat, k: int, n: nat)
    requires |view| == length && 0 <= k <= length && length - k < 0x1_0000_0000_0000_0000
    ensures Run(view, length, position, [SeekTo(End(-k)), ReadUpTo(n)]) ==
            [MovedTo(length - k), Data(view[length - k..length - k + Min(n, k)])]
  {
    TwoOps(view, length, position, SeekTo(End(-k)), ReadUpTo(n));
    assert Window(view, length - k, n) == view[length - k..length - k + Min(n, k)];
  }

  /** Stepping back over what was read, and reading it again. */
  lemma ReadsAgain(view: seq<Byte>, length: nat, position: nat, n: nat)
    requires position < 0x1_0000_0000_0000_0000
    ensures var bytes := Window(view, position, n);
            Run(view, length, position, [ReadUpTo(n), SeekTo(Current(-|bytes|)), ReadUpTo(n)]) ==
            [Data(bytes), MovedTo(position), Data(bytes)]
  {
    var bytes := Window(view, position, n);
    var ops := [ReadUpTo(n), SeekTo(Current(-|bytes|)), ReadUpTo(n)];
    assert ops[1..] == [SeekTo(Current(-|bytes|)), ReadUpTo(n)];
    TwoOps(view, length, position + |bytes|, SeekTo(Current(-|bytes|)), ReadUpTo(n));
  }

  /** Stepping over bytes leads where reading them leads. */
  lemma SkipsAhead(view: seq<Byte>, length: nat, position: nat, n: nat, m: nat)
    requires position + n <= |view| < 0x1_0000_0000_0000_0000
    ensures var next := Data(Window(view, position + n, m));
            && Run(view, length, position, [SeekTo(Current(n)), ReadUpTo(m)]) == [MovedTo(position + n), next]
            && Run(view, length, position, [ReadUpTo(n), ReadUpTo(m)]) == [Data(view[position..position + n]), next]
  {
    assert Window(view, position, n) == view[position..position + n];
    TwoOps(view, length, position, SeekTo(Current(n)), ReadUpTo(m));
    TwoOps(view, length, position, ReadUpTo(n), ReadUpTo(m));
  }

  /** A seek before the start is refused, and the next operation is as if it had not been tried. */
  lemma RefusedExactly(view: seq<Byte>, length: nat, position: nat, from: SeekFrom, next: Op)
    ensures Answer(view, length, position, SeekTo(from)) == Rejected <==>
              (from.End? && -from.d > length) || (from.Current? && -from.d > position)
    ensures Answer(view, length, position, SeekTo(from)) == Rejected ==>
              Run(view, length, position, [SeekTo(from), next]) == [Rejected, Answer(view, length, position, next)]
  {
    TwoOps(view, length, position, SeekTo(from), next);
  }

  lemma WindowIsPadded(view: seq<Byte>, position: nat, n: nat)
    ensures Window(view, position, n) == Padded(view, position, Max(0, Min(n, |view| - position)))
  {
    var k := Max(0, Min(n, |view| - position));
    if k > 0 {
      PaddedInside(view, position, k);
    }
  }

  method Perform(disk: VirtualDisk, op: Op) returns (reply: Reply)
    requires disk.Valid()
    modifies disk, disk.driver, disk.driver.repr
    ensures disk.Valid()
    ensures Shaped(disk.View(), disk.length, old(disk.position), op, reply)
    ensures !disk.driver.broken ==> Right(disk.View(), disk.length, old(disk.position), op, reply)
    ensures old(disk.driver.broken) ==> disk.driver.broken
    ensures disk.driver.broken && !old(disk.driver.broken) ==> Lost(reply)
    ensures disk.position == Next(old(disk.position), reply)
    ensures old(disk.driver.Steady()) ==> disk.driver.Steady()
    ensures old(disk.driver.Undisturbed()) ==>
              disk.driver.Undisturbed() && (disk.driver.backend.Image().Serves(disk.chunkSize) ==> !reply.Failed?)
  {
    match op
    case SeekTo(from) =>
      var p := disk.Seek(from);
      return if p.Ok? then MovedTo(p.value) else Rejected;
    case ReadUpTo(n) =>
      var buf := new Byte[n](_ => 0);
      var got := disk.Read(buf);
      WindowIsPadded(disk.View(), old(disk.position), n);
      return if got.Ok? then Data(buf[..got.value]) else Failed(got.error);
  }

  /** Runs any list of seeks and reads; the first `sound` replies are not touched by a session out of step. */
  method PerformAll(disk: VirtualDisk, ops: seq<Op>) returns (replies: seq<Reply>, ghost sound: nat)
    requires disk.Valid()
    modifies disk, disk.driver, disk.driver.repr
    ensures disk.Valid()
    ensures sound <= |ops| && ConformsFor(sound, disk.View(), disk.length, old(disk.position), ops, replies)
    ensures if old(disk.driver.broken) then sound == 0 else LostAt(sound, replies)
    ensures old(disk.driver.broken) ==> disk.driver.broken
    ensures !disk.driver.broken ==> sound == |ops|
    ensures old(disk.driver.Steady()) ==> disk.driver.Steady()
    ensures old(disk.driver.Undisturbed()) && disk.driver.backend.Image().Serves(disk.chunkSize) ==>
              replies == Run(disk.View(), disk.length, old(disk.position), ops)
    decreases |ops|
  {
    if ops == [] {
      return [], 0;
    }
    ghost var broken := disk.driver.broken;
    var first := Perform(disk, ops[0]);
    ghost var lost := disk.driver.broken;
    var rest;
    rest, sound := PerformAll(disk, ops[1..]);
    // Once out of step, no later reply is sure to be right; up to then every reply is.
    sound := if broken then 0 else if lost then 1 else sound + 1;
    return [first] + rest, sound;
  }
}
