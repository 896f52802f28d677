/**
 * What can fail, and read-only backing files. The bytes never change; what varies is how the operating
 * system answers each call, which `schedule` fixes in advance: a short read, an
 * interruption or a failure. Every theorem holds for every schedule.
 */
module Files {
  import opened Bytes

  datatype IoEvent = Short(limit: nat) | Interrupt | Fail

  /** What can go wrong on a connection to an NBD server. */
  datatype NbdError = Closed | TimedOut | InvalidData | Unsupported | ServerError(code: nat)

  datatype IoError =
    | Fault
    | UnexpectedEof
    | Interrupted
    | Cancelled
    | InvalidInput
    | NotFound
    | Remote(cause: NbdError)

  /** No call of this schedule fails outright. */
  predicate Quiet(schedule: seq<IoEvent>) {
    forall i :: 0 <= i < |schedule| ==> schedule[i] != Fail
  }

  class File {
    const contents: seq<Byte>
    var pos: nat
    var schedule: seq<IoEvent>

    constructor (contents: seq<Byte>, schedule: seq<IoEvent>)
      ensures this.contents == contents && this.schedule == schedule && pos == 0
    {
      this.contents := contents;
      this.schedule := schedule;
      pos := 0;
    }

    method Seek(p: nat) returns (r: Result<nat, IoError>)
      modifies this
      ensures r.Ok? ==> r.value == p && pos == p
      ensures old(Quiet(schedule)) ==> r.Ok? && Quiet(schedule)
    {
      if |schedule| > 0 && schedule[0] == Fail {
        schedule := schedule[1..];
        return Err(Fault);
      }
      pos := p;
      return Ok(p);
    }

    /** One `read` into `buf[lo..hi]`: some bytes, end of file, an interruption or a failure. */
    method Read(buf: array<Byte>, lo: nat, hi: nat) returns (r: Result<nat, IoError>)
      requires lo < hi <= buf.Length
      modifies this, buf
      ensures r.Ok? ==>
                && r.value <= hi - lo
                && pos == old(pos) + r.value
                && (r.value == 0 ==> old(pos) >= |contents|)
                && (r.value > 0 ==> pos <= |contents|)
                && (forall i :: lo <= i < lo + r.value ==> buf[i] == contents[old(pos) + (i - lo)])
      ensures r.Ok? ==> forall i :: 0 <= i < buf.Length && !(lo <= i < lo + r.value) ==> buf[i] == old(buf[i])
      ensures r.Err? ==> pos == old(pos) && buf[..] == old(buf[..])
      ensures r.Err? ==> r.error == Interrupted || r.error == Fault
      ensures r == Err(Interrupted) ==> |schedule| < old(|schedule|)
      ensures |schedule| <= old(|schedule|)
      ensures old(Quiet(schedule)) ==> Quiet(schedule) && r != Err(Fault)
    {
      var limit := hi - lo;
      if |schedule| > 0 {
        var event := schedule[0];
        schedule := schedule[1..];
        match event
        case Fail => return Err(Fault);
        case Interrupt => return Err(Interrupted);
        case Short(n) => limit := Max(1, Min(limit, n));
      }
      if pos >= |contents| {
        return Ok(0);
      }
      var n := Min(limit, |contents| - pos);
      forall i | 0 <= i < n {
        buf[lo + i] := contents[pos + i];
      }
      pos := pos + n;
      return Ok(n);
    }
  }

  /** Fills `buf[lo..hi]` from the current position; past the end of the file the rest is zero. */
  method ReadOrZeros(file: File, buf: array<Byte>, lo: nat, hi: nat) returns (r: Result<(), IoError>)
    requires lo <= hi <= buf.Length
    modifies file, buf
    ensures r.Ok? ==> buf[lo..hi] == Padded(file.contents, old(file.pos), hi - lo)
    ensures forall i :: 0 <= i < buf.Length && !(lo <= i < hi) ==> buf[i] == old(buf[i])
    ensures r.Err? ==> r.error == Fault
    ensures old(Quiet(file.schedule)) ==> r.Ok? && Quiet(file.schedule)
  {
    var read := lo;
    while read < hi
      invariant lo <= read <= hi
      invariant file.pos == old(file.pos) + (read - lo)
      invariant forall i :: lo <= i < read ==> buf[i] == ByteAt(file.contents, old(file.pos) + (i - lo))
      invariant forall i :: 0 <= i < buf.Length && !(lo <= i < hi) ==> buf[i] == old(buf[i])
      invariant old(Quiet(file.schedule)) ==> Quiet(file.schedule)
      decreases hi - read, |file.schedule|
    {
      var n := file.Read(buf, read, hi);
      match n
      case Ok(got) =>
        if got == 0 {
          forall i | read <= i < hi {
            buf[i] := 0;
          }
          return Ok(());
        }
        read := read + got;
      case Err(e) =>
        if e != Interrupted {
          return Err(e);
        }
    }
    return Ok(());
  }

  /** Fills the whole of `buf`, or reports that the file is too short. */
  method ReadExact(file: File, buf: array<Byte>) returns (r: Result<(), IoError>)
    modifies file, buf
    ensures r.Ok? ==> old(file.pos) + buf.Length <= |file.contents| || buf.Length == 0
    ensures r.Ok? ==> buf[..] == Padded(file.contents, old(file.pos), buf.Length)
    ensures r.Err? ==> r.error == Fault || r.error == UnexpectedEof
    ensures old(Quiet(file.schedule)) ==>
              && Quiet(file.schedule)
              && (r.Ok? <==> buf.Length == 0 || old(file.pos) + buf.Length <= |file.contents|)
  {
    var read := 0;
    while read < buf.Length
      invariant 0 <= read <= buf.Length
      invariant file.pos == old(file.pos) + read
      invariant read > 0 ==> file.pos <= |file.contents|
      invariant forall i :: 0 <= i < read ==> buf[i] == ByteAt(file.contents, old(file.pos) + i)
      invariant old(Quiet(file.schedule)) ==> Quiet(file.schedule)
      decreases buf.Length - read, |file.schedule|
    {
      var n := file.Read(buf, read, buf.Length);
      match n
      case Ok(got) =>
        if got == 0 {
          return Err(UnexpectedEof);
        }
        read := read + got;
      case Err(e) =>
        if e != Interrupted {
          return Err(e);
        }
    }
    return Ok(());
  }
}
