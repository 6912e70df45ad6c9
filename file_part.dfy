/**
  The CONTENT phase of a file-backed multipart part.

  The part keeps a read cursor `position`, the file length fixed when the
  part was built, and a file channel opened lazily on the first read. Each
  copy or transfer call moves some bytes of the file to a target, advances
  the cursor by the count moved, and finishes the part (state POST_CONTENT,
  channel closed) when the cursor reaches the length or the primitive
  reports a negative count.

  The file, the channel and the targets are modelled as small classes; the
  transfer primitives are nondeterministic: they may move any number of the
  file's remaining bytes up to the requested maximum, or report -1.
*/
module FileParts {
  import opened Common

  /** The phases of a multipart part (the boundary and trailer phases belong to the base class). */
  datatype PartState = PreContent | Content | PostContent | Done

  /** A file on disk: its current bytes. Other programs may rewrite it. */
  class DiskFile {
    var bytes: seq<byte>

    constructor (bytes: seq<byte>)
      ensures this.bytes == bytes
    {
      this.bytes := bytes;
    }
  }

  /** The bytes of `f` from `from` on; none when `from` is past the end. */
  function Tail(f: seq<byte>, from: nat, n: int): seq<byte>
    requires n > 0 ==> from + n <= |f|
  {
    if n > 0 then f[from..from + n] else []
  }

  /** How many bytes of `f` lie at or after `from`. */
  function Remaining(f: seq<byte>, from: nat): nat {
    if from <= |f| then |f| - from else 0
  }

  /** A read-only file channel with its own position. */
  class FileChannel {
    const file: DiskFile
    var pos: nat
    var open: bool
    /** How many times the channel has actually been closed. */
    ghost var closes: nat

    /** The handle is released exactly once: closed means closed one time. */
    ghost predicate Valid()
      reads this
    {
      closes == (if open then 0 else 1)
    }

    /** `new RandomAccessFile(file, "r").getChannel()` */
    constructor Open(file: DiskFile)
      ensures Valid() && this.file == file && pos == 0 && open
    {
      this.file := file;
      pos := 0;
      open := true;
      closes := 0;
    }

    /** Closing a channel that is already closed does nothing. */
    method Close()
      requires Valid()
      modifies this
      ensures Valid() && !open && pos == old(pos)
      ensures !old(open) ==> unchanged(this)
    {
      if open {
        open := false;
        closes := closes + 1;
      }
    }

    /**
      `transferTo(position, count, target)`: moves up to `count` bytes from
      `position` of the file to `target`, without moving the channel's own
      position. A closed channel reports -1.
    */
    method TransferTo(position: nat, count: nat, target: Sink) returns (n: int)
      modifies target
      ensures -1 <= n <= count && n <= Remaining(file.bytes, position)
      ensures !open ==> n == -1
      ensures target.written == old(target.written) + Tail(file.bytes, position, n)
    {
      if !open {
        n := -1;
      } else {
        var most := if count < Remaining(file.bytes, position) then count else Remaining(file.bytes, position);
        n :| -1 <= n <= most;
        target.written := target.written + Tail(file.bytes, position, n);
      }
    }
  }

  /** A writable byte channel: all it keeps is what was written to it. */
  class Sink {
    var written: seq<byte>

    constructor ()
      ensures written == []
    {
      written := [];
    }
  }

  /** A byte buffer of fixed capacity. */
  class ByteBuf {
    var content: seq<byte>
    const capacity: nat

    ghost predicate Valid()
      reads this
    {
      |content| <= capacity
    }

    constructor (capacity: nat)
      ensures Valid() && content == [] && this.capacity == capacity
    {
      this.capacity := capacity;
      content := [];
    }

    /** `writableBytes()` */
    function Writable(): nat
      requires Valid()
      reads this
    {
      capacity - |content|
    }

    /**
      `writeBytes(channel, length)`: reads up to `length` bytes from the
      channel's position into the buffer and advances the channel. -1 means
      end of file or a closed channel.
    */
    method WriteBytes(ch: FileChannel, length: nat) returns (n: int)
      requires Valid() && length <= Writable()
      modifies this, ch
      ensures Valid() && ch.open == old(ch.open) && ch.closes == old(ch.closes)
      ensures -1 <= n <= length && n <= Remaining(ch.file.bytes, old(ch.pos))
      ensures !ch.open ==> n == -1
      ensures content == old(content) + Tail(ch.file.bytes, old(ch.pos), n)
      ensures ch.pos == old(ch.pos) + (if n > 0 then n else 0)
    {
      if !ch.open {
        n := -1;
      } else {
        var rest := Remaining(ch.file.bytes, ch.pos);
        var most := if length < rest then length else rest;
        n :| -1 <= n <= most;
        content := content + Tail(ch.file.bytes, ch.pos, n);
        if n > 0 {
          ch.pos := ch.pos + n;
        }
      }
    }
  }

  // ---------------------------------------------------------------------------
  // The cursor as a value, and what one call does to it
  // ---------------------------------------------------------------------------

  /** The part's read cursor and phase. */
  datatype Cursor = Cursor(position: nat, state: PartState)

  /** Whether a call ends the content phase: the cursor reached the limit, or the count was negative. */
  predicate Ends(position: nat, n: int, limit: nat) {
    position == limit || n < 0
  }

  /**
    One copy or transfer call that reported `n`, against the length `limit`:
    the cursor advances only on a positive count, and the part finishes when
    `Ends` holds afterwards.
  */
  function Step(c: Cursor, n: int, limit: nat): (r: Cursor)
    ensures r.state == PostContent || r.state == c.state
  {
    var p := if n > 0 then c.position + n else c.position;
    if Ends(p, n, limit) then Cursor(p, PostContent) else Cursor(p, c.state)
  }

  /** A sequence of calls reporting the counts `ns`, in order. */
  function Run(c: Cursor, ns: seq<int>, limit: nat): Cursor
    decreases |ns|
  {
    if ns == [] then c else Run(Step(c, ns[0], limit), ns[1..], limit)
  }

  /** The sum of the positive counts among `ns`. */
  function PositiveSum(ns: seq<int>): nat {
    if ns == [] then 0 else (if ns[0] > 0 then ns[0] else 0) + PositiveSum(ns[1..])
  }

  /** Every count is negative or at most the bytes left before `limit`. */
  predicate Admissible(c: Cursor, ns: seq<int>, limit: nat)
    decreases |ns|
  {
    ns == [] || ((ns[0] < 0 || c.position + ns[0] <= limit) && Admissible(Step(c, ns[0], limit), ns[1..], limit))
  }

  /** How many calls of the run move the part into POST_CONTENT. */
  function Finishings(c: Cursor, ns: seq<int>, limit: nat): nat
    decreases |ns|
  {
    if ns == [] then 0
    else
      var entered := if c.state != PostContent && Step(c, ns[0], limit).state == PostContent then 1 else 0;
      entered + Finishings(Step(c, ns[0], limit), ns[1..], limit)
  }

  // ---------------------------------------------------------------------------
  // The part
  // ---------------------------------------------------------------------------

  class FilePart {
    const file: DiskFile
    /** The file's length when the part was built. */
    const length: nat
    var channel: FileChannel?
    var position: nat
    var state: PartState
    var slowTarget: bool
    /** How many channels the part has opened. */
    ghost var opens: nat

    /** At most one channel is ever opened, on this part's file, and it is released at most once. */
    ghost predicate Valid()
      reads this, channel
    {
      && opens == (if channel == null then 0 else 1)
      && (channel != null ==> channel.file == file && channel.Valid())
    }

    ghost function Progress(): Cursor
      reads this
    {
      Cursor(position, state)
    }

    /** Where a `writeBytes` read would start: the channel's own position (0 before it is opened). */
    ghost function ReadPos(): nat
      reads this, channel
    {
      if channel == null then 0 else channel.pos
    }

    /** Whether the next read finds an open channel (a fresh one when none is open yet). */
    ghost function Readable(): bool
      reads this, channel
    {
      channel == null || channel.open
    }

    constructor (file: DiskFile)
      ensures Valid() && this.file == file && length == ContentLength()
      ensures position == 0 && channel == null && state == PreContent && !slowTarget
    {
      this.file := file;
      length := |file.bytes|;
      channel := null;
      position := 0;
      state := PreContent;
      slowTarget := false;
      opens := 0;
    }

    /** Opens the channel on first use and hands back the same one afterwards. */
    method GetChannel() returns (ch: FileChannel)
      requires Valid()
      modifies this`channel, this`opens
      ensures Valid() && ch == channel
      ensures old(channel) != null ==> ch == old(channel) && opens == old(opens)
      ensures old(channel) == null ==> fresh(ch) && ch.open && ch.pos == 0
    {
      if channel == null {
        channel := new FileChannel.Open(file);
        opens := opens + 1;
      }
      ch := channel;
    }

    /**
      `getContentLength()`: the file's current length. It equals `length`
      as long as the file is unchanged since construction, and it is the
      limit `CopyContentInto` finishes at.
    */
    function ContentLength(): nat
      reads this, file
    {
      |file.bytes|
    }

    /**
      Fills the target buffer from the channel's position. Finishes the part
      when the cursor reaches the file's CURRENT length or the read reports
      a negative count; `n` is the count the read reported.
    */
    method CopyContentInto(target: ByteBuf) returns (ghost n: int)
      requires Valid() && target.Valid()
      modifies this, channel, target
      ensures Valid() && target.Valid() && channel != null
      ensures old(channel) != null ==> channel == old(channel)
      ensures old(channel) == null ==> fresh(channel)
      ensures -1 <= n <= old(target.Writable()) && n <= Remaining(file.bytes, old(ReadPos()))
      ensures target.content == old(target.content) + Tail(file.bytes, old(ReadPos()), n)
      ensures Progress() == Step(old(Progress()), n, ContentLength()) && slowTarget == old(slowTarget)
      ensures !old(Readable()) ==> n == -1 && state == PostContent
      ensures ReadPos() == old(ReadPos()) + (if n > 0 then n else 0)
      ensures Ends(position, n, ContentLength()) ==> !channel.open
      ensures !Ends(position, n, ContentLength()) ==> channel.open == old(Readable())
      ensures old(ReadPos() == position) ==> ReadPos() == position
      ensures ContentLength() == old(ContentLength())
      ensures old(ContentLength() == length && ReadPos() == position && position <= length) ==> position <= ContentLength() == length
    {
      var ch := GetChannel();
      var transferred := target.WriteBytes(ch, target.Writable());
      n := transferred;
      if transferred > 0 {
        position := position + transferred;
      }
      if position == ContentLength() || transferred < 0 {
        state := PostContent;
        if ch.open {
          ch.Close();
        }
      }
    }

    /**
      Moves at most `chunkSize` bytes from the cursor (not the channel's
      position) straight to `target` and returns the raw count. Finishes the
      part when the cursor reaches `length` or the count is negative, and
      otherwise flags the target as slow.
    */
    method TransferContentTo(target: Sink, chunkSize: nat) returns (n: int)
      requires Valid() && chunkSize > 0
      modifies this, channel, target
      ensures Valid() && channel != null
      ensures old(channel) != null ==> channel == old(channel)
      ensures old(channel) == null ==> fresh(channel)
      ensures -1 <= n <= chunkSize && n <= Remaining(file.bytes, old(position))
      ensures target.written == old(target.written) + Tail(file.bytes, old(position), n)
      ensures Progress() == Step(old(Progress()), n, length)
      ensures !old(Readable()) ==> n == -1 && state == PostContent
      ensures slowTarget == if Ends(position, n, length) then old(slowTarget) else true
      ensures ReadPos() == old(ReadPos())
      ensures Ends(position, n, length) ==> !channel.open
      ensures !Ends(position, n, length) ==> channel.open == old(Readable())
      ensures ContentLength() == old(ContentLength())
      ensures old(ContentLength() == length && position <= length) ==> position <= ContentLength() == length
    {
      var ch := GetChannel();
      var transferred := ch.TransferTo(position, chunkSize, target);
      if transferred > 0 {
        position := position + transferred;
      }
      if position == length || transferred < 0 {
        state := PostContent;
        if ch.open {
          ch.Close();
        }
      } else {
        slowTarget := true;
      }
      n := transferred;
    }

    /** Releases the channel, if one was opened; harmless when it is already closed. */
    method Close()
      requires Valid()
      modifies channel
      ensures Valid()
      ensures channel != null ==> !channel.open && channel.pos == old(channel.pos)
      ensures old(channel != null && !channel.open) ==> unchanged(channel)
    {
      if channel != null {
        channel.Close();
      }
    }
  }

  // ---------------------------------------------------------------------------
  // Properties of runs of calls
  // ---------------------------------------------------------------------------

  /** The cursor has advanced by exactly the sum of the positive counts. */
  lemma {:induction false} RunPosition(c: Cursor, ns: seq<int>, limit: nat)
    ensures Run(c, ns, limit).position == c.position + PositiveSum(ns)
    decreases |ns|
  {
    if ns != [] {
      RunPosition(Step(c, ns[0], limit), ns[1..], limit);
    }
  }

  /** When no count exceeds the bytes left, the cursor never passes the limit. */
  lemma {:induction false} RunBounded(c: Cursor, ns: seq<int>, limit: nat)
    requires c.position <= limit && Admissible(c, ns, limit)
    ensures c.position <= Run(c, ns, limit).position <= limit
    decreases |ns|
  {
    if ns != [] {
      RunBounded(Step(c, ns[0], limit), ns[1..], limit);
    }
  }

  /** Once finished, a part stays finished. */
  lemma {:induction false} FinishedStays(c: Cursor, ns: seq<int>, limit: nat)
    requires c.state == PostContent
    ensures Run(c, ns, limit).state == PostContent
    decreases |ns|
  {
    if ns != [] {
      FinishedStays(Step(c, ns[0], limit), ns[1..], limit);
    }
  }

  /** A negative count anywhere in the run finishes the part. */
  lemma {:induction false} NegativeFinishes(c: Cursor, ns: seq<int>, limit: nat, i: nat)
    requires i < |ns| && ns[i] < 0
    ensures Run(c, ns, limit).state == PostContent
    decreases |ns|
  {
    if i == 0 {
      FinishedStays(Step(c, ns[0], limit), ns[1..], limit);
    } else {
      NegativeFinishes(Step(c, ns[0], limit), ns[1..], limit, i - 1);
    }
  }

  /** A run moves the part into POST_CONTENT exactly once if it ends there having started elsewhere, else never. */
  lemma {:induction false} FinishesOnce(c: Cursor, ns: seq<int>, limit: nat)
    ensures Finishings(c, ns, limit) == (if c.state != PostContent && Run(c, ns, limit).state == PostContent then 1 else 0)
    decreases |ns|
  {
    if ns != [] {
      var d := Step(c, ns[0], limit);
      FinishesOnce(d, ns[1..], limit);
      if d.state == PostContent {
        FinishedStays(d, ns[1..], limit);
      }
    }
  }

  /** Without negative counts, a finished part sits exactly at the limit. */
  lemma {:induction false} FinishedAtLimit(c: Cursor, ns: seq<int>, limit: nat)
    requires c.state == PostContent ==> c.position == limit
    requires Admissible(c, ns, limit)
    requires forall i :: 0 <= i < |ns| ==> ns[i] >= 0
    ensures Run(c, ns, limit).state == PostContent ==> Run(c, ns, limit).position == limit
    decreases |ns|
  {
    if ns != [] {
      FinishedAtLimit(Step(c, ns[0], limit), ns[1..], limit);
    }
  }

  /** The last call of a non-empty run decides where it ends. */
  lemma {:induction false} RunLast(c: Cursor, ns: seq<int>, limit: nat)
    requires ns != []
    ensures Run(c, ns, limit) == Step(Run(c, ns[..|ns| - 1], limit), ns[|ns| - 1], limit)
    decreases |ns|
  {
    if |ns| > 1 {
      RunLast(Step(c, ns[0], limit), ns[1..], limit);
      assert ns[1..][..|ns| - 2] == ns[..|ns| - 1][1..];
    }
  }

  /**
    Without negative counts and with no count beyond the bytes left, a part
    that starts unfinished finishes exactly when the bytes delivered add up
    to the length.
  */
  lemma FinishesAtLength(c: Cursor, ns: seq<int>, limit: nat)
    requires c.state != PostContent && c.position <= limit
    requires Admissible(c, ns, limit)
    requires forall i :: 0 <= i < |ns| ==> ns[i] >= 0
    ensures Run(c, ns, limit).state == PostContent <==> ns != [] && c.position + PositiveSum(ns) == limit
  {
    RunPosition(c, ns, limit);
    FinishedAtLimit(c, ns, limit);
    if ns != [] {
      RunLast(c, ns, limit);
    }
  }
}
