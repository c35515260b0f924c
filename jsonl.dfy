/**
 * `JsonlReader` (src/jsonl.rs): reads newline-delimited JSON items from a byte
 * stream through a growable buffer, one item per call, returning "no item" when
 * the stream has nothing more for now and keeping any partial line for later.
 *
 * The inner reader is a queue of chunks, each the bytes one `read` can deliver; an
 * empty chunk is a `read` that returns 0 (no data yet). The JSON decoder is a
 * parameter.
 */
module Jsonl {
  import opened Base

  const NL: byte := 10
  const INITIAL_CAPACITY: nat := 4096

  predicate NoNewline(s: seq<byte>) {
    forall j :: 0 <= j < |s| ==> s[j] != NL
  }

  /** `iter().position(|&b| b == b'\n')`: the index of the first newline, or `|s|` when there is none. */
  function FirstNewline(s: seq<byte>): (p: nat)
    ensures p <= |s|
    ensures p < |s| ==> s[p] == NL
    ensures NoNewline(s[..p])
    ensures p == |s| <==> NoNewline(s)
  {
    if s == [] then 0
    else if s[0] == NL then 0
    else
      var p := 1 + FirstNewline(s[1..]);
      assert s[..p] == [s[0]] + s[1..][..p - 1];
      p
  }

  // ---------------------------------------------------------------------------
  // Lines of a byte stream

  /** The stream of the lines `ls`, each followed by a newline. */
  function Join(ls: seq<seq<byte>>): seq<byte> {
    if ls == [] then [] else ls[0] + [NL] + Join(ls[1..])
  }

  predicate AllNoNewline(ls: seq<seq<byte>>) {
    forall i :: 0 <= i < |ls| ==> NoNewline(ls[i])
  }

  /** The complete (newline-terminated) lines of a stream, in order, without their newlines. */
  function CompleteLines(s: seq<byte>): seq<seq<byte>>
    decreases |s|
  {
    var p := FirstNewline(s);
    if p == |s| then [] else [s[..p]] + CompleteLines(s[p + 1..])
  }

  /** The unterminated rest of a stream after its last newline. */
  function Trailing(s: seq<byte>): seq<byte>
    decreases |s|
  {
    var p := FirstNewline(s);
    if p == |s| then s else Trailing(s[p + 1..])
  }

  lemma {:induction false} JoinAppend(ls: seq<seq<byte>>, l: seq<byte>)
    ensures Join(ls + [l]) == Join(ls) + l + [NL]
    decreases |ls|
  {
    if ls == [] {
      assert ls + [l] == [l];
    } else {
      assert (ls + [l])[0] == ls[0] && (ls + [l])[1..] == ls[1..] + [l];
      JoinAppend(ls[1..], l);
    }
  }

  /** A line, its newline and more: the first complete line is that line. */
  lemma FirstLineOf(l: seq<byte>, rest: seq<byte>)
    requires NoNewline(l)
    ensures FirstNewline(l + [NL] + rest) == |l|
    ensures (l + [NL] + rest)[..|l|] == l && (l + [NL] + rest)[|l| + 1..] == rest
  {
    var s := l + [NL] + rest;
    var p := FirstNewline(s);
    assert s[|l|] == NL;
  }

  lemma LinesAfterFirst(l: seq<byte>, rest: seq<byte>)
    requires NoNewline(l)
    ensures CompleteLines(l + [NL] + rest) == [l] + CompleteLines(rest)
    ensures Trailing(l + [NL] + rest) == Trailing(rest)
  {
    FirstLineOf(l, rest);
  }

  lemma AllNoNewlineTail(ls: seq<seq<byte>>)
    requires ls != [] && AllNoNewline(ls)
    ensures NoNewline(ls[0]) && AllNoNewline(ls[1..])
  {
    assert forall i :: 0 <= i < |ls[1..]| ==> ls[1..][i] == ls[i + 1];
  }

  /**
   * Splitting the stream of lines `ls` followed by `rest` gives `ls` followed by the
   * lines of `rest`, and the same unterminated tail.
   */
  lemma SplitJoin(ls: seq<seq<byte>>, rest: seq<byte>)
    requires AllNoNewline(ls)
    ensures CompleteLines(Join(ls) + rest) == ls + CompleteLines(rest)
    ensures Trailing(Join(ls) + rest) == Trailing(rest)
  {
    SplitJoinLines(ls, rest);
    SplitJoinTrailing(ls, rest);
  }

  lemma {:induction false} SplitJoinLines(ls: seq<seq<byte>>, rest: seq<byte>)
    requires AllNoNewline(ls)
    ensures CompleteLines(Join(ls) + rest) == ls + CompleteLines(rest)
    decreases |ls|
  {
    if ls == [] {
      assert Join(ls) + rest == rest;
    } else {
      var tail := Join(ls[1..]) + rest;
      assert CompleteLines(Join(ls) + rest) == [ls[0]] + CompleteLines(tail) by {
        JoinFirst(ls, rest);
        AllNoNewlineTail(ls);
        LinesAfterFirst(ls[0], tail);
      }
      assert CompleteLines(tail) == ls[1..] + CompleteLines(rest) by {
        AllNoNewlineTail(ls);
        SplitJoinLines(ls[1..], rest);
      }
      ConsAppend(ls, CompleteLines(rest));
    }
  }

  lemma {:induction false} SplitJoinTrailing(ls: seq<seq<byte>>, rest: seq<byte>)
    requires AllNoNewline(ls)
    ensures Trailing(Join(ls) + rest) == Trailing(rest)
    decreases |ls|
  {
    if ls == [] {
      assert Join(ls) + rest == rest;
    } else {
      var tail := Join(ls[1..]) + rest;
      JoinFirst(ls, rest);
      AllNoNewlineTail(ls);
      LinesAfterFirst(ls[0], tail);
      SplitJoinTrailing(ls[1..], rest);
    }
  }

  lemma ConsAppend<T>(s: seq<T>, t: seq<T>)
    requires s != []
    ensures [s[0]] + (s[1..] + t) == s + t
  {
    assert s == [s[0]] + s[1..];
  }

  lemma JoinFirst(ls: seq<seq<byte>>, rest: seq<byte>)
    requires ls != []
    ensures Join(ls) + rest == ls[0] + [NL] + (Join(ls[1..]) + rest)
  {
  }

  /** A stream without a newline has no complete line and is all tail. */
  lemma NoCompleteLines(s: seq<byte>)
    requires NoNewline(s)
    ensures CompleteLines(s) == [] && Trailing(s) == s
  {
  }

  /** Concrete stream: two lines and a partial third. */
  lemma SplitExample()
    ensures CompleteLines([1, NL, 2, 3, NL, 4]) == [[1], [2, 3]]
    ensures Trailing([1, NL, 2, 3, NL, 4]) == [4]
  {
    SplitJoin([[1], [2, 3]], [4]);
    assert Join([[1], [2, 3]]) + [4] == [1, NL, 2, 3, NL, 4];
    NoCompleteLines([4]);
  }

  /** Taking the line that ends at the newline at `p` out of the unconsumed bytes. */
  lemma ConsumeLine(ls: seq<seq<byte>>, pending: seq<byte>, p: nat)
    requires p < |pending| && pending[p] == NL
    ensures Join(ls + [pending[..p]]) + pending[p + 1..] == Join(ls) + pending
  {
    JoinAppend(ls, pending[..p]);
    assert pending == pending[..p] + [NL] + pending[p + 1..];
  }

  lemma NoNewlineAppend(a: seq<byte>, b: seq<byte>)
    ensures NoNewline(a + b) <==> NoNewline(a) && NoNewline(b)
  {
    if NoNewline(a + b) {
      forall j | 0 <= j < |a| ensures a[j] != NL {
        assert (a + b)[j] == a[j];
      }
      forall j | 0 <= j < |b| ensures b[j] != NL {
        assert (a + b)[|a| + j] == b[j];
      }
    }
  }

  lemma AllNoNewlineAppend(ls: seq<seq<byte>>, l: seq<byte>)
    requires AllNoNewline(ls) && NoNewline(l)
    ensures AllNoNewline(ls + [l])
  {
    forall i | 0 <= i < |ls + [l]| ensures NoNewline((ls + [l])[i]) {
      if i < |ls| {
        assert (ls + [l])[i] == ls[i];
      }
    }
  }

  // ---------------------------------------------------------------------------
  // The inner reader

  /** `2^k`. */
  function Pow2(k: nat): (r: nat)
    ensures r >= 1
  {
    if k == 0 then 1 else 2 * Pow2(k - 1)
  }

  function TotalSize(chunks: seq<seq<byte>>): nat {
    if chunks == [] then 0 else |chunks[0]| + 1 + TotalSize(chunks[1..])
  }

  /** The bytes of a chunk queue, in order. */
  function Flat(chunks: seq<seq<byte>>): seq<byte> {
    if chunks == [] then [] else chunks[0] + Flat(chunks[1..])
  }

  /** No chunk is empty: the stream never pauses before its end. */
  predicate NoGap(chunks: seq<seq<byte>>) {
    forall i :: 0 <= i < |chunks| ==> chunks[i] != []
  }

  /** Taking `n` bytes off the head chunk moves them from the queue to what was read. */
  lemma TakeFromHead(consumed: seq<byte>, head: seq<byte>, rest: seq<seq<byte>>, n: nat)
    requires 0 < n <= |head|
    ensures consumed + Flat([head] + rest)
            == consumed + head[..n] + Flat(if n == |head| then rest else [head[n..]] + rest)
  {
    assert ([head] + rest)[0] == head && ([head] + rest)[1..] == rest;
    if n < |head| {
      assert ([head[n..]] + rest)[0] == head[n..] && ([head[n..]] + rest)[1..] == rest;
      assert head[..n] + head[n..] == head;
    } else {
      assert head[..n] == head;
    }
  }

  /** The `Read` the reader wraps: delivers its chunks in order, as much as fits at a time. */
  class ChunkReader {
    /** The whole stream, as the chunks its reads deliver. */
    ghost const input: seq<seq<byte>>
    /** What later reads will deliver. */
    var chunks: seq<seq<byte>>
    /** Every byte delivered so far. */
    ghost var consumed: seq<byte>
    /** How many reads have returned 0. */
    ghost var zeroReads: nat

    /**
     * What was read and what is still queued make up the stream, and a stream
     * without empty chunks keeps none in its queue.
     */
    ghost predicate Valid()
      reads this
    {
      && consumed + Flat(chunks) == Flat(input)
      && (NoGap(input) ==> NoGap(chunks))
    }

    constructor (chunks: seq<seq<byte>>)
      ensures Valid()
      ensures input == chunks && this.chunks == chunks && consumed == [] && zeroReads == 0
    {
      input := chunks;
      this.chunks := chunks;
      consumed := [];
      zeroReads := 0;
    }

    /** A measure that every read returning bytes, or consuming an empty chunk, decreases. */
    function Size(): nat
      reads this
    {
      TotalSize(chunks)
    }

    /**
     * `Read::read` into `dest[from..]`: the start of the first chunk, as much as
     * fits; 0 when the first chunk is empty (which is then used up) or there are
     * no chunks at all.
     */
    method Read(dest: array<byte>, from: nat) returns (n: nat)
      requires Valid() && from < dest.Length
      modifies this, dest
      ensures Valid()
      ensures from + n <= dest.Length
      ensures dest[..from] == old(dest[..from])
      ensures consumed == old(consumed) + dest[from..from + n]
      ensures n == 0 <==> old(chunks) == [] || old(chunks[0]) == []
      ensures n > 0 ==> old(chunks) != [] && n <= |old(chunks[0])|
      ensures n > 0 ==> dest[from..from + n] == old(chunks[0])[..n] && Size() < old(Size())
      ensures n == 0 ==> zeroReads == old(zeroReads) + 1 && Size() <= old(Size())
      ensures n > 0 ==> zeroReads == old(zeroReads)
      ensures n > 0 ==> n == if |old(chunks[0])| < dest.Length - from then |old(chunks[0])| else dest.Length - from
      ensures n > 0 ==> chunks == if n == |old(chunks[0])| then old(chunks[1..]) else [old(chunks[0])[n..]] + old(chunks[1..])
      ensures n == 0 ==> chunks == if old(chunks) == [] then [] else old(chunks[1..])
      ensures n == 0 && NoGap(input) ==> chunks == []
    {
      if chunks == [] {
        zeroReads := zeroReads + 1;
        return 0;
      }
      var head := chunks[0];
      if head == [] {
        assert Flat(chunks) == Flat(chunks[1..]);
        chunks := chunks[1..];
        zeroReads := zeroReads + 1;
        return 0;
      }
      n := if |head| < dest.Length - from then |head| else dest.Length - from;
      forall j | from <= j < from + n {
        dest[j] := head[j - from];
      }
      assert dest[from..from + n] == head[..n];
      TakeFromHead(consumed, head, chunks[1..], n);
      assert [head] + chunks[1..] == chunks;
      consumed := consumed + head[..n];
      if n == |head| {
        chunks := chunks[1..];
      } else {
        chunks := [head[n..]] + chunks[1..];
        assert ([head[n..]] + chunks[1..])[1..] == chunks[1..];
      }
    }
  }

  // ---------------------------------------------------------------------------
  // The decoder

  datatype Result<T> = Ok(value: T) | Err

  /**
   * `serde_json::from_slice`, as a parameter: `decode` reads a `T` from a line, and
   * `isNull` says whether the line is the JSON `null`.
   */
  datatype Decoder<T> = Decoder(decode: seq<byte> -> Result<T>, isNull: seq<byte> -> bool)

  /** `from_slice::<Option<T>>`: `null` is `None`, anything else is a `T`. */
  function DecodeOption<T>(dec: Decoder<T>, line: seq<byte>): (r: Result<Option<T>>)
    ensures dec.isNull(line) ==> r == Ok(None)
    ensures !dec.isNull(line) ==> (r.Ok? <==> dec.decode(line).Ok?)
    ensures !dec.isNull(line) && r.Ok? ==> r.value == Some(dec.decode(line).value)
  {
    if dec.isNull(line) then Ok(None)
    else match dec.decode(line)
      case Ok(v) => Ok(Some(v))
      case Err => Err
  }

  // ---------------------------------------------------------------------------
  // The reader

  class JsonlReader {
    const inner: ChunkReader
    var buf: array<byte>
    var bufOffset: nat
    var bufEnd: nat
    /** The lines consumed so far, in order. */
    ghost var lines: seq<seq<byte>>
    /** How often the buffer has doubled. */
    ghost var doublings: nat
    /**
     * False once a line has failed to decode on the read path: the buffer then keeps
     * that line at offset 0, and since later reads scan only the bytes they add,
     * its newline is never found again (see `ReadItem`).
     */
    ghost var healthy: bool

    /**
     * The buffer holds `buf[bufOffset..bufEnd]`, the bytes read but not consumed; the
     * consumed lines and those bytes make up everything read. The capacity is 4096
     * times a power of two. In a healthy reader every consumed line is free of
     * newlines, and a buffer compacted to offset 0 holds no newline.
     */
    ghost predicate Valid()
      reads this, buf, inner
    {
      Accounts() && (healthy && bufOffset == 0 ==> NoNewline(buf[..bufEnd]))
    }

    /** `Valid` without its clause on newlines in a compacted buffer. */
    ghost predicate Accounts()
      reads this, buf, inner
    {
      && bufOffset <= bufEnd <= buf.Length
      && buf.Length == INITIAL_CAPACITY * Pow2(doublings)
      && (healthy ==> AllNoNewline(lines))
      && Join(lines) + buf[bufOffset..bufEnd] == inner.consumed
      && inner.Valid()
    }

    /** `JsonlReader::new`. */
    constructor (reader: ChunkReader)
      requires reader.Valid() && reader.consumed == []
      ensures Valid() && fresh(buf)
      ensures inner == reader && buf.Length == INITIAL_CAPACITY && bufOffset == 0 && bufEnd == 0
      ensures lines == [] && healthy && doublings == 0
    {
      inner := reader;
      buf := new byte[INITIAL_CAPACITY](_ => 0);
      bufOffset := 0;
      bufEnd := 0;
      lines := [];
      doublings := 0;
      healthy := true;
    }

    /**
     * `copy_within(bufOffset..bufEnd, 0)`: the unconsumed bytes move to the front.
     * The reader compacts only bytes it has found to hold no newline.
     */
    method Compact()
      requires Valid()
      requires healthy ==> NoNewline(buf[bufOffset..bufEnd])
      modifies this, buf
      ensures Valid()
      ensures bufOffset == 0 && bufEnd == old(bufEnd - bufOffset)
      ensures buf[..bufEnd] == old(buf[bufOffset..bufEnd])
      ensures buf == old(buf) && lines == old(lines) && healthy == old(healthy) && doublings == old(doublings)
      ensures unchanged(inner)
    {
      ghost var pending := buf[bufOffset..bufEnd];
      var n := bufEnd - bufOffset;
      forall j | 0 <= j < n {
        buf[j] := buf[bufOffset + j];
      }
      assert buf[..n] == pending;
      bufEnd := n;
      bufOffset := 0;
    }

    /** `buf.resize(buf.len() * 2, 0)`, done only when the buffer is full. */
    method Grow()
      requires Valid() && bufEnd == buf.Length
      modifies this
      ensures Valid() && fresh(buf)
      ensures buf.Length == 2 * old(buf.Length) && doublings == old(doublings) + 1
      ensures buf[..bufEnd] == old(buf[..bufEnd])
      ensures bufOffset == old(bufOffset) && bufEnd == old(bufEnd)
      ensures lines == old(lines) && healthy == old(healthy)
      ensures unchanged(inner)
    {
      var bigger := new byte[2 * buf.Length](_ => 0);
      forall j | 0 <= j < buf.Length {
        bigger[j] := buf[j];
      }
      assert bigger[..bufEnd] == buf[..bufEnd];
      assert bigger[bufOffset..bufEnd] == buf[bufOffset..bufEnd];
      buf := bigger;
      doublings := doublings + 1;
    }

    /** In a healthy reader, the lines consumed so far are the first complete lines read. */
    lemma Accounted()
      requires Valid() && healthy
      ensures CompleteLines(inner.consumed) == lines + CompleteLines(buf[bufOffset..bufEnd])
      ensures Trailing(inner.consumed) == Trailing(buf[bufOffset..bufEnd])
    {
      SplitJoin(lines, buf[bufOffset..bufEnd]);
    }

    /**
     * `read_item`. When the buffer has been consumed from (offset not 0) and its
     * unconsumed bytes hold a newline (`fast`), the line before it is decoded as an
     * optional item, so a `null` line reads as "no item". Otherwise the unconsumed
     * bytes move to the front and the reader reads, doubling a full buffer first,
     * until a read adds a newline, whose line is then decoded as an item, or a read
     * returns 0, which gives "no item" and keeps the partial line. A line that fails
     * to decode is an error and is not consumed.
     */
    method ReadItem<T>(dec: Decoder<T>) returns (r: Result<Option<T>>, ghost line: seq<byte>, ghost fast: bool)
      requires Valid()
      modifies this, buf, inner
      ensures Valid()
      ensures healthy ==> old(healthy)
      ensures healthy ==> CompleteLines(inner.consumed) == lines + CompleteLines(buf[bufOffset..bufEnd])
      ensures fast == (old(bufOffset) != 0 && !NoNewline(old(buf[bufOffset..bufEnd])))
      ensures fast ==> line == old(buf[bufOffset..bufEnd])[..FirstNewline(old(buf[bufOffset..bufEnd]))]
      ensures fast ==> r == DecodeOption(dec, line) && healthy == old(healthy)
      ensures fast ==> unchanged(inner) && buf == old(buf) && unchanged(buf) && bufEnd == old(bufEnd)
      ensures fast && r.Ok? ==> lines == old(lines) + [line] && bufOffset == old(bufOffset) + |line| + 1
      ensures fast && r.Err? ==> lines == old(lines) && bufOffset == old(bufOffset)
      ensures !fast && r == Ok(None) ==>
                lines == old(lines) && bufOffset == 0 && healthy == old(healthy)
                && inner.zeroReads == old(inner.zeroReads) + 1
      ensures !fast && r == Ok(None) && NoGap(inner.input) ==> inner.consumed == Flat(inner.input)
      ensures !fast && r == Ok(None) && NoGap(inner.input) && healthy ==>
                CompleteLines(Flat(inner.input)) == lines && Trailing(Flat(inner.input)) == buf[..bufEnd]
      ensures !fast && r == Ok(None) && healthy ==>
                CompleteLines(inner.consumed) == lines && Trailing(inner.consumed) == buf[..bufEnd]
      ensures !fast && r.Ok? && r.value.Some? ==>
                lines == old(lines) + [line] && dec.decode(line) == Ok(r.value.value)
                && bufOffset == |line| + 1 && healthy == old(healthy)
      ensures !fast && r.Err? ==> lines == old(lines) && dec.decode(line).Err? && bufOffset == 0 && !healthy
      ensures !fast && r.Err? ==> |line| < bufEnd <= buf.Length && buf[..|line|] == line && buf[|line|] == NL
      ensures !fast && r.Err? && old(healthy) ==> NoNewline(line)
    {
      var buffered := false;
      line := [];
      if bufOffset != 0 {
        var p := FirstNewline(buf[bufOffset..bufEnd]);
        if bufOffset + p < bufEnd {
          buffered := true;
          r, line := TakeBufferedLine(dec, p);
        } else {
          Compact();
        }
      }
      fast := buffered;
      if !buffered {
        r, line := ReadUntilLine(dec);
      }
      if healthy {
        Accounted();
      }
    }

    /** How a call of `ReadItem` that takes the read path ends, given the state it started from. */
    ghost predicate ReadPathOutcome<T>(dec: Decoder<T>, r: Result<Option<T>>, line: seq<byte>,
                                       lines0: seq<seq<byte>>, healthy0: bool, zeroReads0: nat)
      reads this, buf, inner
    {
      && (healthy ==> healthy0)
      && (r == Ok(None) ==>
            lines == lines0 && bufOffset == 0 && healthy == healthy0 && inner.zeroReads == zeroReads0 + 1
            && (NoGap(inner.input) ==> inner.chunks == []))
      && (r == Ok(None) && healthy ==>
            bufEnd <= buf.Length
            && CompleteLines(inner.consumed) == lines && Trailing(inner.consumed) == buf[..bufEnd])
      && (r.Ok? && r.value.Some? ==>
            lines == lines0 + [line] && dec.decode(line) == Ok(r.value.value)
            && bufOffset == |line| + 1 && healthy == healthy0)
      && (r.Err? ==> lines == lines0 && dec.decode(line).Err? && bufOffset == 0 && !healthy)
      && (r.Err? ==> |line| < bufEnd <= buf.Length && buf[..|line|] == line && buf[|line|] == NL)
      && (r.Err? && healthy0 ==> NoNewline(line))
    }

    /**
     * The read loop of `ReadItem`, on a buffer compacted to offset 0: reads until a
     * read adds a newline or returns 0.
     */
    method ReadUntilLine<T>(dec: Decoder<T>) returns (r: Result<Option<T>>, ghost line: seq<byte>)
      requires Valid() && bufOffset == 0
      modifies this, buf, inner
      ensures Valid()
      ensures ReadPathOutcome(dec, r, line, old(lines), old(healthy), old(inner.zeroReads))
    {
      var done := false;
      r, line := Ok(None), [];
      while !done
        invariant Valid() && (buf == old(buf) || fresh(buf))
        invariant !done ==>
                    bufOffset == 0 && lines == old(lines) && healthy == old(healthy)
                    && inner.zeroReads == old(inner.zeroReads)
        invariant done ==> ReadPathOutcome(dec, r, line, old(lines), old(healthy), old(inner.zeroReads))
        decreases if done then 0 else inner.Size() + 1
      {
        done, r, line := ReadStep(dec);
      }
    }

    /** One pass of the read loop: a full buffer doubles, then one read; `done` when the loop ends. */
    method ReadStep<T>(dec: Decoder<T>) returns (done: bool, r: Result<Option<T>>, ghost line: seq<byte>)
      requires Valid() && bufOffset == 0
      modifies this, buf, inner
      ensures Valid() && (buf == old(buf) || fresh(buf))
      ensures !done ==>
                bufOffset == 0 && lines == old(lines) && healthy == old(healthy)
                && inner.zeroReads == old(inner.zeroReads) && inner.Size() < old(inner.Size())
      ensures done ==> ReadPathOutcome(dec, r, line, old(lines), old(healthy), old(inner.zeroReads))
    {
      if bufEnd == buf.Length {
        Grow();
      }
      var oldEnd := bufEnd;
      var n;
      ghost var before;
      n, before := ReadMore();
      line := [];
      if n == 0 {
        done, r := true, Ok(None);
        EmptyReadOutcome(dec, old(lines), old(healthy), old(inner.zeroReads));
        return;
      }
      var p := FirstNewline(buf[oldEnd..bufEnd]);
      if oldEnd + p < bufEnd {
        done := true;
        r, line := TakeReadLine(dec, oldEnd, p);
        return;
      }
      NoNewlineAppend(before, buf[oldEnd..bufEnd]);
      done, r := false, Ok(None);
    }

    /** A read of 0 bytes ends the read loop with "no item". */
    lemma EmptyReadOutcome<T>(dec: Decoder<T>, lines0: seq<seq<byte>>, healthy0: bool, zeroReads0: nat)
      requires Valid() && bufOffset == 0
      requires lines == lines0 && healthy == healthy0 && inner.zeroReads == zeroReads0 + 1
      requires NoGap(inner.input) ==> inner.chunks == []
      ensures ReadPathOutcome(dec, Ok(None), [], lines0, healthy0, zeroReads0)
    {
      if healthy {
        Accounted();
        NoCompleteLines(buf[..bufEnd]);
      }
    }

    /** One read of the read loop, appending after `bufEnd`. */
    method ReadMore() returns (n: nat, ghost before: seq<byte>)
      requires Valid() && bufOffset == 0 && bufEnd < buf.Length
      modifies this, buf, inner
      ensures Accounts() && bufOffset == 0
      ensures lines == old(lines) && healthy == old(healthy)
      ensures buf == old(buf)
      ensures before == old(buf[..bufEnd]) && bufEnd == old(bufEnd) + n
      ensures buf[..bufEnd] == before + buf[old(bufEnd)..bufEnd]
      ensures n == 0 ==> inner.zeroReads == old(inner.zeroReads) + 1
      ensures n == 0 && NoGap(inner.input) ==> inner.chunks == []
      ensures n > 0 ==> inner.zeroReads == old(inner.zeroReads) && inner.Size() < old(inner.Size())
    {
      before := buf[..bufEnd];
      ghost var oldEnd := bufEnd;
      ghost var consumed0 := inner.consumed;
      n := inner.Read(buf, bufEnd);
      bufEnd := bufEnd + n;
      Appended(oldEnd, before);
      AccountsAfterRead(consumed0, oldEnd, before);
    }

    /** `Accounts` again once a read has appended to the buffer what it delivered. */
    lemma AccountsAfterRead(consumed0: seq<byte>, oldEnd: nat, before: seq<byte>)
      requires bufOffset == 0 && oldEnd <= bufEnd <= buf.Length
      requires buf.Length == INITIAL_CAPACITY * Pow2(doublings)
      requires healthy ==> AllNoNewline(lines)
      requires Join(lines) + before == consumed0
      requires buf[..bufEnd] == before + buf[oldEnd..bufEnd]
      requires inner.consumed == consumed0 + buf[oldEnd..bufEnd]
      requires inner.Valid()
      ensures Accounts()
    {
    }

    /** After a read that kept `buf[..oldEnd]`, the buffered bytes are the old ones and the new ones. */
    lemma Appended(oldEnd: nat, before: seq<byte>)
      requires oldEnd <= bufEnd <= buf.Length && buf[..oldEnd] == before
      ensures buf[..bufEnd] == before + buf[oldEnd..bufEnd]
    {
      assert buf[..bufEnd] == buf[..oldEnd] + buf[oldEnd..bufEnd];
    }

    /** The fast path of `ReadItem`: the unconsumed bytes hold a newline at `bufOffset + p`. */
    method TakeBufferedLine<T>(dec: Decoder<T>, p: nat) returns (r: Result<Option<T>>, ghost line: seq<byte>)
      requires Valid() && bufOffset + p < bufEnd
      requires p == FirstNewline(buf[bufOffset..bufEnd])
      modifies this
      ensures Valid()
      ensures healthy == old(healthy) && bufEnd == old(bufEnd) && buf == old(buf)
      ensures line == old(buf[bufOffset..bufEnd])[..p] && r == DecodeOption(dec, line)
      ensures r.Ok? ==> lines == old(lines) + [line] && bufOffset == old(bufOffset) + p + 1
      ensures r.Err? ==> lines == old(lines) && bufOffset == old(bufOffset)
    {
      ghost var pending := buf[bufOffset..bufEnd];
      line := pending[..p];
      assert buf[bufOffset..bufOffset + p] == line;
      r := DecodeOption(dec, buf[bufOffset..bufOffset + p]);
      if r.Ok? {
        ConsumeLine(lines, pending, p);
        if healthy {
          AllNoNewlineAppend(lines, line);
        }
        lines := lines + [line];
        bufOffset := bufOffset + p + 1;
        assert buf[bufOffset..bufEnd] == pending[p + 1..];
      }
    }

    /** A newline-free buffer start followed by the bytes before the first new newline is a newline-free line. */
    lemma ReadLineClean(oldEnd: nat, p: nat)
      requires oldEnd + p < bufEnd <= buf.Length
      requires NoNewline(buf[..oldEnd]) && p == FirstNewline(buf[oldEnd..bufEnd])
      ensures NoNewline(buf[..oldEnd + p])
    {
      assert buf[..oldEnd + p] == buf[..oldEnd] + buf[oldEnd..bufEnd][..p];
      NoNewlineAppend(buf[..oldEnd], buf[oldEnd..bufEnd][..p]);
    }

    /**
     * The read path of `ReadItem` once a read has added a newline at `oldEnd + p`:
     * the line before it, from the start of the buffer, is decoded as an item.
     */
    method TakeReadLine<T>(dec: Decoder<T>, oldEnd: nat, p: nat) returns (r: Result<Option<T>>, ghost line: seq<byte>)
      requires Accounts() && bufOffset == 0 && oldEnd + p < bufEnd
      requires healthy ==> NoNewline(buf[..oldEnd])
      requires p == FirstNewline(buf[oldEnd..bufEnd])
      modifies this
      ensures Valid()
      ensures healthy ==> old(healthy)
      ensures line == old(buf[..oldEnd + p])
      ensures r.Ok? ==> r.value.Some? && lines == old(lines) + [line] && dec.decode(line) == Ok(r.value.value)
                        && bufOffset == |line| + 1 && healthy == old(healthy)
      ensures r.Err? ==> lines == old(lines) && dec.decode(line).Err? && bufOffset == 0 && !healthy
      ensures r.Err? ==> |line| < bufEnd <= buf.Length && buf[..|line|] == line && buf[|line|] == NL
      ensures r.Err? && old(healthy) ==> NoNewline(line)
      ensures bufEnd == old(bufEnd) && buf == old(buf)
    {
      var i := oldEnd + p;
      line := buf[..i];
      if healthy {
        ReadLineClean(oldEnd, p);
      }
      var item := dec.decode(buf[..i]);
      if item.Err? {
        healthy := false;
        return Err, line;
      }
      assert buf[..bufEnd][..i] == line;
      ConsumeLine(lines, buf[..bufEnd], i);
      if healthy {
        AllNoNewlineAppend(lines, line);
      }
      lines := lines + [line];
      bufOffset := i + 1;
      assert buf[bufOffset..bufEnd] == buf[..bufEnd][i + 1..];
      r := Ok(Some(item.value));
    }
  }

  /**
   * A fresh reader over the stream `A⏎` reads the line `A` (with a decoder that
   * returns a line's bytes).
   */
  method FirstLineExample() returns (r: Result<Option<seq<byte>>>)
    ensures r == Ok(Some([65]))
  {
    var source := new ChunkReader([[65, NL]]);
    var reader := new JsonlReader(source);
    var dec := Decoder(l => Ok(l), l => false);
    OneLineStream(source.input);
    ghost var line, fast;
    r, line, fast := reader.ReadItem(dec);
    if r == Ok(None) {
      assert false;
    } else if r.Ok? {
      assert Join(reader.lines) + reader.buf[reader.bufOffset..reader.bufEnd] + Flat(source.chunks) == Flat(source.input);
      OnlyLine(line, reader.buf[reader.bufOffset..reader.bufEnd] + Flat(source.chunks));
      assert r.value.Some?;
      assert dec.decode(line) == Ok(line);
      assert r.value.value == line;
    }
  }

  /** The stream `A⏎` has no gap and the one complete line `A`. */
  lemma OneLineStream(input: seq<seq<byte>>)
    requires input == [[65, NL]]
    ensures NoGap(input) && Flat(input) == [65, NL]
    ensures CompleteLines(Flat(input)) == [[65]]
  {
    assert input[1..] == [];
    SplitJoin([[65]], []);
    assert Join([[65]]) + [] == [65, NL];
    NoCompleteLines([]);
  }

  /** The only line with which `A⏎` can start is `A`. */
  lemma OnlyLine(line: seq<byte>, rest: seq<byte>)
    requires Join([line]) + rest == [65, NL]
    ensures line == [65]
  {
    assert Join([line]) == line + [NL] + Join([]);
    var all := line + [NL] + rest;
    assert all == [65, NL];
    assert all[|line|] == NL;
    assert |line| == 1;
    assert all[0] == line[0];
  }
}
