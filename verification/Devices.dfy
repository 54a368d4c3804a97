/** A block device written in whole pages, and what a crash may leave of it
    (programs/makefemtofs.cpp:270-348, 2055-2078). */
module Devices {
  import opened Format

  // ---------------------------------------------------------------- bytes at an offset

  function Splice(d: seq<byte>, off: nat, b: seq<byte>): (r: seq<byte>)
    requires off + |b| <= |d|
    ensures |r| == |d|
  {
    d[..off] + b + d[off + |b|..]
  }

  lemma SpliceTwice(d: seq<byte>, off: nat, a: seq<byte>, b: seq<byte>)
    requires off + |a| + |b| <= |d|
    ensures Splice(Splice(d, off, a), off + |a|, b) == Splice(d, off, a + b)
  {
  }

  /** Changing part of a page and putting the page back changes just that part. */
  lemma SplicePage(d: seq<byte>, page: nat, within: nat, b: seq<byte>)
    requires page + PAGE <= |d| && within + |b| <= PAGE
    ensures Splice(d, page, Splice(d[page..page + PAGE], within, b)) == Splice(d, page + within, b)
  {
    var p := Splice(d[page..page + PAGE], within, b);
    assert forall i: nat :: i < PAGE ==>
      p[i] == if within <= i < within + |b| then b[i - within] else d[page + i];
  }

  // ---------------------------------------------------------------- what was asked of the device

  datatype Op = Write(off: nat, page: seq<byte>) | Flush

  /** Whole pages at page boundaries, inside the device. */
  predicate OpOk(op: Op, size: nat) {
    op.Write? ==> |op.page| == PAGE && op.off % PAGE == 0 && op.off + PAGE <= size
  }

  ghost predicate LogOk(log: seq<Op>, size: nat) {
    forall k: nat {:trigger log[k]} :: k < |log| ==> OpOk(log[k], size)
  }

  /** The content a reader sees after the requests. */
  ghost function Content(base: seq<byte>, log: seq<Op>): (d: seq<byte>)
    requires LogOk(log, |base|)
    ensures |d| == |base|
  {
    if log == [] then base
    else
      var last := log[|log| - 1];
      var before := Content(base, log[..|log| - 1]);
      if last.Write? then Splice(before, last.off, last.page) else before
  }

  /** What the last flush made permanent. */
  ghost function Durable(base: seq<byte>, log: seq<Op>): (d: seq<byte>)
    requires LogOk(log, |base|)
    ensures |d| == |base|
  {
    if log == [] then base
    else if log[|log| - 1].Flush? then Content(base, log)
    else Durable(base, log[..|log| - 1])
  }

  /** A write no flush has followed. */
  ghost predicate Pending(log: seq<Op>, k: nat) {
    k < |log| && log[k].Write? && forall j: nat {:trigger log[j]} :: k <= j < |log| ==> log[j].Write?
  }

  /** The sector at `at` of the crashed device is as it was last flushed, or as some pending write left it. */
  ghost predicate SectorFrom(base: seq<byte>, log: seq<Op>, sector: nat, c: seq<byte>, at: nat)
    requires LogOk(log, |base|) && |c| == |base| && at + sector <= |base|
  {
    || c[at..at + sector] == Durable(base, log)[at..at + sector]
    || exists k: nat {:trigger Pending(log, k)} :: Pending(log, k)
         && log[k].off <= at && at + sector <= log[k].off + PAGE
         && c[at..at + sector] == log[k].page[at - log[k].off..at - log[k].off + sector]
  }

  /** What may be found after a crash: pending writes persist or not, sector by sector, in any combination. */
  ghost predicate CrashState(base: seq<byte>, log: seq<Op>, sector: nat, c: seq<byte>)
    requires LogOk(log, |base|) && sector > 0
  {
    && |c| == |base|
    && forall at: nat {:trigger SectorFrom(base, log, sector, c, at)} :: at + sector <= |base| && at % sector == 0 ==>
         SectorFrom(base, log, sector, c, at)
  }

  /** Sectors hold at least the sixteen bytes of the header's head, and pages are made of sectors. */
  predicate SectorOk(sector: nat) {
    16 <= sector && PAGE % sector == 0
  }

  // ---------------------------------------------------------------- the device

  class Device {
    ghost const base: seq<byte>
    var data: seq<byte>
    ghost var log: seq<Op>

    ghost predicate Valid()
      reads this
    {
      |data| == |base| && |base| % PAGE == 0 && Recorded(base, log, data)
    }

    /** The log accounts for what is on the device; closed (see `Key`). */
    static ghost predicate Recorded(base: seq<byte>, log: seq<Op>, data: seq<byte>) {
      forall k: nat {:trigger Key(k)} :: Key(k) ==> LogOk(log, |base|) && data == Content(base, log)
    }

    static lemma Append(base: seq<byte>, log: seq<Op>, data: seq<byte>, op: Op)
      requires Recorded(base, log, data) && OpOk(op, |base|) && |data| == |base|
      ensures Recorded(base, log + [op], if op.Write? then Splice(data, op.off, op.page) else data)
    {
      assert Key(0);
      assert (log + [op])[..|log|] == log;
    }

    lemma Accounted()
      requires Valid()
      ensures LogOk(log, |base|) && data == Content(base, log)
    {
      assert Key(0);
    }

    /** What is on the device when it is opened counts as durable. */
    constructor (content: seq<byte>)
      requires |content| % PAGE == 0
      ensures Valid() && data == content && base == content && log == []
    {
      base, data, log := content, content, [];
    }

    method WritePage(page: seq<byte>, offset: nat)
      requires Valid() && |page| == PAGE && offset % PAGE == 0 && offset + PAGE <= |data|
      modifies this
      ensures Valid() && data == Splice(old(data), offset, page) && log == old(log) + [Write(offset, page)]
    {
      Append(base, log, data, Write(offset, page));
      data := data[..offset] + page + data[offset + PAGE..];
      log := log + [Write(offset, page)];
    }

    method ReadPage(offset: nat) returns (page: seq<byte>)
      requires Valid() && offset % PAGE == 0 && offset + PAGE <= |data|
      ensures page == data[offset..offset + PAGE]
    {
      page := data[offset..offset + PAGE];
    }

    method Sync()
      requires Valid()
      modifies this`log
      ensures Valid() && log == old(log) + [Flush]
    {
      Append(base, log, data, Flush);
      log := log + [Flush];
    }

    /** Write as much of the bytes as falls into the first page. */
    method WriteChunk(rest: seq<byte>, at: nat) returns (count: nat)
      requires Valid() && rest != [] && at + |rest| <= |data|
      modifies this
      ensures Valid() && count == Chunk(|rest|, at) && data == Splice(old(data), at, rest[..count])
      ensures log == old(log) + [ChunkWrite(old(data), rest, at)]
    {
      var within := at % PAGE;
      var page := at - within;
      count := if |rest| < PAGE - within then |rest| else PAGE - within;
      PageInside(|data|, at);
      SplicePage(data, page, within, rest[..count]);
      WholePage(data, rest, at);
      if within == 0 && count == PAGE {
        WritePage(rest[..count], page);
      } else {
        var whole := ReadPage(page);
        WritePage(whole[..within] + rest[..count] + whole[within + count..], page);
      }
    }

    /** Write bytes anywhere, with nothing but whole-page requests.  On the way each page written holds old
        bytes and new ones, nothing else. */
    method WriteImageAt(bytes: seq<byte>, offset: nat)
      requires Valid() && offset + |bytes| <= |data|
      modifies this
      ensures Valid() && data == Splice(old(data), offset, bytes)
      ensures Extended(old(data), bytes, offset, old(log), log)
      ensures offset % PAGE == 0 && |bytes| == PAGE ==> log == old(log) + [Write(offset, bytes)]
    {
      var rest, at := bytes, offset;
      ghost var done: nat := 0;
      ProgressStart(data, bytes, offset, log);
      while rest != []
        invariant Valid() && Progress(old(data), bytes, offset, old(log), log, done, data)
        invariant rest == bytes[done..] && at == offset + done
        decreases |rest|
      {
        ghost var now, before := data, log;
        var count := WriteChunk(rest, at);
        ProgressNext(old(data), bytes, offset, old(log), before, done, now, rest, at, data, log);
        rest, at, done := rest[count..], at + count, done + count;
      }
      ProgressEnd(old(data), bytes, offset, old(log), log, done, data);
    }

    method ReadImageAt(count: nat, offset: nat) returns (bytes: seq<byte>)
      requires Valid() && offset + count <= |data|
      ensures bytes == data[offset..offset + count]
    {
      bytes := [];
      while |bytes| < count
        invariant |bytes| <= count && bytes == data[offset..offset + |bytes|]
        decreases count - |bytes|
      {
        var at := offset + |bytes|;
        var within := at % PAGE;
        var page := at - within;
        var n := if count - |bytes| < PAGE - within then count - |bytes| else PAGE - within;
        PageInside(|data|, at);
        var whole := ReadPage(page);
        SubSlice(data, page, PAGE, within, n);
        bytes := bytes + whole[within..within + n];
      }
    }
  }

  lemma PageInside(size: nat, at: nat)
    requires size % PAGE == 0 && at < size
    ensures (at - at % PAGE) % PAGE == 0 && at - at % PAGE + PAGE <= size
  {
  }

  /** A page that mixes old bytes with new ones, each in its place. */
  ghost predicate Mixed(was: seq<byte>, bytes: seq<byte>, offset: nat, op: Op) {
    && op.Write? && |op.page| == PAGE && op.off + PAGE <= |was|
    && forall i: nat {:trigger op.page[i]} :: i < PAGE ==>
         || op.page[i] == was[op.off + i]
         || (offset <= op.off + i < offset + |bytes| && op.page[i] == bytes[op.off + i - offset])
  }

  ghost predicate Extended(was: seq<byte>, bytes: seq<byte>, offset: nat, before: seq<Op>, log: seq<Op>) {
    && |before| <= |log| && log[..|before|] == before
    && forall k: nat {:trigger log[k]} :: |before| <= k < |log| ==> Mixed(was, bytes, offset, log[k])
  }

  /** How much of the rest falls into the page at its start. */
  function Chunk(rest: nat, at: nat): (count: nat)
    ensures rest > 0 ==> 0 < count <= rest
  {
    if rest < PAGE - at % PAGE then rest else PAGE - at % PAGE
  }

  /** The page request that puts it there. */
  function ChunkWrite(d: seq<byte>, rest: seq<byte>, at: nat): Op
    requires at < |d| && |d| % PAGE == 0 && rest != []
  {
    var count := Chunk(|rest|, at);
    var page := at - at % PAGE;
    PageInside(|d|, at);
    Write(page, Splice(d[page..page + PAGE], at % PAGE, rest[..count]))
  }

  lemma WriteNext(was: seq<byte>, bytes: seq<byte>, offset: nat, done: nat)
    requires done < |bytes| && offset + |bytes| <= |was| && |was| % PAGE == 0
    ensures var rest, count := bytes[done..], Chunk(|bytes| - done, offset + done);
            && Splice(Splice(was, offset, bytes[..done]), offset + done, rest[..count])
            == Splice(was, offset, bytes[..done + count])
            && rest[count..] == bytes[done + count..]
            && (done == 0 && offset % PAGE == 0 && |bytes| == PAGE ==>
                  count == PAGE && ChunkWrite(was, rest, offset) == Write(offset, bytes))
  {
    var rest, count := bytes[done..], Chunk(|bytes| - done, offset + done);
    SpliceTwice(was, offset, bytes[..done], rest[..count]);
    assert bytes[..done + count] == bytes[..done] + rest[..count];
  }

  lemma ExtendedNext(was: seq<byte>, bytes: seq<byte>, offset: nat, before: seq<Op>, log: seq<Op>, done: nat)
    requires Extended(was, bytes, offset, before, log) && done < |bytes| && offset + |bytes| <= |was|
    requires |was| % PAGE == 0
    ensures Extended(was, bytes, offset, before,
                     log + [ChunkWrite(Splice(was, offset, bytes[..done]), bytes[done..], offset + done)])
  {
    var now := Splice(was, offset, bytes[..done]);
    var at := offset + done;
    var op := ChunkWrite(now, bytes[done..], at);
    var count := Chunk(|bytes| - done, at);
    PageInside(|was|, at);
    forall i: nat | i < PAGE
      ensures || op.page[i] == was[op.off + i]
              || (offset <= op.off + i < offset + |bytes| && op.page[i] == bytes[op.off + i - offset])
    {
      var x := op.off + i;
      if at <= x < at + count {
        assert op.page[i] == bytes[done..][x - at];
      } else {
        assert op.page[i] == now[x];
      }
    }
  }

  lemma WholePage(d: seq<byte>, rest: seq<byte>, at: nat)
    requires at < |d| && |d| % PAGE == 0 && rest != []
    ensures at % PAGE == 0 && Chunk(|rest|, at) == PAGE ==> ChunkWrite(d, rest, at) == Write(at, rest[..PAGE])
  {
    PageInside(|d|, at);
  }

  /** The loop of `WriteImageAt` after `done` bytes. */
  ghost predicate Progress(was: seq<byte>, bytes: seq<byte>, offset: nat, before: seq<Op>, log: seq<Op>, done: nat,
                           now: seq<byte>) {
    && done <= |bytes| && offset + |bytes| <= |was| && |was| % PAGE == 0
    && now == Splice(was, offset, bytes[..done])
    && Extended(was, bytes, offset, before, log)
    && (offset % PAGE == 0 && |bytes| == PAGE ==>
          if done == 0 then log == before else done == PAGE && log == before + [Write(offset, bytes)])
  }

  lemma ProgressStart(was: seq<byte>, bytes: seq<byte>, offset: nat, log: seq<Op>)
    requires offset + |bytes| <= |was| && |was| % PAGE == 0
    ensures Progress(was, bytes, offset, log, log, 0, was)
  {
  }

  lemma ProgressEnd(was: seq<byte>, bytes: seq<byte>, offset: nat, before: seq<Op>, log: seq<Op>, done: nat,
                    now: seq<byte>)
    requires Progress(was, bytes, offset, before, log, done, now) && done == |bytes|
    ensures now == Splice(was, offset, bytes) && Extended(was, bytes, offset, before, log)
    ensures offset % PAGE == 0 && |bytes| == PAGE ==> log == before + [Write(offset, bytes)]
  {
    assert bytes[..done] == bytes;
  }

  lemma ProgressNext(was: seq<byte>, bytes: seq<byte>, offset: nat, before: seq<Op>, log: seq<Op>, done: nat,
                     now: seq<byte>,
                     rest: seq<byte>, at: nat, now': seq<byte>, log': seq<Op>)
    requires Progress(was, bytes, offset, before, log, done, now) && done < |bytes|
    requires rest == bytes[done..] && at == offset + done
    requires log' == log + [ChunkWrite(now, rest, at)] && now' == Splice(now, at, rest[..Chunk(|rest|, at)])
    ensures Progress(was, bytes, offset, before, log', done + Chunk(|rest|, at), now')
    ensures rest[Chunk(|rest|, at)..] == bytes[done + Chunk(|rest|, at)..]
  {
    WriteNext(was, bytes, offset, done);
    ExtendedNext(was, bytes, offset, before, log, done);
  }
}
