/** The byte-level `write`/`read` system calls on a pipe, as seen by one caller.

    The pipe is a FIFO byte queue: `write` appends to its back and `read`
    pops from its front. How many bytes a single call moves, and whether it
    fails, is the kernel's choice; the model receives that choice from an
    oracle indexed by the call's sequence number and the size requested.
    Whatever the oracle answers, the kernel never reports more bytes than
    were requested, and a read never reports more bytes than the queue holds.
 */
module Syscall {

  /** The kernel's answer to the `k`-th call asking for `n` bytes. */
  type Oracle = (nat, nat) -> int

  /** An oracle that never fails: every call moves at least one byte (when it can). */
  ghost predicate NeverFails(sys: Oracle)
  {
    forall k: nat, n: nat :: sys(k, n) > 0
  }

  /** One call of the primitive made by a transfer loop: where in the buffer it
      started, how many bytes it asked for, and what it returned. */
  datatype Call = Call(offset: nat, requested: nat, result: int)

  function Min(a: int, b: int): int
  {
    if a <= b then a else b
  }

  /** Return value of `write(fd, p, requested)` when the kernel answers `answer`. */
  function WriteResult(answer: int, requested: nat): (r: int)
    ensures r <= requested
    ensures r > 0 <==> answer > 0 && requested > 0
  {
    if answer <= 0 then answer else Min(answer, requested)
  }

  /** Return value of `read(fd, p, requested)` on a queue holding `available`
      bytes whose write end is closed: an empty queue reads as end-of-stream (0)
      unless the call itself fails (a negative answer). */
  function ReadResult(answer: int, requested: nat, available: nat): (r: int)
    ensures r <= requested && r <= available
    ensures r > 0 <==> answer > 0 && requested > 0 && available > 0
    ensures available == 0 ==> r <= 0
    ensures available == 0 && answer >= 0 ==> r == 0
    ensures answer < 0 ==> r == answer
  {
    if answer <= 0 then Min(answer, 0)
    else if available == 0 then 0
    else Min(Min(answer, requested), available)
  }

  /** Bytes moved by a log whose calls each start where the previous one ended:
      the point the last call's transfer reached. */
  function Moved(log: seq<Call>): nat
  {
    if |log| == 0 then 0
    else
      var c := log[|log| - 1];
      c.offset + (if c.result > 0 then c.result else 0)
  }

  /** Every call of the log but the last moved at least one byte. */
  predicate OnlyLastFailed(log: seq<Call>)
  {
    forall i :: 0 <= i < |log| - 1 ==> log[i].result > 0
  }

  /** Every call of the log moved at least one byte. */
  predicate NoneFailed(log: seq<Call>)
  {
    forall i :: 0 <= i < |log| ==> log[i].result > 0
  }

  /** The `i`-th call of `log` starts where the earlier calls left off and asks
      for everything of the `bytes`-byte buffer still missing. */
  ghost predicate AsksRemainder(bytes: nat, log: seq<Call>, i: nat)
    requires i < |log|
  {
    log[i].offset == Moved(log[..i]) < bytes && log[i].requested == bytes - log[i].offset
  }

  /** The log of a `write_all` loop over a buffer of `bytes` bytes: each call asks
      for the unfilled remainder and returns the kernel's answer to call `k0 + i`. */
  ghost predicate WriteLog(bytes: nat, k0: nat, sys: Oracle, log: seq<Call>)
  {
    forall i: nat {:trigger AsksRemainder(bytes, log, i)} :: i < |log| ==>
      AsksRemainder(bytes, log, i) && log[i].result == WriteResult(sys(k0 + i, log[i].requested), log[i].requested)
  }

  /** The log of a `read_all` loop for `bytes` bytes from a queue that held
      `queued` bytes when the loop started. */
  ghost predicate ReadLog(bytes: nat, queued: nat, k0: nat, sys: Oracle, log: seq<Call>)
  {
    forall i: nat {:trigger AsksRemainder(bytes, log, i)} :: i < |log| ==>
      && AsksRemainder(bytes, log, i)
      && log[i].offset <= queued
      && log[i].result == ReadResult(sys(k0 + i, log[i].requested), log[i].requested, queued - log[i].offset)
  }

  lemma WriteLogAppend(bytes: nat, k0: nat, sys: Oracle, log: seq<Call>, c: Call)
    requires WriteLog(bytes, k0, sys, log)
    requires c.offset == Moved(log) < bytes && c.requested == bytes - c.offset
    requires c.result == WriteResult(sys(k0 + |log|, c.requested), c.requested)
    ensures WriteLog(bytes, k0, sys, log + [c])
    ensures Moved(log + [c]) == Moved(log) + (if c.result > 0 then c.result else 0)
  {
    var log' := log + [c];
    assert log'[..|log|] == log;
    forall i: nat | i < |log'|
      ensures AsksRemainder(bytes, log', i)
      ensures log'[i].result == WriteResult(sys(k0 + i, log'[i].requested), log'[i].requested)
    {
      if i < |log| {
        assert log'[..i] == log[..i];
        assert AsksRemainder(bytes, log, i);
      }
    }
  }

  lemma ReadLogAppend(bytes: nat, queued: nat, k0: nat, sys: Oracle, log: seq<Call>, c: Call)
    requires ReadLog(bytes, queued, k0, sys, log)
    requires c.offset == Moved(log) < bytes && c.requested == bytes - c.offset && c.offset <= queued
    requires c.result == ReadResult(sys(k0 + |log|, c.requested), c.requested, queued - c.offset)
    ensures ReadLog(bytes, queued, k0, sys, log + [c])
    ensures Moved(log + [c]) == Moved(log) + (if c.result > 0 then c.result else 0)
  {
    var log' := log + [c];
    assert log'[..|log|] == log;
    forall i: nat | i < |log'|
      ensures AsksRemainder(bytes, log', i) && log'[i].offset <= queued
      ensures log'[i].result == ReadResult(sys(k0 + i, log'[i].requested), log'[i].requested, queued - log'[i].offset)
    {
      if i < |log| {
        assert log'[..i] == log[..i];
        assert AsksRemainder(bytes, log, i);
      }
    }
  }

  lemma AppendOutcome(log: seq<Call>, c: Call)
    requires NoneFailed(log)
    ensures c.result > 0 ==> NoneFailed(log + [c])
    ensures c.result <= 0 ==> !NoneFailed(log + [c])
    ensures OnlyLastFailed(log + [c])
  {
    assert (log + [c])[|log|] == c;
  }
}
