/** `write_all` and `read_all`: loops that keep calling the byte-level primitive
    with the unfilled remainder of the buffer until every byte has moved, and
    give up with -1 on the first call that returns zero or less. */
module Channel {
  import opened IntCodec
  import opened Syscall

  lemma PrefixExtend<T>(s: seq<T>, i: nat, j: nat)
    requires i <= j <= |s|
    ensures s[..i] + s[i..j] == s[..j]
    ensures s[..|s|] == s
  {
  }

  lemma AppendChunk<T>(q: seq<T>, buf: seq<T>, i: nat, j: nat)
    requires i <= j <= |buf|
    ensures (q + buf[..i]) + buf[i..j] == q + buf[..j]
    ensures buf[..|buf|] == buf
  {
    PrefixExtend(buf, i, j);
  }

  lemma PopFront<T>(buf: seq<T>, rest: seq<T>, r: nat)
    requires r <= |rest|
    ensures (buf + rest[..r]) + rest[r..] == buf + rest
  {
    assert rest == rest[..r] + rest[r..];
  }

  /** `write_all(fd, buf, |buf|)` on a pipe whose queue holds `q`; the oracle's
      calls are numbered from `k0`. Returns the C result, the queue afterwards
      and the calls made. */
  method WriteAll(q: seq<byte>, buf: seq<byte>, sys: Oracle, k0: nat)
    returns (ret: int, q': seq<byte>, log: seq<Call>)
    ensures WriteLog(|buf|, k0, sys, log) && OnlyLastFailed(log)
    ensures ret == |buf| || ret == -1
    ensures ret == |buf| <==> NoneFailed(log)
    ensures ret == |buf| ==> Moved(log) == |buf| && q' == q + buf
    ensures ret == -1 ==> |log| > 0 && log[|log| - 1].result <= 0
    ensures ret == -1 ==> Moved(log) < |buf| && q' == q + buf[..Moved(log)]
    ensures |buf| == 0 ==> ret == 0 && log == []
    ensures NeverFails(sys) ==> ret == |buf|
  {
    var total: nat := 0;
    q' := q;
    log := [];
    while total < |buf|
      invariant total <= |buf|
      invariant total == Moved(log)
      invariant WriteLog(|buf|, k0, sys, log)
      invariant NoneFailed(log)
      invariant q' == q + buf[..total]
      decreases |buf| - total
    {
      var n := |buf| - total;
      var written := WriteResult(sys(k0 + |log|, n), n);
      var call := Call(total, n, written);
      WriteLogAppend(|buf|, k0, sys, log, call);
      AppendOutcome(log, call);
      log := log + [call];
      if written <= 0 {
        return -1, q', log;
      }
      AppendChunk(q, buf, total, total + written);
      q' := q' + buf[total..total + written];
      total := total + written;
    }
    AppendChunk(q, buf, total, total);
    ret := total;
  }

  /** `read_all(fd, buf, bytes)` on a pipe whose write end is closed and whose
      queue holds `q`; the oracle's calls are numbered from `k0`. Returns the C
      result, the bytes placed in the buffer, the queue afterwards and the
      calls made. */
  method ReadAll(q: seq<byte>, bytes: nat, sys: Oracle, k0: nat)
    returns (ret: int, buf: seq<byte>, q': seq<byte>, log: seq<Call>)
    ensures ReadLog(bytes, |q|, k0, sys, log) && OnlyLastFailed(log)
    ensures ret == bytes || ret == -1
    ensures ret == bytes <==> NoneFailed(log)
    ensures buf + q' == q && |buf| == Moved(log)
    ensures ret == bytes ==> |buf| == bytes
    ensures ret == -1 ==> |log| > 0 && log[|log| - 1].result <= 0 && |buf| < bytes
    ensures |q| < bytes ==> ret == -1
    ensures bytes == 0 ==> ret == 0 && log == []
    ensures NeverFails(sys) && bytes <= |q| ==> ret == bytes
  {
    var total: nat := 0;
    buf := [];
    q' := q;
    log := [];
    while total < bytes
      invariant total <= bytes
      invariant total == Moved(log) == |buf|
      invariant ReadLog(bytes, |q|, k0, sys, log)
      invariant NoneFailed(log)
      invariant buf + q' == q
      decreases bytes - total
    {
      var n := bytes - total;
      var r := ReadResult(sys(k0 + |log|, n), n, |q'|);
      var call := Call(total, n, r);
      ReadLogAppend(bytes, |q|, k0, sys, log, call);
      AppendOutcome(log, call);
      log := log + [call];
      if r <= 0 {
        return -1, buf, q', log;
      }
      var chunk := q'[..r];
      PopFront(buf, q', r);
      buf := buf + chunk;
      q' := q'[r..];
      total := total + r;
    }
    ret := total;
  }
}
