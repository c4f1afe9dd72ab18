/** The count-prefixed message sent from the child (producer) to the parent
    (consumer) over an unnamed pipe.

    The producer checks the count it was given, then writes one `int` holding
    the count followed by the `int`s of the array, each with `write_all`, and
    closes its end. The consumer reads one `int` with `read_all`, takes it as
    the count without checking it, and reads that many `int`s. The two
    processes are run one after the other over a shared byte queue: the
    producer to completion (its write end then closed), then the consumer.
 */
module UnnamedPipe {
  import opened IntCodec
  import opened Syscall
  import opened Channel

  /** Bytes the producer may fill with array elements. */
  const BUFFER_SIZE: nat := 1024

  /** Largest count the producer accepts: `BUFFER_SIZE / sizeof(int)`. */
  const MAX_COUNT: nat := BUFFER_SIZE / INT_SIZE

  /** One more than the largest value of a 64-bit `size_t`. */
  const TWO_64: nat := 0x1_0000_0000_0000_0000

  datatype Option<T> = None | Some(value: T)

  /** The message: a count and the array it counts. */
  datatype Message = Message(num: int32, arr: seq<int32>)

  /** How the producer process ends. */
  datatype ProducerExit =
    | CountRejected   // the count failed the bound check
    | InputFailed     // fewer integers were available than the count promised
    | WriteFailed     // a `write_all` returned -1
    | Sent            // the whole message is in the pipe

  /** How the consumer process ends. */
  datatype ConsumerExit =
    | ReadFailed                 // a `read_all` returned -1
    | Received(msg: Message)     // the count and the array were read

  /** The producer's bound check on the count it was given: it rejects when
      `num <= 0 || num > BUFFER_SIZE / sizeof(int)`. */
  function CountAccepted(num: int32): (ok: bool)
    ensures ok <==> 1 <= num <= 256
  {
    !(num <= 0 || num > MAX_COUNT)
  }

  /** `num * sizeof(int)` as C computes it: `num` is converted to a 64-bit
      `size_t` and the product wraps modulo 2^64. */
  function PayloadBytes(num: int32): (n: nat)
    ensures n == (num * INT_SIZE) % TWO_64
    ensures n % INT_SIZE == 0
    ensures num >= 0 ==> n == INT_SIZE * num
  {
    if num >= 0 then INT_SIZE * num
    else
      WrapOnce(num * INT_SIZE, TWO_64);
      TWO_64 as int + INT_SIZE as int * num as int
  }

  lemma WrapOnce(a: int, m: int)
    requires 0 < m && -m <= a < 0
    ensures a % m == a + m
  {
  }

  /** The bytes the producer puts in the pipe: the count, then the array. */
  function Frame(m: Message): seq<byte>
  {
    EncodeInt(m.num) + EncodeInts(m.arr)
  }

  /** What the consumer makes of a closed pipe holding `bs` when every read
      succeeds: the first `int` is the count, taken unchecked, and the next
      `num * sizeof(int)` bytes are the array. `None` when the pipe runs dry
      first. */
  function DecodeFrame(bs: seq<byte>): Option<Message>
  {
    if |bs| < INT_SIZE then None
    else
      var num := DecodeInt(bs[..INT_SIZE]);
      var n := PayloadBytes(num);
      if |bs| - INT_SIZE < n then None
      else Some(Message(num, DecodeInts(bs[INT_SIZE..INT_SIZE + n])))
  }

  /** The consumer reads back exactly the message the producer framed, for any
      count that matches its array, whether or not the producer's bound check
      would accept it. */
  lemma {:induction false} FrameRoundTrip(m: Message)
    requires |m.arr| == m.num
    ensures DecodeFrame(Frame(m)) == Some(m)
  {
    var bs := Frame(m);
    assert bs[..INT_SIZE] == EncodeInt(m.num);
    DecodeEncodeInt(m.num);
    assert bs[INT_SIZE..INT_SIZE + PayloadBytes(m.num)] == EncodeInts(m.arr);
    DecodeEncodeInts(m.arr);
  }

  /** Whatever the consumer decodes is framed by exactly the bytes it consumed. */
  lemma {:induction false} DecodedFrameIsPrefix(bs: seq<byte>, m: Message)
    requires DecodeFrame(bs) == Some(m)
    ensures Frame(m) <= bs
  {
    var n := PayloadBytes(m.num);
    EncodeDecodeInt(bs[..INT_SIZE]);
    EncodeDecodeInts(bs[INT_SIZE..INT_SIZE + n]);
    assert Frame(m) == bs[..INT_SIZE] + bs[INT_SIZE..INT_SIZE + n];
    assert bs[..INT_SIZE + n] == bs[..INT_SIZE] + bs[INT_SIZE..INT_SIZE + n];
  }

  /** A cut-off frame never decodes: a partly written message is not delivered. */
  lemma {:induction false} TruncatedFrameIncomplete(m: Message, k: nat)
    requires |m.arr| == m.num
    requires k < |Frame(m)|
    ensures DecodeFrame(Frame(m)[..k]) == None
  {
    var bs := Frame(m)[..k];
    if k >= INT_SIZE {
      assert bs[..INT_SIZE] == EncodeInt(m.num);
      DecodeEncodeInt(m.num);
    }
  }

  lemma PrefixOfConcat<T>(a: seq<T>, b: seq<T>, k: nat)
    requires k <= |b|
    ensures (a + b)[..|a| + k] == a + b[..k]
    ensures k <= |a| ==> (a + b)[..k] == a[..k]
  {
  }

  /** Lines that write the message in the child branch: `write_all` the count,
      then `write_all` the array, into a fresh pipe; `ok` is false when either
      returned -1. */
  method SendFrame(m: Message, sys: Oracle) returns (ok: bool, q: seq<byte>, log: seq<Call>)
    ensures ok ==> q == Frame(m)
    ensures !ok ==> |q| < |Frame(m)| && q == Frame(m)[..|q|]
    ensures !ok ==> |log| > 0 && log[|log| - 1].result <= 0
    ensures NeverFails(sys) ==> ok
  {
    var head := EncodeInt(m.num);
    var body := EncodeInts(m.arr);
    assert Frame(m) == head + body;
    var r1, q1, log1 := WriteAll([], head, sys, 0);
    if r1 == -1 {
      PrefixOfConcat(head, body, 0);
      return false, q1, log1;
    }
    var r2, q2, log2 := WriteAll(q1, body, sys, |log1|);
    log := log1 + log2;
    if r2 == -1 {
      PrefixOfConcat(head, body, |q2| - |head|);
      return false, q2, log;
    }
    return true, q2, log;
  }

  /** The child branch: check the count, take `num` integers from `input`,
      then write the count and the array into a fresh pipe. Returns the exit,
      the pipe's contents once the child has closed it, and the calls made
      (numbered from 0). */
  method Producer(num: int32, input: seq<int32>, sys: Oracle)
    returns (exit: ProducerExit, q: seq<byte>, log: seq<Call>)
    ensures exit == CountRejected <==> !CountAccepted(num)
    ensures exit == InputFailed <==> CountAccepted(num) && |input| < num
    ensures exit == CountRejected || exit == InputFailed ==> q == [] && log == []
    ensures exit == Sent || exit == WriteFailed ==> CountAccepted(num) && num <= |input|
    ensures exit == Sent ==> q == Frame(Message(num, input[..num])) && |q| == INT_SIZE * (1 + num)
    ensures exit == WriteFailed ==>
      && |q| < |Frame(Message(num, input[..num]))|
      && q == Frame(Message(num, input[..num]))[..|q|]
      && |log| > 0 && log[|log| - 1].result <= 0
    ensures NeverFails(sys) && CountAccepted(num) && num <= |input| ==> exit == Sent
  {
    if num <= 0 || num > MAX_COUNT {
      return CountRejected, [], [];
    }
    if |input| < num {
      return InputFailed, [], [];
    }
    var m := Message(num, input[..num]);
    var ok;
    ok, q, log := SendFrame(m, sys);
    if !ok {
      return WriteFailed, q, log;
    }
    return Sent, q, log;
  }

  /** The parent branch, run once the child has closed the write end: `read_all`
      one `int` as the count, then `read_all` `num * sizeof(int)` bytes as the
      array. Returns the exit and the calls made (numbered from 0). */
  method Consumer(q: seq<byte>, sys: Oracle) returns (exit: ConsumerExit, log: seq<Call>)
    ensures exit.Received? ==> DecodeFrame(q) == Some(exit.msg)
    ensures DecodeFrame(q) == None ==> exit == ReadFailed
    ensures NeverFails(sys) && DecodeFrame(q).Some? ==> exit == Received(DecodeFrame(q).value)
    ensures exit == ReadFailed ==> |log| > 0 && log[|log| - 1].result <= 0
  {
    var r1, head, rest, log1 := ReadAll(q, INT_SIZE, sys, 0);
    if r1 == -1 {
      return ReadFailed, log1;
    }
    assert head == q[..INT_SIZE] && rest == q[INT_SIZE..];
    var num := DecodeInt(head);
    var n := PayloadBytes(num);
    var r2, body, rest2, log2 := ReadAll(rest, n, sys, |log1|);
    log := log1 + log2;
    if r2 == -1 {
      return ReadFailed, log;
    }
    assert body == q[INT_SIZE..INT_SIZE + n];
    return Received(Message(num, DecodeInts(body))), log;
  }

  /** One run of the program: the child produces into a fresh pipe and exits,
      then the parent consumes what the pipe holds. `producerSys` and
      `consumerSys` stand for the kernel as each process sees it. */
  method Exchange(num: int32, input: seq<int32>, producerSys: Oracle, consumerSys: Oracle)
    returns (sent: ProducerExit, got: ConsumerExit)
    ensures sent == Sent ==> CountAccepted(num) && num <= |input|
    ensures got.Received? ==> sent == Sent && got.msg == Message(num, input[..num])
    ensures sent == Sent && NeverFails(consumerSys) ==> got == Received(Message(num, input[..num]))
    ensures sent != Sent ==> got == ReadFailed
    ensures !CountAccepted(num) ==> sent == CountRejected
  {
    var q, plog, clog;
    sent, q, plog := Producer(num, input, producerSys);
    if sent == Sent {
      FrameRoundTrip(Message(num, input[..num]));
    } else if sent == WriteFailed {
      TruncatedFrameIncomplete(Message(num, input[..num]), |q|);
    }
    got, clog := Consumer(q, consumerSys);
  }
}
