# Count-prefixed integer transfer over an unnamed pipe

This project is a Dafny model of the data-exchange core of `week_6/unnamed_pipe.c`. In that program a child process (the producer) reads a count and that many integers, then sends them to its parent (the consumer) through an unnamed pipe. The model covers three parts:

- **`write_all` / `read_all`.** These loops keep calling `write(2)` / `read(2)` on the unfilled remainder of a buffer until every byte has moved. They give up with `-1` on the first call that returns zero or less.
- **The producer's count check.** The count must satisfy `1 <= num <= BUFFER_SIZE / sizeof(int)`, which is 256 with a 4-byte `int`. The check runs before anything is written.
- **The wire frame.** The frame is one `int` holding the count, followed by the `num` integers. The producer writes it with two `write_all` calls, and the consumer reads it back with two `read_all` calls.

Modules and files:

- `int_codec.dfy` (`IntCodec`) defines the bytes of an `int` and of an array of `int`s as they sit in memory, together with their inverses. `sizeof(int)` is 4, and an `int` is stored as the 4 base-256 digits of its two's-complement bit pattern. Both processes share the host's byte order, so any fixed order would do. The model fixes least-significant byte first and proves the encoding is a bijection.
- `syscall.dfy` (`Syscall`) models the pipe as a FIFO byte queue: `write` appends and `read` pops from the front.
  - The number of bytes one call moves, or its failure, is chosen by an oracle. The oracle is a function from the call's sequence number and requested size to the raw answer.
  - The kernel's own guarantees are built into `WriteResult` / `ReadResult`. A call never reports more than was requested, and a read never reports more than the queue holds.
  - A read on an empty queue whose write end is closed returns 0, which is end-of-stream, unless the call itself fails.
  - A `Call` log records every call a loop makes.
- `channel.dfy` (`Channel`) holds `WriteAll` and `ReadAll`, the two loops with their invariants.
- `unnamed_pipe.dfy` (`UnnamedPipe`) holds the following:
  - the count check;
  - the `size_t` arithmetic of `num * sizeof(int)`;
  - the frame and what the consumer makes of it;
  - the child branch (`Producer`) and the parent branch (`Consumer`);
  - one whole run (`Exchange`), in which the producer runs to completion and closes its end, and then the consumer reads.

The parent does not check the count it reads: it accepts 0, negative and over-bound counts. It takes the first `int` from the pipe as the count and reads that many `int`s. `DecodeFrame` and `Consumer` model this, and `FrameRoundTrip` holds for every non-negative count, including those the producer would reject. The producer's bound is exactly `BUFFER_SIZE / sizeof(int)` = 256 `int`s of payload, and no room is set aside for the count itself.

## Model

| member | source | states |
|---|---|---|
| `Syscall.WriteResult` | week_6/unnamed_pipe.c:55 | a `write` call never reports more than it was asked for, and reports a positive count exactly when the kernel moved bytes |
| `Syscall.ReadResult` | week_6/unnamed_pipe.c:68 | a `read` call never reports more than asked for or more than the pipe holds; on an empty pipe whose write end is closed it reports 0 (end-of-stream, as the note at line 37 says) unless the call itself fails, in which case it reports the kernel's negative answer |
| `Channel.WriteAll` | week_6/unnamed_pipe.c:51-62 | every call asks for exactly the unfilled remainder at offset `total`, and only the last call may have failed. The result is `bytes` or -1. On `bytes` the pipe gains the whole buffer in order. On -1 the last call returned <= 0, no further call was made, and the pipe gained only the prefix already written. A request for 0 bytes makes no call and returns 0. If the kernel never fails, the result is `bytes` |
| `Channel.ReadAll` | week_6/unnamed_pipe.c:64-75 | every call asks for exactly the unfilled remainder at offset `total`. The result is `bytes` or -1. The buffer holds the bytes popped from the front of the pipe, in order, and the pipe keeps the rest. A pipe holding fewer than `bytes` bytes never yields a short success. On -1 the last call returned <= 0. A request for 0 bytes makes no call. If the kernel never fails and enough bytes are queued, the result is `bytes` |
| `UnnamedPipe.CountAccepted` | week_6/unnamed_pipe.c:103-106 | the producer's guard accepts a count exactly when `1 <= num <= 256` (`BUFFER_SIZE / sizeof(int)` with a 4-byte `int`) |
| `UnnamedPipe.PayloadBytes` | week_6/unnamed_pipe.c:151-158 | the byte count `num * sizeof(int)` is the C `size_t` product, computed modulo 2^64. It is a whole number of `int`s, and for a non-negative count it is `4 * num` |
| `IntCodec.FromToBytes` | week_6/unnamed_pipe.c:123-149 | a number that fits in `k` bytes, stored as its `k` bytes and read back, is unchanged |
| `IntCodec.ToFromBytes` | week_6/unnamed_pipe.c:146-149 | any `k` bytes are the stored form of the number they are read as |
| `IntCodec.DecodeEncodeInt` | week_6/unnamed_pipe.c:123-149 | the `int` count, written as its 4 bytes and read back into an `int`, is unchanged |
| `IntCodec.EncodeDecodeInt` | week_6/unnamed_pipe.c:146-149 | any 4 bytes read into an `int` are that `int`'s bytes, so the count encoding is a bijection |
| `IntCodec.EncodeIntInjective` | week_6/unnamed_pipe.c:123 | two different counts never produce the same 4 bytes |
| `IntCodec.EncodeInts` | week_6/unnamed_pipe.c:130 | the array's bytes number `sizeof(int) * num` |
| `IntCodec.DecodeInts` | week_6/unnamed_pipe.c:158 | a buffer of whole `int`s holds one `int` for every 4 bytes |
| `IntCodec.EncodeIntsAt` | week_6/unnamed_pipe.c:130 | element `i` of the array occupies bytes `4i` to `4i+4` of what is written |
| `IntCodec.DecodeEncodeInts` | week_6/unnamed_pipe.c:130-158 | an array written as bytes and read back as `int`s is unchanged |
| `IntCodec.EncodeDecodeInts` | week_6/unnamed_pipe.c:158 | every buffer of whole `int`s is the encoding of the array it is read as |
| `UnnamedPipe.FrameRoundTrip` | week_6/unnamed_pipe.c:122-162 | reading a count and then that many `int`s from a frame gives back the framed count and array. This holds for every non-negative count that matches its array, because the consumer does not re-check the count |
| `UnnamedPipe.DecodedFrameIsPrefix` | week_6/unnamed_pipe.c:143-162 | whatever the consumer reads as a message is framed by exactly the bytes it took from the front of the pipe |
| `UnnamedPipe.TruncatedFrameIncomplete` | week_6/unnamed_pipe.c:157-162 | a cut-off frame, left by a producer whose `write_all` failed part-way, never reads as a message |
| `UnnamedPipe.SendFrame` | week_6/unnamed_pipe.c:122-135 | the count and the array are written in that order. On success the pipe holds exactly the frame. On failure the pipe holds a strict prefix of the frame, and the last call returned <= 0. If the kernel never fails, writing succeeds |
| `UnnamedPipe.Producer` | week_6/unnamed_pipe.c:96-139 | the producer rejects exactly the counts outside `1..256`. When it rejects a count, or runs short of input integers, it makes no call and leaves the pipe empty. On success the pipe holds the count and then exactly `num` `int`s, which is `sizeof(int) * (1 + num)` bytes. A write failure leaves a strict prefix of that frame |
| `UnnamedPipe.Consumer` | week_6/unnamed_pipe.c:140-162 | a message read by the consumer is the count and array that the pipe's bytes frame. A pipe that does not hold a whole frame yields a read failure. If the kernel never fails, a whole frame is always read |
| `UnnamedPipe.Exchange` | week_6/unnamed_pipe.c:93-172 | a message the parent receives is exactly the count and integers the child was given. If the child sent and the parent's reads do not fail, the parent receives it. If the child did not send (rejected count, short input or failed write), the parent's read fails and nothing is delivered. A rejected count is never sent |

## Left out

- Process handling (`fork`, `wait`, the parent/child role split, lines 85-93 and 172) is left out. A run is modelled as the producer running to completion, then the consumer. This covers the concurrent runs too, for two reasons. First, end-of-stream can only be seen once the child has closed its write end, which relies on the parent closing its own copy at line 140. Second, a read made earlier, while the child is still writing, returns at most the bytes available at that moment, and the oracle may choose that smaller answer in the sequential run.
- File-descriptor lifecycle (`pipe()`, the `close` calls, the errno list in the comment) is left out. The pipe is a queue that starts empty, and the write end counts as closed once the producer returns. That is why an empty queue reads as end-of-stream.
- Blocking on a full or empty pipe is left out. It is kernel scheduling, and the oracle stands in for whatever a blocked call eventually returns.
- `scanf` parsing and `printf` / `perror` / `fprintf` reporting are left out. The producer receives the count as an `int` and a sequence of available integers. Running short of integers is the model of the failing `scanf` at line 116. A non-numeric count (line 98) is not modelled.
- `malloc` / `free` are left out. In the model, allocation always succeeds, including `malloc(0)` and the huge request a negative count would produce on the consumer side.
- `ssize_t` / `size_t` conversion of `total` on return is left out. Every model result fits.
- The named-FIFO and shared-memory transports, and any session coordinator, are not part of this model.
- `Channel.ReadAll`: on failure, C leaves the partially filled buffer in place. The model returns exactly the bytes read so far, which is the filled prefix of that buffer.
