/**
 * The producer/consumer program (Multithreaded.c): a 15-slot circular buffer
 * shared by a producer, which copies one input line into it character by
 * character, and a consumer, which takes characters out in order, repeated
 * for each line read until `exit` or end of input.
 *
 * The two threads are replaced by a schedule: at each step the thread the
 * schedule prefers runs one critical section if it can, and the other one
 * runs otherwise. Both threads' wait conditions become the preconditions of
 * the buffer operations.
 */
module ProducerConsumer {

  /** CIRCULAR_BUFFER_SIZE */
  const BufferSize: nat := 15
  /** MAX_INPUT: longest line kept; `fgets` reads at most this many characters. */
  const MaxInput: nat := 50

  // ---------------------------------------------------------------------------
  // The circular buffer

  /** The `n` characters stored in `slots` from index `out` on, wrapping around. */
  function Window(slots: seq<char>, out: nat, n: nat): seq<char>
    requires |slots| == BufferSize && out < BufferSize && n <= BufferSize
  {
    seq(n, k requires 0 <= k < n => slots[(out + k) % BufferSize])
  }

  lemma ModDistinct(a: nat, b: nat)
    requires a < b < a + BufferSize
    ensures a % BufferSize != b % BufferSize
  {
  }

  lemma ModShift(a: nat, k: nat)
    ensures (a % BufferSize + k) % BufferSize == (a + k) % BufferSize
  {
  }

  /** Writing at the slot after the stored characters appends to them. */
  lemma WindowPush(slots: seq<char>, out: nat, n: nat, c: char)
    requires |slots| == BufferSize && out < BufferSize && n < BufferSize
    ensures Window(slots[(out + n) % BufferSize := c], out, n + 1) == Window(slots, out, n) + [c]
  {
    var slots' := slots[(out + n) % BufferSize := c];
    var w := Window(slots', out, n + 1);
    forall k | 0 <= k < n ensures w[k] == Window(slots, out, n)[k] {
      ModDistinct(out + k, out + n);
    }
  }

  /** Reading the slot at `out` and advancing `out` removes the oldest character. */
  lemma WindowPop(slots: seq<char>, out: nat, n: nat)
    requires |slots| == BufferSize && out < BufferSize && 0 < n <= BufferSize
    ensures Window(slots, out, n) == [slots[out]] + Window(slots, (out + 1) % BufferSize, n - 1)
  {
    var w := Window(slots, (out + 1) % BufferSize, n - 1);
    forall k | 0 <= k < n - 1 ensures w[k] == Window(slots, out, n)[k + 1] {
      ModShift(out + 1, k);
      assert out + 1 + k == out + (k + 1);
    }
    assert Window(slots, out, n)[0] == slots[out % BufferSize];
  }

  /** The shared state: `buffer`, `buffer_counter`, `buffer_in`, `buffer_out` and `completed_production`. */
  class SharedBuffer {
    var buffer: array<char>
    var bufferCounter: int
    var bufferIn: int
    var bufferOut: int
    var completedProduction: bool

    /** The indices stay in range and `buffer_in` is always `buffer_counter` slots past `buffer_out`. */
    ghost predicate Valid()
      reads this
    {
      && buffer.Length == BufferSize
      && 0 <= bufferCounter <= BufferSize
      && 0 <= bufferIn < BufferSize
      && 0 <= bufferOut < BufferSize
      && bufferIn == (bufferOut + bufferCounter) % BufferSize
    }

    /** The characters produced and not yet consumed, oldest first. */
    ghost function Contents(): seq<char>
      reads this, buffer
      requires Valid()
    {
      Window(buffer[..], bufferOut, bufferCounter)
    }

    /** The globals at program start: everything zero. */
    constructor()
      ensures Valid() && fresh(buffer)
      ensures bufferCounter == 0 && bufferIn == 0 && bufferOut == 0 && !completedProduction
    {
      buffer := new char[BufferSize](_ => '\0');
      bufferCounter := 0;
      bufferIn := 0;
      bufferOut := 0;
      completedProduction := false;
    }

    /** The reset at the top of each round; the characters left in the slots are not cleared. */
    method Reset()
      requires buffer.Length == BufferSize
      modifies this
      ensures Valid() && buffer == old(buffer) && unchanged(buffer)
      ensures bufferCounter == 0 && bufferIn == 0 && bufferOut == 0 && !completedProduction
      ensures Contents() == []
    {
      bufferCounter := 0;
      bufferIn := 0;
      bufferOut := 0;
      completedProduction := false;
    }

    /** The producer's critical section for one character, entered once the buffer is not full. */
    method Produce(c: char)
      requires Valid() && bufferCounter < BufferSize
      modifies this, buffer
      ensures Valid() && buffer == old(buffer)
      ensures buffer[old(bufferIn)] == c
      ensures forall k :: 0 <= k < BufferSize && k != old(bufferIn) ==> buffer[k] == old(buffer[k])
      ensures bufferIn == (old(bufferIn) + 1) % BufferSize && bufferCounter == old(bufferCounter) + 1
      ensures bufferOut == old(bufferOut) && completedProduction == old(completedProduction)
      ensures Contents() == old(Contents()) + [c]
    {
      ghost var slots := buffer[..];
      WindowPush(slots, bufferOut, bufferCounter, c);
      ModShift(bufferOut + bufferCounter, 1);
      buffer[bufferIn] := c;
      assert buffer[..] == slots[bufferIn := c];
      bufferIn := (bufferIn + 1) % BufferSize;
      bufferCounter := bufferCounter + 1;
    }

    /** The consumer's critical section for one character, entered once the buffer is not empty. */
    method Consume() returns (c: char)
      requires Valid() && bufferCounter > 0
      modifies this
      ensures Valid() && buffer == old(buffer) && unchanged(buffer)
      ensures c == old(buffer[bufferOut]) && c == old(Contents())[0]
      ensures bufferOut == (old(bufferOut) + 1) % BufferSize && bufferCounter == old(bufferCounter) - 1
      ensures bufferIn == old(bufferIn) && completedProduction == old(completedProduction)
      ensures Contents() == old(Contents())[1..]
    {
      WindowPop(buffer[..], bufferOut, bufferCounter);
      ModShift(bufferOut + 1, bufferCounter - 1);
      c := buffer[bufferOut];
      bufferOut := (bufferOut + 1) % BufferSize;
      bufferCounter := bufferCounter - 1;
    }

    /** The producer's last critical section: production is complete. */
    method CompleteProduction()
      requires Valid()
      modifies this
      ensures Valid() && buffer == old(buffer) && unchanged(buffer)
      ensures completedProduction
      ensures bufferCounter == old(bufferCounter) && bufferIn == old(bufferIn) && bufferOut == old(bufferOut)
      ensures Contents() == old(Contents())
    {
      completedProduction := true;
    }
  }

  // ---------------------------------------------------------------------------
  // One round: the producer and consumer threads under a schedule

  datatype Thread = ProducerThread | ConsumerThread

  /** The `Produced: c` and `Consumed: c` lines, each printed inside its critical section. */
  datatype Event = Produced(c: char) | Consumed(c: char)

  function ProducedChars(t: seq<Event>): (r: seq<char>)
    ensures |r| <= |t|
  {
    if t == [] then []
    else ProducedChars(t[..|t| - 1]) + (if t[|t| - 1].Produced? then [t[|t| - 1].c] else [])
  }

  function ConsumedChars(t: seq<Event>): (r: seq<char>)
    ensures |r| <= |t|
  {
    if t == [] then []
    else ConsumedChars(t[..|t| - 1]) + (if t[|t| - 1].Consumed? then [t[|t| - 1].c] else [])
  }

  /** At a point of the trace, the consumed characters are a prefix of the produced ones, at most a full buffer behind. */
  ghost predicate FifoPoint(t: seq<Event>)
  {
    var p := ProducedChars(t);
    var c := ConsumedChars(t);
    |c| <= |p| <= |c| + BufferSize && c == p[..|c|]
  }

  /** Every prefix of the trace is a FIFO point. */
  ghost predicate Fifo(t: seq<Event>)
  {
    forall n :: 0 <= n <= |t| ==> FifoPoint(t[..n])
  }

  lemma AppendEvent(t: seq<Event>, e: Event)
    ensures ProducedChars(t + [e]) == ProducedChars(t) + (if e.Produced? then [e.c] else [])
    ensures ConsumedChars(t + [e]) == ConsumedChars(t) + (if e.Consumed? then [e.c] else [])
  {
    assert (t + [e])[..|t + [e]| - 1] == t;
  }

  /** A trace that is FIFO stays FIFO when the extended trace is a FIFO point. */
  lemma FifoExtend(t: seq<Event>, e: Event)
    requires Fifo(t) && FifoPoint(t + [e])
    ensures Fifo(t + [e])
  {
    forall n | 0 <= n <= |t + [e]| ensures FifoPoint((t + [e])[..n]) {
      if n <= |t| {
        assert (t + [e])[..n] == t[..n];
      } else {
        assert (t + [e])[..n] == t + [e];
      }
    }
  }

  /**
   * The characters in the buffer are exactly the produced ones not yet consumed;
   * then the trace is a FIFO point.
   */
  lemma InBufferFifo(t: seq<Event>, inBuffer: seq<char>)
    requires ConsumedChars(t) + inBuffer == ProducedChars(t) && |inBuffer| <= BufferSize
    ensures FifoPoint(t)
  {
    assert ProducedChars(t)[..|ConsumedChars(t)|] == ConsumedChars(t);
  }

  /** A step of the round keeps the trace FIFO when the buffer holds what is produced and not consumed. */
  lemma TraceStep(t: seq<Event>, e: Event, inBuffer: seq<char>, produced: seq<char>)
    requires Fifo(t) && |inBuffer| <= BufferSize
    requires ProducedChars(t + [e]) == produced && ConsumedChars(t + [e]) + inBuffer == produced
    ensures Fifo(t + [e])
  {
    InBufferFifo(t + [e], inBuffer);
    FifoExtend(t, e);
  }

  /** Producing the next input character extends what is produced and what the buffer holds. */
  lemma ProduceStep(t: seq<Event>, inBuffer: seq<char>, input: string, i: nat)
    requires i < |input|
    requires ProducedChars(t) == input[..i] && ConsumedChars(t) + inBuffer == input[..i]
    ensures ProducedChars(t + [Produced(input[i])]) == input[..i + 1]
    ensures ConsumedChars(t + [Produced(input[i])]) + (inBuffer + [input[i]]) == input[..i + 1]
  {
    AppendEvent(t, Produced(input[i]));
    assert input[..i + 1] == input[..i] + [input[i]];
  }

  /** Consuming the oldest buffered character moves it from the buffer to what is consumed. */
  lemma ConsumeStep(t: seq<Event>, inBuffer: seq<char>, produced: seq<char>)
    requires inBuffer != []
    requires ProducedChars(t) == produced && ConsumedChars(t) + inBuffer == produced
    ensures ProducedChars(t + [Consumed(inBuffer[0])]) == produced
    ensures ConsumedChars(t + [Consumed(inBuffer[0])]) + inBuffer[1..] == produced
  {
    AppendEvent(t, Consumed(inBuffer[0]));
    assert ConsumedChars(t) + [inBuffer[0]] + inBuffer[1..] == ConsumedChars(t) + inBuffer;
  }

  /**
   * One round over `input`, starting from the reset state. Whatever the
   * schedule, no thread waits forever, the round ends with the buffer empty
   * and production complete, every character is produced and consumed exactly
   * once, in input order, and the consumer never gets ahead of the producer
   * nor more than a full buffer behind.
   */
  method RunRound(shared: SharedBuffer, input: string, schedule: nat -> Thread) returns (trace: seq<Event>)
    requires shared.Valid() && shared.bufferCounter == 0 && !shared.completedProduction
    modifies shared, shared.buffer
    ensures shared.Valid() && shared.buffer == old(shared.buffer)
    ensures shared.completedProduction && shared.bufferCounter == 0
    ensures ProducedChars(trace) == input && ConsumedChars(trace) == input
    ensures Fifo(trace)
  {
    trace := [];
    var i := 0;
    var step: nat := 0;
    assert Fifo(trace) by {
      assert forall n :: 0 <= n <= 0 ==> trace[..n] == [];
    }
    while !(shared.completedProduction && shared.bufferCounter == 0)
      invariant shared.Valid() && shared.buffer == old(shared.buffer)
      invariant 0 <= i <= |input|
      invariant shared.completedProduction ==> i == |input|
      invariant ProducedChars(trace) == input[..i]
      invariant ConsumedChars(trace) + shared.Contents() == input[..i]
      invariant Fifo(trace)
      decreases 2 * (|input| - i) + shared.bufferCounter + (if shared.completedProduction then 0 else 1)
    {
      var producerReady := !shared.completedProduction && (i == |input| || shared.bufferCounter < BufferSize);
      var consumerReady := shared.bufferCounter > 0;
      ghost var inBuffer := shared.Contents();
      if producerReady && (schedule(step) == ProducerThread || !consumerReady) {
        if i < |input| {
          shared.Produce(input[i]);
          ProduceStep(trace, inBuffer, input, i);
          TraceStep(trace, Produced(input[i]), shared.Contents(), input[..i + 1]);
          trace := trace + [Produced(input[i])];
          i := i + 1;
        } else {
          shared.CompleteProduction();
        }
      } else {
        var c := shared.Consume();
        ConsumeStep(trace, inBuffer, input[..i]);
        TraceStep(trace, Consumed(c), shared.Contents(), input[..i]);
        trace := trace + [Consumed(c)];
      }
      step := step + 1;
    }
    assert input[..i] == input;
  }

  // ---------------------------------------------------------------------------
  // Reading the input lines

  /** The index of the first newline of `s`, or `|s|` when there is none. */
  function LineEnd(s: string): (j: nat)
    ensures j <= |s|
    ensures forall k :: 0 <= k < j ==> s[k] != '\n'
    ensures j < |s| ==> s[j] == '\n'
  {
    if s == [] || s[0] == '\n' then 0 else 1 + LineEnd(s[1..])
  }

  function Min(a: nat, b: nat): nat
  {
    if a <= b then a else b
  }

  /**
   * One read of the main loop from non-empty input `s`: the line without its
   * newline, cut to MAX_INPUT characters, and the input after that line (the
   * rest of a long line is flushed).
   */
  function NextLine(s: string): (r: (string, string))
    ensures |r.0| <= MaxInput && |r.0| <= |s|
    ensures forall k :: 0 <= k < |r.0| ==> r.0[k] != '\n'
    ensures s != [] ==> |r.1| < |s|
  {
    var j := LineEnd(s);
    (s[..Min(j, MaxInput)], if j < |s| then s[j + 1..] else [])
  }

  /** The lines handed to a round, stopping at end of input or at the line `exit`. */
  function Inputs(s: string): seq<string>
    decreases |s|
  {
    if s == [] then []
    else
      var (line, rest) := NextLine(s);
      if line == "exit" then [] else [line] + Inputs(rest)
  }

  /**
   * `fgets` into a MAX_INPUT + 1 byte buffer from offset `pos`: reads up to and
   * including the first newline, but at most MAX_INPUT characters and no
   * further than the end of input, which must not have been reached yet.
   */
  method Fgets(stdin: string, pos: nat) returns (buf: string, p: nat)
    requires pos < |stdin|
    ensures pos < p <= |stdin| && buf == stdin[pos..p]
    ensures var j := LineEnd(stdin[pos..]);
      && (j < MaxInput ==> p == if j < |stdin| - pos then pos + j + 1 else |stdin|)
      && (j >= MaxInput ==> p == pos + MaxInput)
  {
    ghost var s := stdin[pos..];
    ghost var j0 := LineEnd(s);
    buf, p := [], pos;
    while p < |stdin| && |buf| < MaxInput && (buf == [] || buf[|buf| - 1] != '\n')
      invariant pos <= p <= |stdin| && buf == stdin[pos..p] && |buf| <= MaxInput
      invariant |buf| <= j0 + 1
      invariant forall k :: 0 <= k < |buf| - 1 ==> buf[k] != '\n'
      invariant |buf| > j0 ==> buf[|buf| - 1] == '\n'
    {
      assert stdin[p] == s[p - pos];
      buf := buf + [stdin[p]];
      p := p + 1;
    }
  }

  /** `strcspn(buf, "\n")`: the length of the prefix of `buf` free of newlines. */
  method Strcspn(buf: string) returns (j: nat)
    ensures j == LineEnd(buf)
  {
    j := 0;
    while j < |buf| && buf[j] != '\n'
      invariant j <= |buf|
      invariant forall k :: 0 <= k < j ==> buf[k] != '\n'
    {
      j := j + 1;
    }
    LineEndAt(buf, j);
  }

  /** The `getchar` loop from offset `p`: discards input up to and including the next newline, or all of it. */
  method Flush(stdin: string, p: nat) returns (next: nat)
    requires p <= |stdin|
    ensures var j := LineEnd(stdin[p..]);
      next == if j < |stdin| - p then p + j + 1 else |stdin|
  {
    ghost var s := stdin[p..];
    ghost var j0 := LineEnd(s);
    next := p;
    var stop := false;
    while !stop
      invariant p <= next <= |stdin|
      invariant !stop ==> next <= p + j0
      invariant stop ==> next == if j0 < |s| then p + j0 + 1 else |stdin|
      decreases |stdin| - next, !stop
    {
      if next == |stdin| {
        stop := true;
      } else {
        var c := stdin[next];
        assert c == s[next - p];
        next := next + 1;
        stop := c == '\n';
      }
    }
  }

  /**
   * One read of the main loop from offset `pos`: `fgets`, the removal of the
   * newline, and the flush of an over-long line.
   */
  method ReadLine(stdin: string, pos: nat) returns (eof: bool, line: string, next: nat)
    requires pos <= |stdin|
    ensures eof <==> pos == |stdin|
    ensures !eof ==> pos < next <= |stdin| && NextLine(stdin[pos..]) == (line, stdin[next..])
  {
    if pos == |stdin| {
      return true, [], pos;
    }
    eof := false;
    ghost var s := stdin[pos..];
    ghost var j0 := LineEnd(s);
    var buf, p := Fgets(stdin, pos);
    var j := Strcspn(buf);
    assert buf == s[..p - pos];
    LineEndOfPrefix(s, p - pos);
    assert j == Min(j0, MaxInput);
    line := buf[..j];
    assert line == s[..j];
    if |line| == MaxInput && line[MaxInput - 1] != '\n' {
      LineEndOfSuffix(s, MaxInput);
      assert stdin[p..] == s[MaxInput..];
      next := Flush(stdin, p);
    } else {
      next := p;
    }
    if j0 < |s| {
      assert next == pos + j0 + 1;
      assert s[j0 + 1..] == stdin[next..];
    } else {
      assert stdin[next..] == [];
    }
  }

  /** The first newline of a prefix of `s` is the first newline of `s`, if the prefix reaches it. */
  lemma LineEndOfPrefix(s: string, n: nat)
    requires n <= |s|
    ensures LineEnd(s[..n]) == Min(LineEnd(s), n)
  {
    LineEndAt(s[..n], Min(LineEnd(s), n));
  }

  /** Dropping `n` characters before the first newline moves it `n` places closer. */
  lemma LineEndOfSuffix(s: string, n: nat)
    requires n <= LineEnd(s)
    ensures LineEnd(s[n..]) == LineEnd(s) - n
  {
    LineEndAt(s[n..], LineEnd(s) - n);
  }

  /** Each round produced and consumed exactly its line, first in, first out. */
  ghost predicate RoundsDone(rounds: seq<string>, traces: seq<seq<Event>>)
  {
    |traces| == |rounds| &&
    forall r :: 0 <= r < |rounds| ==>
      ProducedChars(traces[r]) == rounds[r] && ConsumedChars(traces[r]) == rounds[r] && Fifo(traces[r])
  }

  lemma RoundsDoneAppend(rounds: seq<string>, traces: seq<seq<Event>>, line: string, trace: seq<Event>)
    requires RoundsDone(rounds, traces)
    requires ProducedChars(trace) == line && ConsumedChars(trace) == line && Fifo(trace)
    ensures RoundsDone(rounds + [line], traces + [trace])
  {
  }

  lemma PrefixStep<T>(done: seq<T>, x: T, todo: seq<T>, later: seq<T>, total: seq<T>)
    requires done + todo == total && todo == [x] + later
    ensures (done + [x]) + later == total
  {
  }

  /** Reading a line from non-empty input either stops at `exit` or hands the line to a round. */
  lemma InputsStep(s: string, line: string, rest: string)
    requires s != [] && NextLine(s) == (line, rest)
    ensures Inputs(s) == if line == "exit" then [] else [line] + Inputs(rest)
  {
  }

  /**
   * One iteration of the main loop: reset the shared state, read a line, and
   * stop at end of input or `exit`, or else run a round on the line.
   */
  method Iteration(shared: SharedBuffer, stdin: string, pos: nat, schedule: nat -> Thread)
    returns (stop: bool, line: string, trace: seq<Event>, next: nat)
    requires pos <= |stdin| && shared.buffer.Length == BufferSize
    modifies shared, shared.buffer
    ensures shared.buffer == old(shared.buffer)
    ensures stop ==> Inputs(stdin[pos..]) == []
    ensures !stop ==> pos < next <= |stdin| && Inputs(stdin[pos..]) == [line] + Inputs(stdin[next..])
    ensures !stop ==> ProducedChars(trace) == line && ConsumedChars(trace) == line && Fifo(trace)
  {
    shared.Reset();
    var eof;
    eof, line, next := ReadLine(stdin, pos);
    trace := [];
    if eof {
      assert stdin[pos..] == [];
      return true, line, trace, next;
    }
    InputsStep(stdin[pos..], line, stdin[next..]);
    if line == "exit" {
      return true, line, trace, next;
    }
    trace := RunRound(shared, line, schedule);
    stop := false;
  }

  /** The main loop, with the schedule of each round given by its number. */
  method RunProgram(stdin: string, schedules: nat -> nat -> Thread) returns (rounds: seq<string>, traces: seq<seq<Event>>)
    ensures rounds == Inputs(stdin)
    ensures RoundsDone(rounds, traces)
  {
    var shared := new SharedBuffer();
    rounds, traces := [], [];
    var pos := 0;
    while true
      invariant pos <= |stdin|
      invariant shared.buffer.Length == BufferSize && fresh(shared.buffer)
      invariant rounds + Inputs(stdin[pos..]) == Inputs(stdin)
      invariant RoundsDone(rounds, traces)
      decreases |stdin| - pos
    {
      var stop, line, trace, next := Iteration(shared, stdin, pos, schedules(|rounds|));
      if stop {
        assert rounds + [] == rounds;
        return;
      }
      PrefixStep(rounds, line, Inputs(stdin[pos..]), Inputs(stdin[next..]), Inputs(stdin));
      RoundsDoneAppend(rounds, traces, line, trace);
      rounds, traces := rounds + [line], traces + [trace];
      pos := next;
    }
  }

  // ---------------------------------------------------------------------------
  // Properties of the input handling

  /** Every round's line is at most MAX_INPUT characters, has no newline, and is not `exit`. */
  lemma {:induction false} InputsAreLines(s: string)
    ensures forall r :: 0 <= r < |Inputs(s)| ==>
      |Inputs(s)[r]| <= MaxInput && Inputs(s)[r] != "exit" && forall k :: 0 <= k < |Inputs(s)[r]| ==> Inputs(s)[r][k] != '\n'
    decreases |s|
  {
    if s != [] {
      var (line, rest) := NextLine(s);
      if line != "exit" {
        InputsAreLines(rest);
        assert Inputs(s) == [line] + Inputs(rest);
      }
    }
  }

  /** A short line followed by a newline becomes exactly one round, and reading goes on after it. */
  lemma ShortLineIsRound(line: string, s: string)
    requires |line| <= MaxInput && line != "exit"
    requires forall k :: 0 <= k < |line| ==> line[k] != '\n'
    ensures Inputs(line + "\n" + s) == [line] + Inputs(s)
  {
    var t := line + "\n" + s;
    LineEndAt(t, |line|);
    assert t[..|line|] == line && t[|line| + 1..] == s;
  }

  /** A line longer than MAX_INPUT is cut to its first MAX_INPUT characters and its remainder is discarded. */
  lemma LongLineIsTruncated(line: string, s: string)
    requires |line| > MaxInput
    requires forall k :: 0 <= k < |line| ==> line[k] != '\n'
    ensures Inputs(line + "\n" + s) == [line[..MaxInput]] + Inputs(s)
  {
    var t := line + "\n" + s;
    LineEndAt(t, |line|);
    assert t[..MaxInput] == line[..MaxInput] && t[|line| + 1..] == s;
    assert line[..MaxInput] != "exit";
  }

  /** The line `exit` ends the program without running a round, whatever follows. */
  lemma ExitEndsProgram(s: string)
    ensures Inputs("exit\n" + s) == []
    ensures Inputs("exit") == []
  {
    LineEndAt("exit\n" + s, 4);
    assert ("exit\n" + s)[..4] == "exit";
    LineEndAt("exit", 4);
  }

  /** A last line without a newline is still handed to a round. */
  lemma LastLineWithoutNewline(line: string)
    requires line != [] && |line| <= MaxInput && line != "exit"
    requires forall k :: 0 <= k < |line| ==> line[k] != '\n'
    ensures Inputs(line) == [line]
  {
    LineEndAt(line, |line|);
    assert line[..|line|] == line;
  }

  /** The first newline is the one at `j` when none comes before it. */
  lemma {:induction false} LineEndAt(s: string, j: nat)
    requires j <= |s| && (j < |s| ==> s[j] == '\n')
    requires forall k :: 0 <= k < j ==> s[k] != '\n'
    ensures LineEnd(s) == j
  {
    if j > 0 {
      LineEndAt(s[1..], j - 1);
    }
  }
}
