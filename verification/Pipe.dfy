/**
 The ring buffer of a pipe (pipe.c): the critical sections of pipe_read and pipe_write, proved to
 take from and add to a queue of bytes.
 */
module PipeRing {
  import opened Basics

  const PIPE_BUFFER_SIZE: nat := 65536

  function Min(a: nat, b: nat): nat { if a < b then a else b }

  /** A position that has run past the end of the buffer, taken back to its start. */
  function Wrap(i: nat): (r: nat)
    requires i < 2 * PIPE_BUFFER_SIZE
    ensures r < PIPE_BUFFER_SIZE && (r == i || r == i - PIPE_BUFFER_SIZE)
  {
    if i < PIPE_BUFFER_SIZE then i else i - PIPE_BUFFER_SIZE
  }

  /** The bytes that wait in the ring, oldest first. */
  ghost function Queue(b: seq<Byte>, r: nat, a: nat): (q: seq<Byte>)
    requires |b| == PIPE_BUFFER_SIZE && r < PIPE_BUFFER_SIZE && a <= PIPE_BUFFER_SIZE
    ensures |q| == a
  {
    seq(a, i requires 0 <= i < a => b[Wrap(r + i)])
  }

  lemma TakeFront(b: seq<Byte>, r: nat, a: nat, k: nat)
    requires |b| == PIPE_BUFFER_SIZE && r < PIPE_BUFFER_SIZE && a <= PIPE_BUFFER_SIZE
    requires k <= a && r + k <= PIPE_BUFFER_SIZE
    ensures Queue(b, r, a) == b[r..r + k] + Queue(b, Wrap(r + k), a - k)
  {
    var rest := Queue(b, Wrap(r + k), a - k);
    var split := b[r..r + k] + rest;
    forall i | 0 <= i < a
      ensures b[Wrap(r + i)] == split[i]
    {
      if i >= k {
        assert Wrap(Wrap(r + k) + (i - k)) == Wrap(r + i);
        assert split[i] == rest[i - k] == b[Wrap(Wrap(r + k) + (i - k))];
      } else {
        assert split[i] == b[r + i];
      }
    }
  }

  lemma AddBack(b: seq<Byte>, r: nat, a: nat, chunk: seq<Byte>, b': seq<Byte>)
    requires |b| == |b'| == PIPE_BUFFER_SIZE && r < PIPE_BUFFER_SIZE && a + |chunk| <= PIPE_BUFFER_SIZE
    requires Wrap(r + a) + |chunk| <= PIPE_BUFFER_SIZE
    requires b' == b[..Wrap(r + a)] + chunk + b[Wrap(r + a) + |chunk|..]
    ensures Queue(b', r, a + |chunk|) == Queue(b, r, a) + chunk
  {
    var w := Wrap(r + a);
    forall i | 0 <= i < a + |chunk|
      ensures b'[Wrap(r + i)] == (Queue(b, r, a) + chunk)[i]
    {
      if i >= a {
        assert Wrap(r + i) == w + (i - a);
      } else {
        assert !(w <= Wrap(r + i) < w + |chunk|);
      }
    }
  }

  //  How much a call moves

  /** What one pipe_read takes; the second copy is limited by the whole count. */
  function ReadAmount(r: nat, a: nat, count: nat): nat
    requires r < PIPE_BUFFER_SIZE
  {
    var first := Min(Min(count, PIPE_BUFFER_SIZE - r), a);
    if count > first && a - first > 0 then first + Min(a - first, count) else first
  }

  /** A read gives min(count, available) bytes exactly when it need not wrap or everything is asked for. */
  lemma ReadExact(r: nat, a: nat, count: nat)
    requires r < PIPE_BUFFER_SIZE && a <= PIPE_BUFFER_SIZE
    ensures ReadAmount(r, a, count) == Min(count, a) <==> a <= count || count <= PIPE_BUFFER_SIZE - r
    ensures ReadAmount(r, a, count) <= count <==> a <= count || count <= PIPE_BUFFER_SIZE - r
    ensures ReadAmount(r, a, count) <= a
    ensures count > 0 && a > 0 ==> ReadAmount(r, a, count) > 0
  {
  }

  lemma ReadTooMuch()
    ensures ReadAmount(PIPE_BUFFER_SIZE - 1, 10, 2) == 3
  {
  }

  function FirstCopy(w: nat, a: nat, count: nat): nat
    requires w < PIPE_BUFFER_SIZE && a <= PIPE_BUFFER_SIZE
  {
    Min(Min(count, PIPE_BUFFER_SIZE - w), PIPE_BUFFER_SIZE - a)
  }

  /** The second copy of one pass of pipe_write, when `written` bytes were stored before the pass. */
  function SecondCopy(w: nat, a: nat, count: nat, written: nat): nat
    requires w < PIPE_BUFFER_SIZE && a <= PIPE_BUFFER_SIZE
  {
    var first := FirstCopy(w, a, count);
    if count > written + first && PIPE_BUFFER_SIZE - a - first > 0
    then Min(PIPE_BUFFER_SIZE - a - first, count) else 0
  }

  function WriteAmount(w: nat, a: nat, count: nat, written: nat): nat
    requires w < PIPE_BUFFER_SIZE && a <= PIPE_BUFFER_SIZE
  {
    FirstCopy(w, a, count) + SecondCopy(w, a, count, written)
  }

  /** A first pass stores exactly the caller's bytes when they fit without wrapping or fill the ring. */
  lemma WriteExact(w: nat, a: nat, count: nat)
    requires w < PIPE_BUFFER_SIZE && a <= PIPE_BUFFER_SIZE
    ensures WriteAmount(w, a, count, 0) == count <==>
      count <= PIPE_BUFFER_SIZE - a && (count <= PIPE_BUFFER_SIZE - w || count == PIPE_BUFFER_SIZE - a)
    ensures count <= WriteAmount(w, a, count, 0) <==> count <= PIPE_BUFFER_SIZE - a
    ensures WriteAmount(w, a, count, 0) <= PIPE_BUFFER_SIZE - a
  {
  }

  lemma WriteTooMuch()
    ensures WriteAmount(PIPE_BUFFER_SIZE - 1, 0, 2, 0) == 3
  {
  }

  /** The caller's memory: `mem(i)` is the byte at buf + i, also past the end of the caller's buffer. */
  ghost function Chunk(mem: nat -> Byte, from: nat, k: nat): (s: seq<Byte>)
    ensures |s| == k
  {
    seq(k, i requires 0 <= i < k => mem(from + i))
  }

  /** What one pass appends: the second copy carries on where the caller's total stands. */
  ghost function Stored(mem: nat -> Byte, w: nat, a: nat, count: nat, written: nat): seq<Byte>
    requires w < PIPE_BUFFER_SIZE && a <= PIPE_BUFFER_SIZE
  {
    Chunk(mem, 0, FirstCopy(w, a, count)) +
    Chunk(mem, written + FirstCopy(w, a, count), SecondCopy(w, a, count, written))
  }

  /** A first pass stores a stretch of the caller's memory from buf on, without a gap. */
  lemma FirstPassIsContiguous(mem: nat -> Byte, w: nat, a: nat, count: nat)
    requires w < PIPE_BUFFER_SIZE && a <= PIPE_BUFFER_SIZE
    ensures Stored(mem, w, a, count, 0) == Chunk(mem, 0, WriteAmount(w, a, count, 0))
  {
  }

  /** The locked sections of pipe_read and pipe_write. */
  datatype Step = DoRead(count: nat) | DoWrite(mem: nat -> Byte, count: nat, written: nat)

  /**
   A pipe as a queue: where reading stands, what waits, all that was taken and stored so far, and
   whether an assertion has stopped the machine.
   */
  datatype Model = Model(r: nat, queue: seq<Byte>, out: seq<Byte>, stored: seq<Byte>, stopped: bool)

  ghost predicate Fits(m: Model) {
    m.r < PIPE_BUFFER_SIZE && |m.queue| <= PIPE_BUFFER_SIZE
  }

  ghost function After(m: Model, step: Step): (m': Model)
    requires Fits(m)
    ensures Fits(m')
  {
    if m.stopped then m
    else match step
      case DoRead(count) =>
        if m.queue == [] then m.(stopped := true)
        else
          ReadExact(m.r, |m.queue|, count);
          var k := ReadAmount(m.r, |m.queue|, count);
          m.(r := Wrap(m.r + k), queue := m.queue[k..], out := m.out + m.queue[..k])
      case DoWrite(mem, count, written) =>
        var chunk := Stored(mem, Wrap(m.r + |m.queue|), |m.queue|, count, written);
        m.(queue := m.queue + chunk, stored := m.stored + chunk)
  }

  ghost function AfterAll(m: Model, steps: seq<Step>): (m': Model)
    requires Fits(m)
    ensures Fits(m')
  {
    if steps == [] then m else After(AfterAll(m, steps[..|steps| - 1]), steps[|steps| - 1])
  }

  /** First in, first out, over every interleaving: what was read and what is left are what was there and what was stored. */
  lemma {:induction false} FirstInFirstOut(m: Model, steps: seq<Step>)
    requires Fits(m) && m.out == [] && m.stored == []
    ensures var m' := AfterAll(m, steps); m'.out + m'.queue == m.queue + m'.stored
  {
    if steps != [] {
      FirstInFirstOut(m, steps[..|steps| - 1]);
      StepKeepsOrder(AfterAll(m, steps[..|steps| - 1]), steps[|steps| - 1], m.queue);
    }
  }

  lemma StepKeepsOrder(m: Model, step: Step, initial: seq<Byte>)
    requires Fits(m) && m.out + m.queue == initial + m.stored
    ensures var m' := After(m, step); m'.out + m'.queue == initial + m'.stored
  {
    hide Stored, Wrap, ReadAmount;
    match step
    case DoRead(count) =>
      if m.queue != [] {
        ReadExact(m.r, |m.queue|, count);
        TakenInOrder(m.out, m.queue, ReadAmount(m.r, |m.queue|, count));
      }
    case DoWrite(mem, count, written) =>
      var chunk := Stored(mem, Wrap(m.r + |m.queue|), |m.queue|, count, written);
      AddedInOrder(m.out, m.queue, initial, m.stored, chunk);
  }

  lemma TakenInOrder(out: seq<Byte>, queue: seq<Byte>, k: nat)
    requires k <= |queue|
    ensures (out + queue[..k]) + queue[k..] == out + queue
  {
    assert queue[..k] + queue[k..] == queue;
  }

  lemma AddedInOrder(out: seq<Byte>, queue: seq<Byte>, initial: seq<Byte>, stored: seq<Byte>, chunk: seq<Byte>)
    requires out + queue == initial + stored
    ensures out + (queue + chunk) == initial + (stored + chunk)
  {
    assert out + (queue + chunk) == (out + queue) + chunk;
    assert initial + (stored + chunk) == (initial + stored) + chunk;
  }

  /** A reader looks for bytes before it takes the lock: its read stops the machine exactly when the lock finds none left. */
  lemma {:induction false} StopsExactly(m: Model, steps: seq<Step>)
    requires Fits(m) && !m.stopped
    ensures AfterAll(m, steps).stopped <==> exists i :: 0 <= i < |steps| && Starves(m, steps, i)
  {
    hide After, Fits;
    if steps != [] {
      var init, last := steps[..|steps| - 1], |steps| - 1;
      StopsExactly(m, init);
      StopsHere(AfterAll(m, init), steps[last]);
      forall i | 0 <= i < last
        ensures Starves(m, steps, i) == Starves(m, init, i)
      {
        assert steps[..i] == init[..i];
      }
      if Starves(m, steps, last) {
        assert AfterAll(m, steps).stopped;
      } else if i :| 0 <= i < |steps| && Starves(m, steps, i) {
        assert Starves(m, init, i);
      }
      if i :| 0 <= i < |init| && Starves(m, init, i) {
        assert Starves(m, steps, i);
      }
    }
  }

  /** Step i is a read, and the machine is still running when it finds the queue empty. */
  ghost predicate Starves(m: Model, steps: seq<Step>, i: nat)
    requires Fits(m) && i < |steps|
  {
    var before := AfterAll(m, steps[..i]);
    !before.stopped && steps[i].DoRead? && before.queue == []
  }

  lemma StopsHere(m: Model, step: Step)
    requires Fits(m)
    ensures After(m, step).stopped <==> m.stopped || (step.DoRead? && m.queue == [])
  {
  }

  /** A pipe with one reader never stops: between its look and its read only writers come. */
  lemma {:induction false} OneReaderGoesOn(m: Model, steps: seq<Step>)
    requires Fits(m) && !m.stopped && m.queue != [] && forall i :: 0 <= i < |steps| ==> steps[i].DoWrite?
    ensures var m' := AfterAll(m, steps); !m'.stopped && m'.queue != []
  {
    hide Stored, Wrap;
    if steps != [] {
      OneReaderGoesOn(m, steps[..|steps| - 1]);
    }
  }

  /** Of two readers that both saw the one byte there is, the second stops the machine. */
  lemma TwoReaders(b: Byte)
    ensures AfterAll(Model(0, [b], [], [], false), [DoRead(1), DoRead(1)]).stopped
  {
    var m, steps := Model(0, [b], [], [], false), [DoRead(1), DoRead(1)];
    assert steps[..1] == [DoRead(1)] && steps[..1][..0] == [];
    assert AfterAll(m, steps[..1][..0]) == m;
    assert AfterAll(m, steps[..1]) == After(m, DoRead(1));
    assert After(m, DoRead(1)).queue == [];
  }

  class Ring {
    const buffer: array<Byte>
    var readPos: nat
    var writePos: nat
    var available: nat

    ghost predicate Valid()
      reads this
    {
      && buffer.Length == PIPE_BUFFER_SIZE
      && readPos < PIPE_BUFFER_SIZE && available <= PIPE_BUFFER_SIZE
      && writePos == Wrap(readPos + available)
    }

    ghost function Contents(): seq<Byte>
      requires Valid()
      reads this, buffer
    {
      Queue(buffer[..], readPos, available)
    }

    constructor ()
      ensures Valid() && fresh(buffer) && Contents() == []
    {
      buffer := new Byte[PIPE_BUFFER_SIZE];
      readPos, writePos, available := 0, 0, 0;
    }

    /** One copy out of the buffer, from where reading stands. */
    method CopyOut(k: nat) returns (out: seq<Byte>)
      requires Valid() && k <= available && readPos + k <= PIPE_BUFFER_SIZE
      modifies this`readPos, this`available
      ensures Valid() && out + Contents() == old(Contents()) && |out| == k
      ensures available == old(available) - k && readPos == Wrap(old(readPos) + k)
    {
      TakeFront(buffer[..], readPos, available, k);
      out := buffer[readPos..readPos + k];
      assert out == buffer[..][readPos..readPos + k];
      readPos := readPos + k;
      available := available - k;
      if readPos >= PIPE_BUFFER_SIZE {
        readPos := 0;
      }
      hide Queue;
    }

    /** The critical section of pipe_read. */
    method Read(count: nat) returns (out: seq<Byte>)
      requires Valid() && available > 0
      modifies this`readPos, this`available
      ensures Valid() && out + Contents() == old(Contents())
      ensures |out| == ReadAmount(old(readPos), old(available), count) <= old(available)
      ensures readPos == Wrap(old(readPos) + |out|)
    {
      hide Queue;
      out := CopyOut(Min(Min(count, PIPE_BUFFER_SIZE - readPos), available));
      if count > |out| && available > 0 {
        var more := CopyOut(Min(available, count));
        assert (out + more) + Contents() == out + (more + Contents());
        out := out + more;
      }
    }

    method Fill(mem: nat -> Byte, from: nat, k: nat)
      requires buffer.Length == PIPE_BUFFER_SIZE && writePos + k <= PIPE_BUFFER_SIZE
      modifies buffer
      ensures buffer[..] == old(buffer[..writePos]) + Chunk(mem, from, k) + old(buffer[writePos + k..])
    {
      for i := 0 to k
        invariant forall j :: 0 <= j < PIPE_BUFFER_SIZE ==>
          buffer[j] == if writePos <= j < writePos + i then mem(from + (j - writePos)) else old(buffer[j])
      {
        buffer[writePos + i] := mem(from + i);
      }
    }

    /** One copy into the buffer, at where writing stands. */
    method CopyIn(mem: nat -> Byte, from: nat, k: nat)
      requires Valid() && k <= PIPE_BUFFER_SIZE - available && writePos + k <= PIPE_BUFFER_SIZE
      modifies this`writePos, this`available, buffer
      ensures Valid() && Contents() == old(Contents()) + Chunk(mem, from, k)
      ensures available == old(available) + k && writePos == Wrap(old(writePos) + k)
    {
      hide Queue;
      Fill(mem, from, k);
      AddBack(old(buffer[..]), readPos, available, Chunk(mem, from, k), buffer[..]);
      writePos := writePos + k;
      available := available + k;
      if writePos >= PIPE_BUFFER_SIZE {
        writePos := 0;
      }
    }

    /** One pass of pipe_write's loop: the critical section. */
    method WritePass(mem: nat -> Byte, count: nat, written: nat) returns (total: nat)
      requires Valid()
      modifies this`writePos, this`available, buffer
      ensures Valid()
      ensures Contents() == old(Contents()) + Stored(mem, old(writePos), old(available), count, written)
      ensures total == written + WriteAmount(old(writePos), old(available), count, written)
    {
      hide Queue;
      var k := Min(Min(count, PIPE_BUFFER_SIZE - writePos), PIPE_BUFFER_SIZE - available);
      CopyIn(mem, 0, k);
      total := written + k;
      if count > total && PIPE_BUFFER_SIZE - available > 0 {
        k := Min(PIPE_BUFFER_SIZE - available, count);
        CopyIn(mem, total, k);
        total := total + k;
      }
    }

    /**
     pipe_write up to the end of its first pass. The wait for room is over before the lock is taken, and
     another writer may use the room up; the first pass is the whole write, so that no other task's bytes
     come between its own, exactly when the room is still there.
     */
    method WriteOnce(mem: nat -> Byte, count: nat) returns (written: nat)
      requires Valid()
      modifies this`writePos, this`available, buffer
      ensures Valid() && Contents() == old(Contents()) + Chunk(mem, 0, written)
      ensures count <= written <==> count <= PIPE_BUFFER_SIZE - old(available)
      ensures written == count <==> (
        && count <= PIPE_BUFFER_SIZE - old(available)
        && (count <= PIPE_BUFFER_SIZE - old(writePos) || count == PIPE_BUFFER_SIZE - old(available)))
    {
      hide Queue, Stored, WriteAmount, Wrap, Chunk;
      written := 0;
      if count > written {
        WriteExact(writePos, available, count);
        FirstPassIsContiguous(mem, writePos, available, count);
        written := WritePass(mem, count, written);
      } else {
        NoChunk(mem);
      }
    }

    /** Any sequence of locked sections does to the ring what it does to the queue, up to where the machine stops. */
    method Run(steps: seq<Step>) returns (out: seq<Byte>, ok: bool)
      requires Valid()
      modifies this`readPos, this`writePos, this`available, buffer
      ensures Valid()
      ensures var m := AfterAll(Model(old(readPos), old(Contents()), [], [], false), steps);
        readPos == m.r && Contents() == m.queue && out == m.out && ok == !m.stopped
    {
      hide Queue, After, Wrap;
      out, ok := [], true;
      ghost var start := Model(readPos, Contents(), [], [], false);
      for i := 0 to |steps|
        invariant Valid()
        invariant var m := AfterAll(start, steps[..i]);
          readPos == m.r && Contents() == m.queue && out == m.out && ok == !m.stopped
      {
        assert steps[..i + 1][..i] == steps[..i];
        ghost var m := AfterAll(start, steps[..i]);
        StoppedStays(m, steps[i]);
        if ok {
          var more;
          more, ok := Perform(steps[i], m);
          out := out + more;
        }
      }
      assert steps[..|steps|] == steps;
    }

    /** One locked section; ok is false where the assertion of pipe_read fails. */
    method Perform(step: Step, ghost m: Model) returns (more: seq<Byte>, ok: bool)
      requires Valid() && Fits(m) && readPos == m.r && Contents() == m.queue && !m.stopped
      modifies this`readPos, this`writePos, this`available, buffer
      ensures Valid() && readPos == After(m, step).r && Contents() == After(m, step).queue
      ensures After(m, step).out == m.out + more && ok == !After(m, step).stopped
    {
      hide Queue, ReadAmount, WriteAmount, Stored, Wrap;
      more, ok := [], true;
      match step
      case DoRead(count) =>
        if available == 0 {
          return [], false;
        }
        more := Read(count);
        assert m.queue[|more|..] == Contents() && m.queue[..|more|] == more;
      case DoWrite(mem, count, written) =>
        var total := WritePass(mem, count, written);
    }
  }

  lemma StoppedStays(m: Model, step: Step)
    requires Fits(m)
    ensures m.stopped ==> After(m, step) == m
  {
  }

  lemma NoChunk(mem: nat -> Byte)
    ensures Chunk(mem, 0, 0) == []
  {
  }
}
