/** The rate-limited, buffered file that live migration writes to. Its backend may take a part of what it
    is offered, ask to be tried again later, or fail. */
module BufferedFile {
  import opened Basics

  /** The backend. `answers` are the results of the coming calls, in any pattern: a positive number takes
      at most so many bytes, -EAGAIN asks to be tried again later and anything else is an error. After
      them it takes everything it is offered. */
  class Backend {
    var answers: seq<int>
    var delivered: seq<Byte>

    constructor (answers: seq<int>)
      ensures this.answers == answers && delivered == []
    {
      this.answers, delivered := answers, [];
    }

    method Put(data: seq<Byte>) returns (ret: int)
      modifies this
      ensures old(answers) == [] ==> ret == |data| && answers == []
      ensures old(answers) != [] ==> answers == old(answers)[1..]
      ensures old(answers) != [] ==> ret == if old(answers)[0] < |data| then old(answers)[0] else |data|
      ensures delivered == old(delivered) + data[..if ret > 0 then ret else 0]
    {
      ret := if answers == [] || answers[0] >= |data| then |data| else answers[0];
      answers := if answers == [] then [] else answers[1..];
      if ret > 0 {
        delivered := delivered + data[..ret];
      }
    }

    /** The same as the next put of a series. */
    method PutNext(data: seq<Byte>, ghost total: Outcome, ghost limited: bool, ghost slack: int, ghost done: nat)
      returns (ret: int)
      requires data != [] && Ahead(total, answers, |data|, limited, slack, done) && !(limited && slack < 0)
      modifies this
      ensures ret > 0 ==>
                && ret <= |data| && delivered == old(delivered) + data[..ret]
                && |answers| <= |old(answers)|
                && Ahead(total, answers, |data| - ret, limited, slack - ret, done + ret)
      ensures ret <= 0 ==>
                && delivered == old(delivered) && |answers| < |old(answers)|
                && total == Outcome(done, answers, if ret == -EAGAIN then Busy else Failed)
    {
      ret := Put(data);
      if ret <= 0 {
        PutsEnds(total, old(answers), |data|, limited, slack, done);
      } else {
        PutsFurther(total, old(answers), |data|, limited, slack, done, ret, answers, |data| - ret, slack - ret,
                    done + ret);
      }
    }
  }

  // ---------------------------------------------------------------- what the answers lead to

  /** Why a series of puts ends. */
  datatype Stop = Done | Busy | Failed | OverLimit

  /** How many bytes a series of puts gets rid of, which answers are left after it, and why it ends. */
  datatype Outcome = Outcome(taken: nat, rest: seq<int>, stop: Stop) {
    function After(n: nat): Outcome { Outcome(n + taken, rest, stop) }
  }

  /** A series of puts of `n` bytes against the coming answers. If it is limited, it goes on only while what
      was put does not exceed `slack`. */
  function Puts(answers: seq<int>, n: nat, limited: bool, slack: int): (r: Outcome)
    ensures r.taken <= n && (r.stop.Done? <==> r.taken == n)
    decreases |answers|
  {
    if n == 0 then Outcome(0, answers, Done)
    else if limited && slack < 0 then Outcome(0, answers, OverLimit)
    else if answers == [] then Outcome(n, [], Done)
    else if answers[0] == -EAGAIN then Outcome(0, answers[1..], Busy)
    else if answers[0] <= 0 then Outcome(0, answers[1..], Failed)
    else
      var ret := if answers[0] < n then answers[0] else n;
      Puts(answers[1..], n - ret, limited, slack - ret).After(ret)
  }

  /** What the backend takes by `k` answers, none of them an error. */
  function Sum(answers: seq<int>, k: nat): int
    requires k <= |answers|
  {
    if k == 0 then 0 else answers[0] + Sum(answers[1..], k - 1)
  }

  /** A flush of `n` bytes fails at answer `k`: it is an error, and the backend takes less than `n` bytes
      before it. */
  ghost predicate FailsAt(answers: seq<int>, n: nat, k: nat) {
    && k < |answers| && answers[k] <= 0 && answers[k] != -EAGAIN
    && (forall j :: 0 <= j < k ==> answers[j] > 0)
    && Sum(answers, k) < n
  }

  /** A series that has put `done` bytes has `n` bytes to go, and comes out as `total` from there. */
  ghost predicate Ahead(total: Outcome, answers: seq<int>, n: nat, limited: bool, slack: int, done: nat) {
    forall o {:trigger Opened(o)} :: Opened(o) && o == total ==> o == Puts(answers, n, limited, slack).After(done)
  }

  /** Names an outcome, so that how it comes about is only looked up where it is needed. */
  ghost predicate Opened(o: Outcome) { true }

  /** The series comes out as `o`. */
  ghost predicate ComesOut(o: Outcome, answers: seq<int>, n: nat, limited: bool, slack: int) {
    Ahead(o, answers, n, limited, slack, 0)
  }

  lemma ComesOutAs(o: Outcome, answers: seq<int>, n: nat, limited: bool, slack: int)
    ensures ComesOut(o, answers, n, limited, slack) <==> o == Puts(answers, n, limited, slack)
  {
    assert Opened(o);
  }

  lemma Foreseen(answers: seq<int>, n: nat, limited: bool, slack: int) returns (o: Outcome)
    ensures ComesOut(o, answers, n, limited, slack) && o.taken <= n && (o.stop.Done? <==> o.taken == n)
  {
    o := Puts(answers, n, limited, slack);
    ComesOutAs(o, answers, n, limited, slack);
  }

  /** One put that the backend takes `ret` bytes of, as part of a series that has put `done` bytes. */
  lemma PutsFurther(total: Outcome, answers: seq<int>, n: nat, limited: bool, slack: int, done: nat,
                    ret: nat, rest: seq<int>, n': nat, slack': int, done': nat)
    requires Ahead(total, answers, n, limited, slack, done)
    requires n > 0 && !(limited && slack < 0) && ret > 0
    requires if answers == [] then ret == n && rest == []
             else ret == (if answers[0] < n then answers[0] else n) && rest == answers[1..]
    requires n' == n - ret && slack' == slack - ret && done' == done + ret
    ensures Ahead(total, rest, n', limited, slack', done')
  {
    assert Opened(total);
  }

  /** One put that ends the series. */
  lemma PutsEnds(total: Outcome, answers: seq<int>, n: nat, limited: bool, slack: int, done: nat)
    requires Ahead(total, answers, n, limited, slack, done)
    requires n > 0 && !(limited && slack < 0) && answers != [] && answers[0] <= 0
    ensures total == Outcome(done, answers[1..], if answers[0] == -EAGAIN then Busy else Failed)
  {
    assert Opened(total);
  }

  /** The series ends without another put. */
  lemma PutsOver(total: Outcome, answers: seq<int>, n: nat, limited: bool, slack: int, done: nat)
    requires Ahead(total, answers, n, limited, slack, done) && (n == 0 || (limited && slack < 0))
    ensures total == Outcome(done, answers, if n == 0 then Done else OverLimit)
  {
    assert Opened(total);
  }

  /** A flush fails exactly if there is such an answer, and goes on with the answers behind it. */
  lemma FlushFails(answers: seq<int>, n: nat)
    ensures Puts(answers, n, false, 0).stop.Failed? <==> exists k: nat :: FailsAt(answers, n, k)
    ensures forall k: nat :: FailsAt(answers, n, k) ==> Puts(answers, n, false, 0).rest == answers[k + 1..]
  {
    PutsFails(answers, n, 0);
  }

  lemma {:induction false} PutsFails(answers: seq<int>, n: nat, slack: int)
    ensures Puts(answers, n, false, slack).stop.Failed? <==> exists k: nat :: FailsAt(answers, n, k)
    ensures forall k: nat :: FailsAt(answers, n, k) ==> Puts(answers, n, false, slack).rest == answers[k + 1..]
    decreases |answers|
  {
    if n == 0 || answers == [] || answers[0] <= 0 {
      FailsAtOnce(answers, n);
      assert FailsAt(answers, n, 0) || !(n > 0 && answers != [] && answers[0] != -EAGAIN);
    } else {
      var rest, ret := answers[1..], if answers[0] < n then answers[0] else n;
      PutsFails(rest, n - ret, slack - ret);
      FailsLater(answers, n, rest, n - ret);
    }
  }

  lemma FailsAtOnce(answers: seq<int>, n: nat)
    requires n == 0 || answers == [] || answers[0] <= 0
    ensures forall k: nat :: FailsAt(answers, n, k) <==> k == 0 && n > 0 && answers != [] && answers[0] != -EAGAIN
  {
    forall k: nat | FailsAt(answers, n, k)
      ensures k == 0 && n > 0
    {
      SumPositive(answers, k);
    }
  }

  lemma FailsLater(answers: seq<int>, n: nat, rest: seq<int>, left: nat)
    requires answers != [] && answers[0] > 0 && rest == answers[1..]
    requires left == if answers[0] < n then n - answers[0] else 0
    ensures forall k: nat :: FailsAt(answers, n, k) ==>
              k > 0 && FailsAt(rest, left, k - 1) && answers[k + 1..] == rest[k..]
    ensures (exists k: nat :: FailsAt(answers, n, k)) <==> exists k: nat :: FailsAt(rest, left, k)
  {
    forall k: nat | FailsAt(answers, n, k)
      ensures k > 0 && FailsAt(rest, left, k - 1) && answers[k + 1..] == rest[k..]
    {
      SumPositive(rest, k - 1);
    }
    if k: nat :| FailsAt(rest, left, k) {
      SumPositive(rest, k);
      assert FailsAt(answers, n, k + 1);
    }
  }

  lemma {:induction false} SumPositive(answers: seq<int>, k: nat)
    requires k <= |answers| && forall j :: 0 <= j < k ==> answers[j] > 0
    ensures Sum(answers, k) >= k
    decreases k
  {
    if k > 0 {
      SumPositive(answers[1..], k - 1);
    }
  }

  // ---------------------------------------------------------------- what closing leads to

  /** Flushes of `n` bytes, one after the other, with a wait whenever the backend is busy. */
  function Drain(answers: seq<int>, n: nat): (r: Outcome)
    ensures r.taken <= n && (r.stop.Done? <==> r.taken == n) && (r.stop.Done? || r.stop.Failed?)
    decreases |answers|
  {
    if n == 0 then Outcome(0, answers, Done)
    else if answers == [] then Outcome(n, [], Done)
    else if answers[0] == -EAGAIN then Drain(answers[1..], n)
    else if answers[0] <= 0 then Outcome(0, answers[1..], Failed)
    else
      var ret := if answers[0] < n then answers[0] else n;
      Drain(answers[1..], n - ret).After(ret)
  }

  /** What the backend takes by `k` answers while it is busy for some of them. */
  function Gained(answers: seq<int>, k: nat): nat
    requires k <= |answers|
  {
    if k == 0 then 0 else (if answers[0] > 0 then answers[0] else 0) + Gained(answers[1..], k - 1)
  }

  /** Closing with `n` bytes buffered fails at answer `k`: it is the first error, and by then the backend has
      taken less than `n` bytes. */
  ghost predicate CloseFailsAt(answers: seq<int>, n: nat, k: nat) {
    && k < |answers| && answers[k] <= 0 && answers[k] != -EAGAIN
    && (forall j :: 0 <= j < k ==> answers[j] > 0 || answers[j] == -EAGAIN)
    && Gained(answers, k) < n
  }

  /** A close fails exactly if there is such an answer; the backend then has what it took before. */
  lemma {:induction false} CloseFails(answers: seq<int>, n: nat)
    ensures Drain(answers, n).stop.Failed? <==> exists k: nat :: CloseFailsAt(answers, n, k)
    ensures forall k: nat :: CloseFailsAt(answers, n, k) ==> Drain(answers, n).taken == Gained(answers, k)
    decreases |answers|
  {
    if n == 0 || answers == [] {
    } else if answers[0] <= 0 && answers[0] != -EAGAIN {
      assert CloseFailsAt(answers, n, 0);
      assert forall k: nat :: CloseFailsAt(answers, n, k) ==> k == 0;
    } else {
      var rest, left := answers[1..], if answers[0] <= 0 then n else if answers[0] < n then n - answers[0] else 0;
      CloseFails(rest, left);
      CloseFailsLater(answers, n, rest, left);
    }
  }

  lemma CloseFailsLater(answers: seq<int>, n: nat, rest: seq<int>, left: nat)
    requires answers != [] && (answers[0] > 0 || answers[0] == -EAGAIN) && rest == answers[1..]
    requires left == if answers[0] <= 0 then n else if answers[0] < n then n - answers[0] else 0
    ensures forall k: nat :: CloseFailsAt(answers, n, k) ==>
              k > 0 && CloseFailsAt(rest, left, k - 1)
              && Gained(answers, k) == Gained(rest, k - 1) + if answers[0] > 0 then answers[0] else 0
    ensures (exists k: nat :: CloseFailsAt(answers, n, k)) <==> exists k: nat :: CloseFailsAt(rest, left, k)
  {
    if k: nat :| CloseFailsAt(rest, left, k) {
      assert CloseFailsAt(answers, n, k + 1);
    }
  }

  /** A close that has delivered `done` bytes has `n` bytes to go, and comes out as `total` from there. */
  ghost predicate ToDrain(total: Outcome, answers: seq<int>, n: nat, done: nat) {
    forall o {:trigger Opened(o)} :: Opened(o) && o == total ==> o == Drain(answers, n).After(done)
  }

  lemma Drained(answers: seq<int>, n: nat) returns (o: Outcome)
    ensures ToDrain(o, answers, n, 0) && o == Drain(answers, n)
  {
    o := Drain(answers, n);
  }

  /** A close is one flush, and the rest of the close if that finds the backend busy. */
  lemma {:induction false} FlushThenDrain(answers: seq<int>, n: nat, slack: int)
    ensures var flush := Puts(answers, n, false, slack);
            Drain(answers, n) == if flush.stop.Busy? then Drain(flush.rest, n - flush.taken).After(flush.taken)
                                 else flush
    decreases |answers|
  {
    if n > 0 && answers != [] && answers[0] > 0 {
      var ret := if answers[0] < n then answers[0] else n;
      FlushThenDrain(answers[1..], n - ret, slack - ret);
    }
  }

  /** As a step of the close. */
  lemma DrainFurther(total: Outcome, answers: seq<int>, n: nat, done: nat, flush: Outcome)
    requires ToDrain(total, answers, n, done) && ComesOut(flush, answers, n, false, 0)
    ensures flush.taken <= n && !flush.stop.OverLimit?
    ensures flush.stop.Busy? ==> ToDrain(total, flush.rest, n - flush.taken, done + flush.taken)
    ensures !flush.stop.Busy? ==> total == Outcome(done + flush.taken, flush.rest, flush.stop)
  {
    ComesOutAs(flush, answers, n, false, 0);
    FlushThenDrain(answers, n, 0);
    UnlimitedStops(answers, n, 0);
    assert Opened(total);
  }

  /** New data overtakes old data exactly then: there is new data, the flush of the `waiting` bytes fails,
      the limit still allows a put, and the backend recovers. */
  predicate Overtakes(answers: seq<int>, waiting: nat, size: nat, slack: int) {
    var flush := Puts(answers, waiting, false, 0);
    size > 0 && flush.stop.Failed? && slack >= 0 && (flush.rest == [] || flush.rest[0] > 0)
  }

  /** The flush and the direct puts of one buffered_put_buffer; a flush that finds the backend busy leaves no
      direct puts. */
  ghost predicate Fate(answers: seq<int>, waiting: nat, size: nat, slack: int, flush: Outcome, puts: Outcome) {
    && ComesOut(flush, answers, waiting, false, 0)
    && if flush.stop.Busy? then puts == Outcome(0, flush.rest, Busy) else ComesOut(puts, flush.rest, size, true, slack)
  }

  lemma OvertakenWhen(answers: seq<int>, waiting: nat, size: nat, slack: int, flush: Outcome, puts: Outcome)
    requires Fate(answers, waiting, size, slack, flush, puts)
    ensures Overtakes(answers, waiting, size, slack) <==> puts.taken > 0 && flush.taken < waiting
    ensures puts.taken > 0 && flush.taken < waiting ==> flush.stop.Failed?
  {
    UnlimitedStops(answers, waiting, 0);
    ComesOutAs(flush, answers, waiting, false, 0);
    ComesOutAs(puts, flush.rest, size, true, slack);
  }

  lemma {:induction false} UnlimitedStops(answers: seq<int>, n: nat, slack: int)
    ensures !Puts(answers, n, false, slack).stop.OverLimit?
    decreases |answers|
  {
    if n > 0 && answers != [] && answers[0] > 0 {
      var ret := if answers[0] < n then answers[0] else n;
      UnlimitedStops(answers[1..], n - ret, slack - ret);
    }
  }

  lemma Taken(delivered: seq<Byte>, data: seq<Byte>, n: nat, ret: nat)
    requires n + ret <= |data|
    ensures (delivered + data[..n]) + data[n..][..ret] == delivered + data[..n + ret]
  {
    assert data[..n] + data[n..][..ret] == data[..n + ret];
  }

  /** Moving a prefix of the buffer to the backend changes nothing taken together. */
  lemma Kept(delivered: seq<Byte>, waiting: seq<Byte>, n: nat)
    requires n <= |waiting|
    ensures (delivered + waiting[..n]) + waiting[n..] == delivered + waiting
  {
    assert waiting == waiting[..n] + waiting[n..];
  }

  /** The same for new data, when all the old data went first or none of the new data went directly. */
  lemma InOrder(delivered: seq<Byte>, waiting: seq<Byte>, n: nat, data: seq<Byte>, m: nat)
    requires n <= |waiting| && m <= |data| && (n == |waiting| || m == 0)
    ensures (delivered + waiting[..n] + data[..m]) + (waiting[n..] + data[m..]) == (delivered + waiting) + data
  {
    assert waiting == waiting[..n] + waiting[n..] && data == data[..m] + data[m..];
    if n == |waiting| {
      assert waiting[..n] == waiting && waiting[n..] == [];
    } else {
      assert data[..m] == [] && data[m..] == data;
    }
  }

  class File {
    const backend: Backend
    var hasError: bool
    var freezeOutput: bool
    var bytesXfer: nat
    var xferLimit: nat
    var buffer: array<Byte>
    var bufferSize: nat
    /** Every byte accepted by a put so far. */
    ghost var accepted: seq<Byte>
    /** The size of the last direct put that was counted, and the limit at that time. */
    ghost var lastPut: nat
    ghost var putLimit: nat

    constructor (backend: Backend, bytesPerSec: nat)
      requires backend.delivered == []
      ensures this.backend == backend && Valid() && fresh(buffer)
      ensures !hasError && accepted == [] && xferLimit == bytesPerSec / 10 && Buffered() == []
      ensures bytesXfer == putLimit == lastPut == 0
    {
      this.backend := backend;
      hasError, freezeOutput, bytesXfer, xferLimit := false, false, 0, bytesPerSec / 10;
      buffer, bufferSize := new Byte[0], 0;
      accepted, lastPut, putLimit := [], 0, 0;
    }

    ghost function Buffered(): seq<Byte>
      requires bufferSize <= buffer.Length
      reads this, buffer
    {
      buffer[..bufferSize]
    }

    /** Unless there was an error, what the backend has and what is buffered are together, in this order,
        everything accepted. What was put directly exceeds the limit by at most the last put. */
    ghost predicate Valid()
      reads this, backend, buffer
    {
      && bufferSize <= buffer.Length
      && (!hasError ==> backend.delivered + Buffered() == accepted)
      && bytesXfer <= putLimit + lastPut
    }

    /** buffered_append. */
    method Append(data: seq<Byte>)
      requires bufferSize <= buffer.Length
      modifies this`buffer, this`bufferSize, buffer
      ensures bufferSize <= buffer.Length && Buffered() == old(Buffered()) + data
      ensures buffer == old(buffer) || fresh(buffer)
    {
      if |data| > buffer.Length - bufferSize {
        var bigger := new Byte[buffer.Length + |data| + 1024];
        forall i | 0 <= i < bufferSize {
          bigger[i] := buffer[i];
        }
        assert bigger[..bufferSize] == buffer[..bufferSize];
        buffer := bigger;
      }
      forall i | 0 <= i < |data| {
        buffer[bufferSize + i] := data[i];
      }
      bufferSize := bufferSize + |data|;
    }

    /** buffered_flush: the backend gets a prefix of the buffer, and exactly the rest stays. When there was
        no error it ends with an empty buffer or frozen. */
    method Flush() returns (ghost flush: Outcome)
      requires bufferSize <= buffer.Length
      modifies this`hasError, this`freezeOutput, this`bufferSize, buffer, backend
      ensures bufferSize <= buffer.Length && flush.taken <= |old(Buffered())|
      ensures backend.delivered == old(backend.delivered) + old(Buffered())[..flush.taken]
      ensures Buffered() == old(Buffered())[flush.taken..]
      ensures old(hasError) ==>
                hasError && flush == Outcome(0, old(backend.answers), Failed) && freezeOutput == old(freezeOutput)
      ensures backend.answers == flush.rest && hasError == flush.stop.Failed?
      ensures !old(hasError) ==>
                && ComesOut(flush, old(backend.answers), |old(Buffered())|, false, 0)
                && freezeOutput == (old(freezeOutput) || flush.stop.Busy?)
      ensures !hasError ==> bufferSize == 0 || freezeOutput
      ensures |backend.answers| <= |old(backend.answers)|
      ensures !hasError && bufferSize > 0 ==> |backend.answers| < |old(backend.answers)|
    {
      flush := Outcome(0, backend.answers, Failed);
      if hasError {
        return;
      }
      flush := Foreseen(backend.answers, bufferSize, false, 0);
      var offset := FlushLoop(flush);
      DropFront(offset);
    }

    /** The backend took nothing. */
    method Stopped(ret: int) returns (failed: bool)
      modifies this`hasError, this`freezeOutput
      ensures failed == (ret != -EAGAIN)
      ensures hasError == (old(hasError) || failed) && freezeOutput == (old(freezeOutput) || !failed)
    {
      failed := ret != -EAGAIN;
      if failed {
        hasError := true;
      } else {
        freezeOutput := true;
      }
    }

    /** The puts of buffered_flush. */
    method FlushLoop(ghost total: Outcome) returns (offset: nat)
      requires bufferSize <= buffer.Length && !hasError && ComesOut(total, backend.answers, bufferSize, false, 0)
      modifies this`hasError, this`freezeOutput, backend
      ensures offset <= bufferSize && offset == total.taken && backend.answers == total.rest
      ensures |backend.answers| <= |old(backend.answers)|
      ensures total.stop.Busy? ==> |backend.answers| < |old(backend.answers)|
      ensures !total.stop.OverLimit?
      ensures hasError == total.stop.Failed? && freezeOutput == (old(freezeOutput) || total.stop.Busy?)
      ensures backend.delivered == old(backend.delivered) + Buffered()[..offset]
    {
      offset := 0;
      ghost var contents, slack: int := Buffered(), 0;
      while offset < bufferSize
        invariant offset <= bufferSize && Buffered() == contents && !hasError && freezeOutput == old(freezeOutput)
        invariant backend.delivered == old(backend.delivered) + contents[..offset]
        invariant |backend.answers| <= |old(backend.answers)|
        invariant Ahead(total, backend.answers, bufferSize - offset, false, slack - offset, offset)
      {
        assert buffer[offset..bufferSize] == contents[offset..];
        var ret := backend.PutNext(buffer[offset..bufferSize], total, false, slack - offset, offset);
        if ret <= 0 {
          var failed := Stopped(ret);
          return;
        }
        Taken(old(backend.delivered), contents, offset, ret);
        offset := offset + ret;
      }
      PutsOver(total, backend.answers, bufferSize - offset, false, slack - offset, offset);
    }

    /** memmove of what is left to the front. */
    method DropFront(offset: nat)
      requires offset <= bufferSize <= buffer.Length
      modifies this`bufferSize, buffer
      ensures bufferSize == old(bufferSize) - offset && Buffered() == old(Buffered())[offset..]
    {
      forall i | 0 <= i < bufferSize - offset {
        buffer[i] := buffer[offset + i];
      }
      bufferSize := bufferSize - offset;
    }

    /** The direct puts of buffered_put_buffer: the backend gets a prefix of the data. They go on until
        all of it is taken, the transfer limit is exceeded, the backend is busy or it fails. */
    method PutDirectly(data: seq<Byte>) returns (direct: nat, failed: bool, ghost puts: Outcome)
      requires bytesXfer <= putLimit + lastPut
      modifies this`freezeOutput, this`hasError, this`bytesXfer, this`lastPut, this`putLimit, backend
      ensures direct <= |data| && backend.delivered == old(backend.delivered) + data[..direct]
      ensures direct == puts.taken && backend.answers == puts.rest && failed == puts.stop.Failed?
      ensures hasError == (old(hasError) || failed)
      ensures if old(freezeOutput) then puts == Outcome(0, old(backend.answers), Busy)
              else ComesOut(puts, old(backend.answers), |data|, true, xferLimit - old(bytesXfer))
      ensures freezeOutput == puts.stop.Busy?
      ensures direct == |data| || failed || freezeOutput || bytesXfer > xferLimit
      ensures bytesXfer == old(bytesXfer) + direct && bytesXfer <= putLimit + lastPut
      ensures if direct > 0 then putLimit == xferLimit && lastPut <= direct
              else putLimit == old(putLimit) && lastPut == old(lastPut)
    {
      direct, failed, puts := 0, false, Outcome(0, backend.answers, Busy);
      if !freezeOutput {
        puts := Foreseen(backend.answers, |data|, true, xferLimit - bytesXfer);
        direct, failed := PutLoop(data, puts);
      }
    }

    /** The loop. */
    method PutLoop(data: seq<Byte>, ghost total: Outcome) returns (direct: nat, failed: bool)
      requires bytesXfer <= putLimit + lastPut && !freezeOutput
      requires ComesOut(total, backend.answers, |data|, true, xferLimit - bytesXfer)
      modifies this`freezeOutput, this`hasError, this`bytesXfer, this`lastPut, this`putLimit, backend
      ensures direct <= |data| && backend.delivered == old(backend.delivered) + data[..direct]
      ensures direct == total.taken && backend.answers == total.rest
      ensures failed == total.stop.Failed? && freezeOutput == total.stop.Busy? && hasError == (old(hasError) || failed)
      ensures total.stop.OverLimit? ==> bytesXfer > xferLimit
      ensures bytesXfer == old(bytesXfer) + direct && bytesXfer <= putLimit + lastPut
      ensures if direct > 0 then putLimit == xferLimit && lastPut <= direct
              else putLimit == old(putLimit) && lastPut == old(lastPut)
    {
      direct, failed := 0, false;
      ghost var slack := xferLimit - bytesXfer;
      while !freezeOutput && direct < |data|
        invariant direct <= |data| && backend.delivered == old(backend.delivered) + data[..direct]
        invariant hasError == old(hasError) && !freezeOutput
        invariant bytesXfer == old(bytesXfer) + direct && bytesXfer <= putLimit + lastPut
        invariant if direct > 0 then putLimit == xferLimit && lastPut <= direct
                  else putLimit == old(putLimit) && lastPut == old(lastPut)
        invariant Ahead(total, backend.answers, |data| - direct, true, slack - direct, direct)
      {
        if bytesXfer > xferLimit {
          break;
        }
        var ret := backend.PutNext(data[direct..], total, true, slack - direct, direct);
        if ret <= 0 {
          failed := Stopped(ret);
          return;
        }
        Taken(old(backend.delivered), data, direct, ret);
        direct := direct + ret;
        bytesXfer, lastPut, putLimit := bytesXfer + ret, ret, xferLimit;
      }
      PutsOver(total, backend.answers, |data| - direct, true, slack - direct, direct);
    }

    /** buffered_put_buffer. The backend gets a prefix of what was buffered and then a prefix of the data,
        and everything else is buffered; only an error can make it get new data before all the old data.
        Without an error all of the data is accepted. */
    method PutBuffer(data: seq<Byte>) returns (r: int, ghost flush: Outcome, ghost puts: Outcome)
      requires Valid()
      modifies this, buffer, backend
      ensures Valid() && (buffer == old(buffer) || fresh(buffer)) && xferLimit == old(xferLimit)
      ensures r == |data| || (r == -EINVAL && hasError)
      ensures old(hasError) ==> r == -EINVAL && hasError && flush.taken == puts.taken == 0
      ensures flush.taken <= |old(Buffered())| && puts.taken <= |data|
      ensures backend.delivered == old(backend.delivered) + old(Buffered())[..flush.taken] + data[..puts.taken]
      ensures Buffered() == old(Buffered())[flush.taken..] + if r == -EINVAL then [] else data[puts.taken..]
      ensures freezeOutput == if old(hasError) then old(freezeOutput) else puts.stop.Busy?
      ensures !old(hasError) ==>
                && Fate(old(backend.answers), |old(Buffered())|, |data|, xferLimit - old(bytesXfer), flush, puts)
                && backend.answers == puts.rest && hasError == (flush.stop.Failed? || puts.stop.Failed?)
                && (r == -EINVAL <==> puts.stop.Failed?)
      ensures !old(hasError) ==>
                (puts.taken > 0 && flush.taken < |old(Buffered())|
                 <==> Overtakes(old(backend.answers), |old(Buffered())|, |data|, xferLimit - old(bytesXfer)))
      ensures puts.taken > 0 && flush.taken < |old(Buffered())| ==> hasError
      ensures !hasError ==> r == |data| && accepted == old(accepted) + data
      ensures bytesXfer == old(bytesXfer) + puts.taken
      ensures if puts.taken > 0 then putLimit == xferLimit && lastPut <= puts.taken
              else putLimit == old(putLimit) && lastPut == old(lastPut)
    {
      flush, puts := Outcome(0, backend.answers, Failed), Outcome(0, backend.answers, Failed);
      if hasError {
        return -EINVAL, flush, puts;
      }
      r, flush, puts := PutUnfailed(data);
      OvertakenWhen(old(backend.answers), |old(Buffered())|, |data|, xferLimit - old(bytesXfer), flush, puts);
    }

    /** The rest of buffered_put_buffer, when there was no error. */
    method PutUnfailed(data: seq<Byte>) returns (r: int, ghost flush: Outcome, ghost puts: Outcome)
      requires Valid() && !hasError
      modifies this, buffer, backend
      ensures Valid() && (buffer == old(buffer) || fresh(buffer)) && xferLimit == old(xferLimit)
      ensures r == if puts.stop.Failed? then -EINVAL else |data|
      ensures flush.taken <= |old(Buffered())| && puts.taken <= |data|
      ensures backend.delivered == old(backend.delivered) + old(Buffered())[..flush.taken] + data[..puts.taken]
      ensures Buffered() == old(Buffered())[flush.taken..] + if puts.stop.Failed? then [] else data[puts.taken..]
      ensures Fate(old(backend.answers), |old(Buffered())|, |data|, xferLimit - old(bytesXfer), flush, puts)
      ensures backend.answers == puts.rest && hasError == (flush.stop.Failed? || puts.stop.Failed?)
      ensures freezeOutput == puts.stop.Busy?
      ensures !hasError ==> accepted == old(accepted) + data
      ensures bytesXfer == old(bytesXfer) + puts.taken
      ensures if puts.taken > 0 then putLimit == xferLimit && lastPut <= puts.taken
              else putLimit == old(putLimit) && lastPut == old(lastPut)
    {
      ghost var waiting, slack := Buffered(), xferLimit - bytesXfer;
      freezeOutput := false;
      flush := Flush();
      var n, failed;
      n, failed, puts := PutDirectly(data);
      OvertakenWhen(old(backend.answers), |waiting|, |data|, slack, flush, puts);
      if failed {
        return -EINVAL, flush, puts;
      }
      Append(data[n..]);
      accepted := accepted + data;
      if !hasError {
        InOrder(old(backend.delivered), waiting, flush.taken, data, puts.taken);
      }
      return |data|, flush, puts;
    }

    /** buffered_rate_limit. */
    method RateLimit() returns (stop: bool)
      ensures stop <==> !hasError && (freezeOutput || bytesXfer > xferLimit)
    {
      if hasError {
        return false;
      }
      if freezeOutput {
        return true;
      }
      return bytesXfer > xferLimit;
    }

    /** buffered_set_rate_limit. */
    method SetRateLimit(newRate: nat) returns (limit: nat)
      requires Valid()
      modifies this`xferLimit
      ensures Valid() && limit == xferLimit == if hasError then old(xferLimit) else newRate / 10
    {
      if !hasError {
        xferLimit := newRate / 10;
      }
      return xferLimit;
    }

    /** buffered_rate_tick, up to the call that tells the producer to go on: a new window, and a flush. After an
        error, or while the output is frozen, nothing changes. */
    method RateTick() returns (ghost flush: Outcome)
      requires Valid()
      modifies this`bytesXfer, this`hasError, this`freezeOutput, this`bufferSize, buffer, backend
      ensures Valid() && flush.taken <= |old(Buffered())|
      ensures backend.delivered == old(backend.delivered) + old(Buffered())[..flush.taken]
      ensures Buffered() == old(Buffered())[flush.taken..] && backend.answers == flush.rest
      ensures old(hasError || freezeOutput) ==>
                && flush.taken == 0 && flush.rest == old(backend.answers)
                && bytesXfer == old(bytesXfer) && hasError == old(hasError) && freezeOutput == old(freezeOutput)
      ensures !old(hasError || freezeOutput) ==>
                && flush == Puts(old(backend.answers), |old(Buffered())|, false, 0)
                && bytesXfer == 0 && hasError == flush.stop.Failed? && freezeOutput == flush.stop.Busy?
      ensures !hasError && !old(freezeOutput) ==> bufferSize == 0 || freezeOutput
    {
      flush := Outcome(0, backend.answers, Busy);
      if hasError {
        return;
      }
      if freezeOutput {
        return;
      }
      bytesXfer := 0;
      flush := Flush();
      ComesOutAs(flush, old(backend.answers), |old(Buffered())|, false, 0);
      Kept(old(backend.delivered), old(Buffered()), flush.taken);
    }

    /** The loop of buffered_close. The backend is not busy for ever, so the loop ends. It fails exactly if there
        was an error before or the backend answers with one before it has everything; otherwise everything
        accepted has been delivered. */
    method Close() returns (ghost all: Outcome)
      requires Valid()
      modifies this`hasError, this`freezeOutput, this`bufferSize, buffer, backend
      ensures Valid() && all.taken <= |old(Buffered())|
      ensures backend.delivered == old(backend.delivered) + old(Buffered())[..all.taken]
      ensures Buffered() == old(Buffered())[all.taken..] && backend.answers == all.rest
      ensures old(hasError) ==> all.taken == 0 && all.rest == old(backend.answers)
      ensures !old(hasError) ==> all == Drain(old(backend.answers), |old(Buffered())|)
      ensures hasError <==> old(hasError) || exists k: nat :: CloseFailsAt(old(backend.answers), |old(Buffered())|, k)
      ensures !hasError ==> bufferSize == 0 && backend.delivered == accepted
    {
      all := Outcome(0, backend.answers, Failed);
      ghost var contents := Buffered();
      if !hasError {
        all := Drained(backend.answers, bufferSize);
        CloseFails(backend.answers, bufferSize);
      }
      ghost var done: nat := 0;
      while !hasError && bufferSize > 0
        invariant Valid() && (old(hasError) ==> hasError) && done <= |contents|
        invariant backend.delivered == old(backend.delivered) + contents[..done] && Buffered() == contents[done..]
        invariant if hasError then all == Outcome(done, backend.answers, Failed)
                  else ToDrain(all, backend.answers, bufferSize, done)
        decreases !hasError, if hasError || bufferSize == 0 then 0 else 1 + |backend.answers|
      {
        done := FlushAndWait(all, done, contents, old(backend.delivered));
      }
      if !hasError {
        assert Opened(all);
      }
    }

    /** The body of the loop. The next answers of the backend are those after the wait. */
    method FlushAndWait(ghost all: Outcome, ghost done: nat, ghost contents: seq<Byte>, ghost delivered: seq<Byte>)
      returns (ghost done': nat)
      requires Valid() && !hasError && ToDrain(all, backend.answers, bufferSize, done) && done <= |contents|
      requires backend.delivered == delivered + contents[..done] && Buffered() == contents[done..]
      modifies this`hasError, this`freezeOutput, this`bufferSize, buffer, backend
      ensures Valid() && done' <= |contents|
      ensures backend.delivered == delivered + contents[..done'] && Buffered() == contents[done'..]
      ensures if hasError then all == Outcome(done', backend.answers, Failed)
              else ToDrain(all, backend.answers, bufferSize, done')
      ensures !hasError && bufferSize > 0 ==> |backend.answers| < |old(backend.answers)|
    {
      ghost var flush := Flush();
      DrainFurther(all, old(backend.answers), old(bufferSize), done, flush);
      Kept(old(backend.delivered), old(Buffered()), flush.taken);
      Taken(delivered, contents, done, flush.taken);
      done' := done + flush.taken;
      if !hasError && !flush.stop.Busy? {
        DrainedAll(all, backend.answers, done');
      }
    }
  }

  /** Nothing is left to go. */
  lemma DrainedAll(total: Outcome, answers: seq<int>, done: nat)
    requires total == Outcome(done, answers, Done)
    ensures ToDrain(total, answers, 0, done)
  {
  }

  // ---------------------------------------------------------------- whole runs

  datatype Operation = Put(data: seq<Byte>) | Tick | SetRate(rate: nat)

  /** All the data of the puts, in order. */
  function Offered(ops: seq<Operation>): seq<Byte> {
    if ops == [] then []
    else
      var last := ops[|ops| - 1];
      Offered(ops[..|ops| - 1]) + (if last.Put? then last.data else [])
  }

  predicate NoSetRate(ops: seq<Operation>) {
    forall k :: 0 <= k < |ops| ==> !ops[k].SetRate?
  }

  /** The size of a put is at most that of the data of some put operation. */
  ghost predicate FromData(ops: seq<Operation>, put: nat) {
    put == 0 || exists j :: 0 <= j < |ops| && ops[j].Put? && put <= |ops[j].data|
  }

  /** A whole run against any backend behaviour, followed by a close: at the end of every prefix of the
      run without an error, what was delivered and what is still buffered are together exactly what was
      offered, and after the close everything offered has been delivered. While the rate is not changed,
      what was put directly in the current window (`xfers`, after each operation) exceeds the limit by at
      most the last put. */
  method Run(ops: seq<Operation>, answers: seq<int>, bytesPerSec: nat)
    returns (failed: bool, before: seq<Byte>, left: seq<Byte>, closedFailed: bool, after: seq<Byte>, xfers: seq<nat>,
             coming: seq<int>, ghost puts: seq<nat>)
    ensures !failed ==> before + left == Offered(ops)
    ensures closedFailed <==> failed || exists k: nat :: CloseFailsAt(coming, |left|, k)
    ensures !closedFailed ==> after == Offered(ops)
    ensures after == before + left[..if failed then 0 else Drain(coming, |left|).taken]
    ensures |xfers| == |puts| == |ops|
    ensures NoSetRate(ops) ==>
              forall k :: 0 <= k < |ops| ==> xfers[k] <= bytesPerSec / 10 + puts[k] && FromData(ops[..k + 1], puts[k])
  {
    var b := new Backend(answers);
    var f := new File(b, bytesPerSec);
    xfers, puts := Play(f, ops, bytesPerSec);
    failed, before, left, coming := f.hasError, b.delivered, f.buffer[..f.bufferSize], b.answers;
    ghost var all := f.Close();
    closedFailed, after := f.hasError, b.delivered;
  }

  /** The operations of a run on a new file. */
  method Play(f: File, ops: seq<Operation>, bytesPerSec: nat) returns (xfers: seq<nat>, ghost puts: seq<nat>)
    requires f.Valid() && !f.hasError && f.accepted == [] && f.xferLimit == bytesPerSec / 10
    requires f.bytesXfer == f.putLimit == f.lastPut == 0
    modifies f, f.backend, f.buffer
    ensures f.Valid() && (f.buffer == old(f.buffer) || fresh(f.buffer))
    ensures !f.hasError ==> f.accepted == Offered(ops)
    ensures |xfers| == |puts| == |ops|
    ensures NoSetRate(ops) ==>
              forall k :: 0 <= k < |ops| ==> xfers[k] <= bytesPerSec / 10 + puts[k] && FromData(ops[..k + 1], puts[k])
  {
    xfers, puts := [], [];
    for k := 0 to |ops|
      invariant (f.buffer == old(f.buffer) || fresh(f.buffer)) && f.Valid()
      invariant !f.hasError ==> f.accepted == Offered(ops[..k])
      invariant |xfers| == |puts| == k
      invariant NoSetRate(ops) ==> f.xferLimit == bytesPerSec / 10 >= f.putLimit && FromData(ops[..k], f.lastPut)
      invariant NoSetRate(ops) ==>
                  forall j :: 0 <= j < k ==> xfers[j] <= bytesPerSec / 10 + puts[j] && FromData(ops[..j + 1], puts[j])
    {
      assert ops[..k + 1][..k] == ops[..k];
      FromDataMore(ops, k, f.lastPut);
      PlayOne(f, ops[k]);
      assert ops[..k + 1][k] == ops[k];
      xfers, puts := xfers + [f.bytesXfer], puts + [f.lastPut];
    }
    assert ops[..|ops|] == ops;
  }

  /** One operation. */
  method PlayOne(f: File, op: Operation)
    requires f.Valid()
    modifies f, f.backend, f.buffer
    ensures f.Valid() && (f.buffer == old(f.buffer) || fresh(f.buffer))
    ensures old(f.hasError) ==> f.hasError
    ensures !f.hasError ==> f.accepted == old(f.accepted) + if op.Put? then op.data else []
    ensures !op.SetRate? ==> f.xferLimit == old(f.xferLimit)
    ensures f.putLimit == old(f.putLimit) || f.putLimit == old(f.xferLimit)
    ensures f.lastPut == old(f.lastPut) || (op.Put? && f.lastPut <= |op.data|)
  {
    match op {
      case Put(data) =>
        var r, _, _ := f.PutBuffer(data);
      case Tick =>
        var _ := f.RateTick();
      case SetRate(rate) =>
        var limit := f.SetRateLimit(rate);
    }
  }

  lemma FromDataMore(ops: seq<Operation>, k: nat, put: nat)
    requires k < |ops|
    ensures FromData(ops[..k], put) ==> FromData(ops[..k + 1], put)
  {
    if FromData(ops[..k], put) && put != 0 {
      var j :| 0 <= j < k && ops[..k][j].Put? && put <= |ops[..k][j].data|;
      assert ops[..k + 1][j] == ops[..k][j];
    }
  }

  lemma FirstByteWaits(flush: Outcome, puts: Outcome)
    requires Fate([-EAGAIN, 0, 5], 0, 1, 100, flush, puts)
    ensures flush.taken == 0 && puts == Outcome(0, [0, 5], Busy) && !flush.stop.Failed?
  {
    ComesOutAs(flush, [-EAGAIN, 0, 5], 0, false, 0);
    ComesOutAs(puts, [-EAGAIN, 0, 5], 1, true, 100);
    assert [-EAGAIN, 0, 5][1..] == [0, 5];
  }

  lemma SecondByteGoes(flush: Outcome, puts: Outcome)
    requires Fate([0, 5], 1, 1, 100, flush, puts)
    ensures flush.taken == 0 && puts.taken == 1 && flush.stop.Failed? && !puts.stop.Failed?
  {
    ComesOutAs(flush, [0, 5], 1, false, 0);
    assert [0, 5][1..] == [5] && [5][1..] == [];
    ComesOutAs(puts, [5], 1, true, 100);
  }

  /** The order is lost: the backend is busy for the first byte, fails when it is flushed, recovers and gets
      the second byte, while the first is still buffered. */
  method NewBeforeOld() returns (delivered: seq<Byte>, waiting: seq<Byte>)
    ensures delivered == [2] && waiting == [1]
  {
    var answers := [-EAGAIN, 0, 5];
    var b := new Backend(answers);
    var f := new File(b, 1000);
    var r, flush, puts := f.PutBuffer([1]);
    FirstByteWaits(flush, puts);
    assert f.Buffered() == [1];
    r, flush, puts := f.PutBuffer([2]);
    SecondByteGoes(flush, puts);
    delivered, waiting := b.delivered, f.buffer[..f.bufferSize];
  }
}
