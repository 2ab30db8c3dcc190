/** `Serial::txd` and `Serial::rxd` (src/serial.cpp) over a file descriptor whose `write` and
    `read` may answer anything the system calls may answer. */
module SerialDevice {
  import opened ByteStrings

  /** A nonzero `errno`. */
  type Errno = e: int | e > 0 witness 1

  const EAGAIN: Errno := 11 // also EWOULDBLOCK
  const ENOTCONN: Errno := 107

  // ----- write

  /** `Wrote(n)` offers to take n bytes; the call takes no more than it is given. */
  datatype WriteAnswer = Wrote(n: nat) | WriteFailed(errno: Errno)

  function Taken(n: nat, len: nat): (k: nat)
    ensures k <= len
  {
    if n < len then n else len
  }

  /** The answer neither takes a byte nor ends the loop. */
  predicate Stalls(a: WriteAnswer) {
    a == Wrote(0) || a == WriteFailed(EAGAIN)
  }

  predicate Fatal(a: WriteAnswer) {
    a.WriteFailed? && a.errno != EAGAIN
  }

  /** From the call numbered `patience` on, no answer stalls: only finitely many do. */
  ghost predicate Patient(answers: nat -> WriteAnswer, patience: nat) {
    forall i :: i >= patience ==> !Stalls(answers(i))
  }

  ghost predicate NeverFatal(answers: nat -> WriteAnswer) {
    forall i :: !Fatal(answers(i))
  }

  /** The errors that end the loop are all but 11; 11 and a write of nothing make it go on. */
  lemma AnswersByNumber(a: WriteAnswer)
    ensures Fatal(a) <==> a.WriteFailed? && a.errno != 11
    ensures Stalls(a) <==> a == Wrote(0) || a == WriteFailed(11)
  {
  }

  /** How many bytes the calls from one number up to another offered to take. */
  function Offered(answers: nat -> WriteAnswer, from: nat, next: nat): nat
    requires from <= next
    decreases next
  {
    if from == next then 0
    else Offered(answers, from, next - 1) + (match answers(next - 1)
                                             case Wrote(n) => n
                                             case WriteFailed(_) => 0)
  }

  lemma OfferedMore(answers: nat -> WriteAnswer, from: nat, next: nat, n: nat)
    requires from <= next
    ensures Offered(answers, from, from) == 0
    ensures answers(next) == Wrote(n) ==> Offered(answers, from, next + 1) == Offered(answers, from, next) + n
    ensures answers(next).WriteFailed? ==> Offered(answers, from, next + 1) == Offered(answers, from, next)
  {
  }

  /** The calls numbered `from` to `next`, made to write `len` bytes, are exactly the ones to make,
      and `rc` is what they amount to: there is a next call as long as bytes are left and none
      has failed with an error other than 11. */
  ghost predicate WriteEnds(answers: nat -> WriteAnswer, from: nat, next: nat, len: nat, rc: int)
    requires from <= next
  {
    && (rc == 0 <==> Offered(answers, from, next) >= len)
    && (rc != 0 ==> next > from && answers(next - 1).WriteFailed? && answers(next - 1).errno == rc != 11)
    && (forall k :: from <= k < next && answers(k).WriteFailed? && answers(k).errno != 11 ==>
          next == k + 1 && rc == answers(k).errno)
    && (next > from ==> Offered(answers, from, next - 1) < len)
  }

  /** That leaves no choice of where to end, or of what to return. */
  lemma OneWayToEnd(answers: nat -> WriteAnswer, from: nat, next: nat, next': nat, len: nat, rc: int, rc': int)
    requires from <= next <= next'
    requires WriteEnds(answers, from, next, len, rc) && WriteEnds(answers, from, next', len, rc')
    ensures next == next' && rc == rc'
  {
    if next < next' {
      OfferedGrows(answers, from, next, next' - 1);
    }
  }

  lemma {:induction false} OfferedGrows(answers: nat -> WriteAnswer, from: nat, next: nat, next': nat)
    requires from <= next <= next'
    ensures Offered(answers, from, next) <= Offered(answers, from, next')
    decreases next'
  {
    if next < next' {
      OfferedGrows(answers, from, next, next' - 1);
    }
  }

  lemma TakeMore(before: Bytes, buffer: Bytes, done: nat, k: nat)
    requires done + k <= |buffer|
    ensures (before + buffer[..done]) + buffer[done..][..k] == before + buffer[..done + k]
    ensures buffer[done..][k..] == buffer[done + k..]
    ensures done + k == |buffer| ==> buffer[..done + k] == buffer
  {
  }

  /** In the middle of it: nothing has failed for good, and so many bytes are left. */
  ghost predicate WriteGoesOn(answers: nat -> WriteAnswer, from: nat, next: nat, len: nat, left: nat) {
    && from <= next && Offered(answers, from, next) + left == len && (left == 0 ==> next == from)
    && forall k :: from <= k < next ==> !(answers(k).WriteFailed? && answers(k).errno != 11)
  }

  lemma OneCallMore(answers: nat -> WriteAnswer, from: nat, next: nat, len: nat, left: nat)
    requires WriteGoesOn(answers, from, next, len, left) && left > 0
    ensures match answers(next)
            case Wrote(n) =>
              if n < left then WriteGoesOn(answers, from, next + 1, len, left - n)
              else WriteEnds(answers, from, next + 1, len, 0) && Offered(answers, from, next + 1) >= len
            case WriteFailed(errno) =>
              if errno == 11 then WriteGoesOn(answers, from, next + 1, len, left)
              else WriteEnds(answers, from, next + 1, len, errno) && Offered(answers, from, next + 1) + left == len
  {
  }

  /** The first call has to wait, the second takes everything. */
  lemma WaitsOnce(answers: nat -> WriteAnswer, from: nat, next: nat, len: nat, rc: int, n: nat)
    requires from <= next && WriteEnds(answers, from, next, len, rc)
    requires answers(from) == WriteFailed(11) && answers(from + 1) == Wrote(n) && n >= len > 0
    ensures rc == 0 && next == from + 2
  {
    assert Offered(answers, from, from + 1) == 0;
    assert Offered(answers, from, from + 2) == n;
    OneWayToEnd(answers, from, if next <= from + 2 then next else from + 2, if next <= from + 2 then from + 2 else next,
                len, if next <= from + 2 then rc else 0, if next <= from + 2 then 0 else rc);
  }

  /** The first call fails for good. */
  lemma FailsAtOnce(answers: nat -> WriteAnswer, from: nat, next: nat, len: nat, rc: int, errno: Errno)
    requires from <= next && WriteEnds(answers, from, next, len, rc)
    requires answers(from) == WriteFailed(errno) && errno != 11 && len > 0
    ensures rc == errno && next == from + 1
  {
  }

  // ----- read

  type Chunk = c: Bytes | |c| <= 1024

  datatype ReadAnswer = Got(chunk: Chunk) | ReadFailed(errno: Errno)

  predicate HasData(a: ReadAnswer) {
    a.Got? && |a.chunk| > 0
  }

  /** The bytes of the answers before the first one without any. */
  function DataRead(answers: seq<ReadAnswer>): Bytes {
    if answers == [] || !HasData(answers[0]) then [] else answers[0].chunk + DataRead(answers[1..])
  }

  predicate RunsDry(answers: seq<ReadAnswer>) {
    exists i :: 0 <= i < |answers| && !HasData(answers[i])
  }

  /** What the first answer without data makes `rxd` return. */
  function StopCode(answers: seq<ReadAnswer>): int
    requires RunsDry(answers)
  {
    if HasData(answers[0]) then
      RunsDryLater(answers);
      StopCode(answers[1..])
    else if answers[0].ReadFailed? && answers[0].errno != EAGAIN then answers[0].errno
    else 0
  }

  lemma RunsDryLater(answers: seq<ReadAnswer>)
    requires RunsDry(answers) && HasData(answers[0])
    ensures RunsDry(answers[1..])
  {
  }

  predicate AllHaveData(answers: seq<ReadAnswer>) {
    forall a :: a in answers ==> a.Got? && a.chunk != []
  }

  /** What is read is put together in order. */
  lemma {:induction false} DataReadAppend(a: seq<ReadAnswer>, b: seq<ReadAnswer>)
    requires AllHaveData(a)
    ensures DataRead(a + b) == DataRead(a) + DataRead(b)
  {
    if a == [] {
      assert a + b == b;
    } else {
      assert a[0] in a && forall x :: x in a[1..] ==> x in a;
      assert (a + b)[1..] == a[1..] + b;
      DataReadAppend(a[1..], b);
    }
  }

  lemma DataReadOne(chunk: Chunk)
    requires chunk != []
    ensures DataRead([Got(chunk)]) == chunk
  {
    assert DataRead([Got(chunk)]) == chunk + DataRead([]);
  }

  lemma {:induction false} StopCodeAfter(a: seq<ReadAnswer>, b: seq<ReadAnswer>)
    requires AllHaveData(a) && RunsDry(b)
    ensures RunsDry(a + b) && StopCode(a + b) == StopCode(b)
  {
    if a == [] {
      assert a + b == b;
    } else {
      assert a[0] in a && forall x :: x in a[1..] ==> x in a;
      assert (a + b)[1..] == a[1..] + b;
      StopCodeAfter(a[1..], b);
      var i :| 0 <= i < |b| && !HasData(b[i]);
      assert (a + b)[|a| + i] == b[i];
    }
  }

  /** Nothing counts after the first answer without data, and it alone decides what is returned. */
  lemma ReadUpTo(a: seq<ReadAnswer>, last: ReadAnswer, rest: seq<ReadAnswer>)
    requires AllHaveData(a) && !(last.Got? && last.chunk != [])
    ensures RunsDry(a + ([last] + rest))
    ensures DataRead(a + ([last] + rest)) == DataRead(a)
    ensures StopCode(a + ([last] + rest)) == if last.ReadFailed? && last.errno != 11 then last.errno else 0
  {
    var b := [last] + rest;
    assert b[0] == last;
    assert !HasData(b[0]);
    DataReadAppend(a, b);
    StopCodeAfter(a, b);
  }

  /** The answer at `i` is the first one without data. */
  predicate FirstDry(answers: seq<ReadAnswer>, i: nat)
    requires i < |answers|
  {
    AllHaveData(answers[..i]) && !(answers[i].Got? && answers[i].chunk != [])
  }

  lemma ReadUpToFirstDry(answers: seq<ReadAnswer>, i: nat)
    requires i < |answers| && RunsDry(answers) && FirstDry(answers, i)
    ensures DataRead(answers) == DataRead(answers[..i])
    ensures StopCode(answers) == if answers[i].ReadFailed? && answers[i].errno != 11 then answers[i].errno else 0
  {
    assert answers == answers[..i] + ([answers[i]] + answers[i + 1..]);
    ReadUpTo(answers[..i], answers[i], answers[i + 1..]);
  }

  /** This code and these bytes are what the reads up to the first one without data amount to, which
      decides the code. */
  ghost predicate ReadsTo(answers: seq<ReadAnswer>, rc: int, out: Bytes) {
    forall i :: 0 <= i < |answers| && FirstDry(answers, i) ==>
      && out == DataRead(answers[..i])
      && rc == if answers[i].ReadFailed? && answers[i].errno != 11 then answers[i].errno else 0
  }

  /** And they are what `rxd` returns. */
  lemma ReadMeans(answers: seq<ReadAnswer>)
    requires RunsDry(answers)
    ensures ReadsTo(answers, StopCode(answers), DataRead(answers))
  {
    forall i | 0 <= i < |answers| && FirstDry(answers, i)
      ensures DataRead(answers) == DataRead(answers[..i])
      ensures StopCode(answers) == if answers[i].ReadFailed? && answers[i].errno != 11 then answers[i].errno else 0
    {
      ReadUpToFirstDry(answers, i);
    }
  }

  class Serial {
    var connected: bool
    var accepted: Bytes // everything `write` has taken

    constructor (connected: bool)
      ensures this.connected == connected && accepted == []
    {
      this.connected := connected;
      accepted := [];
    }

    /** `open` and the terminal settings succeed or they do not. */
    method Connect(succeeds: bool) returns (ok: bool)
      modifies this`connected
      ensures ok == succeeds && connected == (succeeds || old(connected))
    {
      if !succeeds {
        return false;
      }
      connected := true;
      return true;
    }

    method Disconnect()
      modifies this`connected
      ensures !connected
    {
      connected := false;
    }

    /** `answers(i)` is what the i-th call of `write` answers, counted over the life of the port.
        Only finitely many of them may stall. The calls made are those numbered from `from` to
        `next`: they go on until everything has been taken or one fails for another reason than
        having to wait. */
    method Txd(buffer: Bytes, answers: nat -> WriteAnswer, from: nat, ghost patience: nat)
      returns (rc: int, next: nat)
      requires Patient(answers, patience)
      modifies this`accepted
      ensures !connected ==> rc == 107 && accepted == old(accepted) && next == from
      ensures from <= next
      ensures connected ==> WriteEnds(answers, from, next, |buffer|, rc)
      ensures connected ==>
        var offered := Offered(answers, from, next);
        accepted == old(accepted) + if offered < |buffer| then buffer[..offered] else buffer
      ensures next <= (if from < patience then patience else from) + |buffer|
    {
      next := from;
      if !connected {
        return ENOTCONN, next;
      }
      var buf := buffer;
      var len := |buffer|;
      ghost var before := accepted;
      assert before + buffer[..0] == before;
      while len > 0
        invariant len == |buf| <= |buffer| && buf == buffer[|buffer| - len..]
        invariant accepted == before + buffer[..|buffer| - len]
        invariant from <= next && next + len <= (if from < patience then patience else from) + |buffer|
        invariant WriteGoesOn(answers, from, next, |buffer|, len)
        decreases if next < patience then patience - next else 0, len
      {
        OneCallMore(answers, from, next, |buffer|, len);
        var answer := answers(next);
        next := next + 1;
        match answer
        case Wrote(n) =>
          var rc' := Taken(n, len);
          TakeMore(before, buffer, |buffer| - len, rc');
          accepted := accepted + buf[..rc'];
          if rc' == len {
            break;
          }
          buf := buf[rc'..];
          len := len - rc';
        case WriteFailed(errno) =>
          if errno != EAGAIN {
            return errno, next;
          }
      }
      return 0, next;
    }

    /** `answers` are the results of the successive calls of `read`. */
    method Rxd(answers: seq<ReadAnswer>) returns (rc: int, out: Bytes)
      requires RunsDry(answers)
      ensures !connected ==> rc == 107 && out == []
      ensures connected ==> rc == StopCode(answers) && out == DataRead(answers)
    {
      out := [];
      if !connected {
        return ENOTCONN, out;
      }
      var i := 0;
      while true
        invariant 0 <= i < |answers| && RunsDry(answers[i..])
        invariant StopCode(answers[i..]) == StopCode(answers)
        invariant out + DataRead(answers[i..]) == DataRead(answers)
        decreases |answers| - i
      {
        assert answers[i..][1..] == answers[i + 1..];
        match answers[i] {
          case Got(buffer) =>
            if |buffer| == 0 {
              return 0, out;
            }
            RunsDryLater(answers[i..]);
            out := out + buffer;
          case ReadFailed(errno) =>
            if errno == EAGAIN {
              return 0, out;
            }
            return errno, out;
        }
        i := i + 1;
      }
    }
  }
}
