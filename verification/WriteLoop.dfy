/** write(2)'s chunked copy-in loop over an open file. */
module WriteLoop {

  const COPYIN_BUF_SIZE: nat := 128

  /** A backend's answer to one chunk: how many bytes it took, or an errno. */
  datatype Answer = Took(count: nat) | Failed(errno: nat)

  /** Everything outside the loop: the user buffer, the first unreadable byte,
      and what the backend answers to the chunk offered at each offset. The
      answer may depend on the data and on the file offset. */
  datatype World = World(buffer: seq<nat>, readable: nat, backend: (seq<nat>, nat) -> Answer)

  /** The backend takes at most what it is offered; an errno is not zero. */
  ghost predicate Honest(w: World) {
    forall data: seq<nat>, offset: nat ::
      match w.backend(data, offset)
      case Took(n) => n <= |data|
      case Failed(e) => e > 0
  }

  /** Copying [from, from + count) in succeeds exactly if all of it is readable. */
  predicate CopyinWorks(w: World, from: nat, count: nat) { from + count <= w.readable && from + count <= |w.buffer| }

  datatype Outcome = Outcome(written: nat, errno: nat)

  const EFAULT: nat := 14

  class OpenFile {
    var offset: nat
    /** What has been delivered to the backend through this open file. */
    ghost var delivered: seq<nat>

    /** Offers a chunk to the backend at the current offset. A negative answer
        becomes an errno and a count of zero. */
    method Offer(w: World, chunk: seq<nat>) returns (count: nat, errno: nat)
      requires Honest(w)
      modifies this`delivered
      ensures match w.backend(chunk, offset)
        case Took(n) => count == n <= |chunk| && errno == 0 && delivered == old(delivered) + chunk[..n]
        case Failed(e) => count == 0 && errno == e && delivered == old(delivered)
    {
      match w.backend(chunk, offset)
      case Took(n) =>
        delivered := delivered + chunk[..n];
        count, errno := n, 0;
      case Failed(e) =>
        count, errno := 0, e;
    }

    /** One round: copies the next chunk in and offers it. There is more to do if
        all of it was taken. */
    method WriteChunk(w: World, len: nat, done: nat, ghost start: nat) returns (r: Outcome, more: bool)
      requires Honest(w) && done < len <= |w.buffer| && offset == start + done
      modifies this
      ensures done <= r.written <= len && offset == start + r.written
      ensures delivered == old(delivered) + w.buffer[done..r.written]
      ensures if more then ChunkTaken(w, len, start, done) && r == Outcome(ChunkEnd(len, done), 0)
              else r.written < len && StopReason(w, len, start, r, done)
    {
      var chunk := if len - done < COPYIN_BUF_SIZE then len - done else COPYIN_BUF_SIZE;
      if !CopyinWorks(w, done, chunk) {
        return Outcome(done, EFAULT), false;
      }
      var data := w.buffer[done..done + chunk];
      var count, errno := Offer(w, data);
      if errno != 0 {
        return Outcome(done + count, errno), false;
      }
      assert data[..count] == w.buffer[done..done + count];
      offset := offset + count;
      more := count == chunk;
      r := Outcome(done + count, 0);
    }

    /** The result counts exactly the bytes delivered, which are a prefix of the
        user buffer, and the file offset moves by exactly that much; for every
        honest backend, wherever the buffer stops being readable. All is written,
        without error, or the write stops at the first chunk of 128 bytes that
        cannot be read or is not taken whole. */
    method WriteCopyin(w: World, len: nat) returns (r: Outcome)
      requires Honest(w) && len <= |w.buffer|
      modifies this
      ensures r.written <= len
      ensures offset == old(offset) + r.written
      ensures delivered == old(delivered) + w.buffer[..r.written]
      ensures if r.written == len then r.errno == 0 && AllTaken(w, len, old(offset), len)
              else StoppedAt(w, len, old(offset), r)
    {
      var remaining: nat := len;
      r := Outcome(0, 0);
      while remaining > 0
        invariant r.written + remaining == len && r.errno == 0 && offset == old(offset) + r.written
        invariant delivered == old(delivered) + w.buffer[..r.written]
        invariant r.written % 128 == 0 || r.written == len
        invariant AllTaken(w, len, old(offset), r.written)
        decreases remaining
      {
        ghost var done := r.written;
        var more;
        r, more := WriteChunk(w, len, r.written, old(offset));
        PrefixGrows(w.buffer, done, r.written);
        if !more {
          return;
        }
        remaining := len - r.written;
      }
    }
  }

  lemma PrefixGrows(buffer: seq<nat>, done: nat, written: nat)
    requires done <= written <= |buffer|
    ensures buffer[..done] + buffer[done..written] == buffer[..written]
  {
  }

  /** Where the chunk ends that starts at an offset. */
  function ChunkEnd(len: nat, at: nat): (end: nat)
    requires at < len
    ensures at < end <= len && end <= at + 128 && (end == len || end == at + 128)
  {
    if len - at < COPYIN_BUF_SIZE then len else at + COPYIN_BUF_SIZE
  }

  /** The chunk at an offset into the buffer is readable, and taken whole. */
  ghost predicate ChunkTaken(w: World, len: nat, offset: nat, at: nat) {
    && at < len <= |w.buffer| && ChunkEnd(len, at) <= w.readable
    && w.backend(w.buffer[at..ChunkEnd(len, at)], offset + at) == Took(ChunkEnd(len, at) - at)
  }

  /** All chunks that start before `done` are. */
  ghost predicate AllTaken(w: World, len: nat, offset: nat, done: nat) {
    forall at: nat :: at < done && at % 128 == 0 ==> ChunkTaken(w, len, offset, at)
  }

  /** Why a write stops short: all chunks before the one at `done` were taken, and
      that one is not readable, or refused, or taken in part. */
  ghost predicate StoppedAt(w: World, len: nat, offset: nat, r: Outcome) {
    exists done: nat :: done <= r.written && done % 128 == 0 && AllTaken(w, len, offset, done)
      && StopReason(w, len, offset, r, done)
  }

  ghost predicate StopReason(w: World, len: nat, offset: nat, r: Outcome, done: nat) {
    && done < len <= |w.buffer|
    && var end := ChunkEnd(len, done);
       if end > w.readable then r == Outcome(done, 14)
       else match w.backend(w.buffer[done..end], offset + done)
       case Failed(e) => r == Outcome(done, e)
       case Took(n) => done + n < end && r == Outcome(done + n, 0)
  }
}
