/** The fallback ring buffer of src/wl_log.c (log_buffer_t): the byte loop in
    log_output's buffer branch and wl_log_process_buffer. */
module RingBuffer {
  import opened Strings

  /** `x` reduced once modulo `n`: one step past the last slot is slot 0. */
  function Wrap(x: nat, n: nat): nat
    requires x < 2 * n
  {
    if x < n then x else x - n
  }

  /** The number of queued bytes, (head - tail) modulo n. */
  function Count(tail: nat, head: nat, n: nat): nat
    requires tail < n && head < n
  {
    if tail <= head then head - tail else head + n - tail
  }

  /** The queued bytes: data[tail], data[tail + 1], ... up to but excluding
      data[head], indices taken modulo the buffer size; oldest first. */
  function View(data: seq<char>, tail: nat, head: nat): (r: seq<char>)
    requires tail < |data| && head < |data|
    ensures |r| == Count(tail, head, |data|) && |r| < |data|
  {
    seq(Count(tail, head, |data|), k requires 0 <= k < Count(tail, head, |data|) => data[Wrap(tail + k, |data|)])
  }

  /** The last `k` elements of `s`, or all of `s` when it is shorter. */
  function Keep(s: seq<char>, k: nat): seq<char>
  {
    if |s| <= k then s else s[|s| - k..]
  }

  /** The queue after log_output's buffer branch has taken `message`, where
      `capacity` is WL_LOG_BUFFER_SIZE - 1: under the default policy the longest
      prefix of the message that fits is appended and the rest is dropped; with
      WL_LOG_BUFFER_OVERWRITE every byte is appended and the oldest bytes are
      discarded so that at most `capacity` remain. */
  function Enqueued(overwrite: bool, capacity: nat, contents: seq<char>, message: string): seq<char>
    requires |contents| <= capacity
  {
    if overwrite then Keep(contents + message, capacity)
    else contents + message[..Min(|message|, capacity - |contents|)]
  }

  // ---------------------------------------------------------------------------
  // Index arithmetic

  /** `(x + 1) % n` for an index `x` of the buffer. */
  lemma NextIndex(x: nat, n: nat)
    requires x < n
    ensures (x + 1) % n == Wrap(x + 1, n)
  {
    if x + 1 < n {
      assert (x + 1) / n == 0;
    }
  }

  /** `next_head == tail`, the source's test for a full buffer, holds exactly when
      SIZE - 1 bytes are queued. */
  lemma ViewFull(data: seq<char>, tail: nat, head: nat)
    requires tail < |data| && head < |data|
    ensures Wrap(head + 1, |data|) == tail <==> |View(data, tail, head)| == |data| - 1
  {
  }

  /** Writing at `head` and advancing it appends the byte, when not full. */
  lemma ViewPush(data: seq<char>, tail: nat, head: nat, c: char)
    requires tail < |data| && head < |data|
    requires Wrap(head + 1, |data|) != tail
    ensures View(data[head := c], tail, Wrap(head + 1, |data|)) == View(data, tail, head) + [c]
  {
    var n := |data|;
    var before := View(data, tail, head);
    var after := View(data[head := c], tail, Wrap(head + 1, n));
    assert |after| == |before| + 1;
    forall k | 0 <= k < |after|
      ensures after[k] == (before + [c])[k]
    {
      if k < |before| {
        assert Wrap(tail + k, n) != head;
      } else {
        assert Wrap(tail + k, n) == head;
      }
    }
  }

  /** When full, the overwrite branch advances `tail`, writes at `head` and
      advances `head` onto the old `tail`: the oldest byte gives way to the new
      one and the buffer stays full. */
  lemma ViewOverwrite(data: seq<char>, tail: nat, head: nat, c: char)
    requires tail < |data| && head < |data|
    requires Wrap(head + 1, |data|) == tail
    ensures View(data[head := c], Wrap(tail + 1, |data|), tail) == Keep(View(data, tail, head) + [c], |data| - 1)
  {
    var n := |data|;
    var before := View(data, tail, head);
    var after := View(data[head := c], Wrap(tail + 1, n), tail);
    ViewFull(data, tail, head);
    if n > 1 {
      var want := Keep(before + [c], n - 1);
      assert want == before[1..] + [c];
      assert |after| == n - 1;
      forall k | 0 <= k < n - 1
        ensures after[k] == want[k]
      {
        if k < n - 2 {
          assert Wrap(Wrap(tail + 1, n) + k, n) == Wrap(tail + (k + 1), n);
          assert Wrap(tail + (k + 1), n) != head;
        } else {
          assert Wrap(Wrap(tail + 1, n) + k, n) == head;
        }
      }
    }
  }

  /** Reading at `tail` and advancing it removes the oldest byte. */
  lemma ViewPop(data: seq<char>, tail: nat, head: nat)
    requires tail < |data| && head < |data| && tail != head
    ensures View(data, tail, head) == [data[tail]] + View(data, Wrap(tail + 1, |data|), head)
  {
    var n := |data|;
    var before := View(data, tail, head);
    var after := View(data, Wrap(tail + 1, n), head);
    assert |before| == |after| + 1;
    forall k | 0 <= k < |after|
      ensures after[k] == before[k + 1]
    {
      assert Wrap(Wrap(tail + 1, n) + k, n) == Wrap(tail + (k + 1), n);
    }
    assert Wrap(tail + 0, n) == tail;
    assert before == [before[0]] + before[1..];
    assert after == before[1..];
  }

  // ---------------------------------------------------------------------------
  // The two policies

  /** Both policies keep min(capacity, |old| + |message|) bytes: the default one
      the oldest of old ++ message (so the old bytes are untouched and the
      message is cut), overwrite mode the newest. */
  lemma PoliciesCharacterized(capacity: nat, contents: seq<char>, message: string)
    requires |contents| <= capacity
    ensures var all := contents + message;
            var n := Min(capacity, |all|);
            && Enqueued(false, capacity, contents, message) == all[..n]
            && Enqueued(true, capacity, contents, message) == all[|all| - n..]
  {
    var all := contents + message;
    var n := Min(capacity, |all|);
    var m := Min(|message|, capacity - |contents|);
    assert n == |contents| + m;
    assert all[..n] == contents + message[..m];
  }

  /** A message that fits is queued whole under either policy (first in, first
      out with no loss). */
  lemma EnqueueFits(overwrite: bool, capacity: nat, contents: seq<char>, message: string)
    requires |contents| + |message| <= capacity
    ensures Enqueued(overwrite, capacity, contents, message) == contents + message
  {
    assert message[..|message|] == message;
  }

  /** In overwrite mode a message of at least `capacity` bytes leaves only its
      own last `capacity` bytes: the older ones are gone. */
  lemma OverwriteKeepsLatest(capacity: nat, contents: seq<char>, message: string)
    requires |contents| <= capacity <= |message|
    ensures Enqueued(true, capacity, contents, message) == message[|message| - capacity..]
  {
    var all := contents + message;
    assert all[|all| - capacity..] == message[|message| - capacity..];
  }

  /** Enqueueing two strings one after the other is enqueueing their
      concatenation, under either policy; so the several log_output calls of one
      log call act on the buffer as one call with the joined text. */
  lemma EnqueuedCompose(overwrite: bool, capacity: nat, contents: seq<char>, a: string, b: string)
    requires |contents| <= capacity
    ensures |Enqueued(overwrite, capacity, contents, a)| <= capacity
    ensures Enqueued(overwrite, capacity, Enqueued(overwrite, capacity, contents, a), b)
         == Enqueued(overwrite, capacity, contents, a + b)
  {
    var mid := Enqueued(overwrite, capacity, contents, a);
    if overwrite {
      var s := contents + a;
      assert mid + b == (s + b)[|s + b| - |mid + b|..];
      assert (contents + a) + b == contents + (a + b);
    } else {
      var room := capacity - |contents|;
      if |a| >= room {
        assert (a + b)[..room] == a[..room];
      } else {
        assert (a + b)[..Min(|a + b|, room)] == a + b[..Min(|b|, room - |a|)];
      }
    }
  }

  /** An empty message changes nothing. */
  lemma EnqueuedNothing(overwrite: bool, capacity: nat, contents: seq<char>)
    requires |contents| <= capacity
    ensures Enqueued(overwrite, capacity, contents, "") == contents
  {
    assert contents + "" == contents;
  }

  /** A full buffer under the default policy takes nothing more. */
  lemma DropWhenFull(capacity: nat, contents: seq<char>, message: string)
    requires |contents| == capacity
    ensures Enqueued(false, capacity, contents, message) == contents
  {
    assert message[..0] == [];
  }

  /** One pass of the byte loop extends the enqueued prefix of the message by
      one byte. */
  lemma EnqueuedStep(overwrite: bool, capacity: nat, contents: seq<char>, message: string, i: nat)
    requires |contents| <= capacity && i < |message|
    ensures |Enqueued(overwrite, capacity, contents, message[..i])| <= capacity
    ensures Enqueued(overwrite, capacity, contents, message[..i + 1])
         == Enqueued(overwrite, capacity, Enqueued(overwrite, capacity, contents, message[..i]), [message[i]])
  {
    assert message[..i + 1] == message[..i] + [message[i]];
    EnqueuedCompose(overwrite, capacity, contents, message[..i], [message[i]]);
  }

  /** Under the default policy, once the buffer is full after a prefix of the
      message, the rest of the message changes nothing: the loop may stop. */
  lemma EnqueuedStops(capacity: nat, contents: seq<char>, message: string, i: nat)
    requires |contents| <= capacity && i <= |message|
    requires |Enqueued(false, capacity, contents, message[..i])| == capacity
    ensures Enqueued(false, capacity, contents, message) == Enqueued(false, capacity, contents, message[..i])
  {
    var current := Enqueued(false, capacity, contents, message[..i]);
    DropWhenFull(capacity, current, message[i..]);
    assert message[..i] + message[i..] == message;
    EnqueuedCompose(false, capacity, contents, message[..i], message[i..]);
  }

  // ---------------------------------------------------------------------------

  /** log_buffer_t: `data[size]`, `head` (next write) and `tail` (next read). */
  class Ring {
    /** WL_LOG_BUFFER_SIZE */
    const size: nat
    /** Whether WL_LOG_BUFFER_OVERWRITE is defined. */
    const overwrite: bool
    const data: array<char>
    var head: nat
    var tail: nat

    ghost predicate Valid()
      reads this
    {
      size >= 1 && data.Length == size && head < size && tail < size
    }

    /** The queued bytes, oldest first. */
    ghost function Contents(): (r: seq<char>)
      reads this, data
      requires Valid()
      ensures |r| <= size - 1
    {
      View(data[..], tail, head)
    }

    /** The static initialiser `{.head = 0, .tail = 0}` of a zeroed buffer. */
    constructor (size: nat, overwrite: bool)
      requires size >= 1
      ensures Valid() && fresh(data)
      ensures this.size == size && this.overwrite == overwrite
      ensures Contents() == []
    {
      this.size := size;
      this.overwrite := overwrite;
      data := new char[size](_ => 0 as char);
      head, tail := 0, 0;
    }

    /** One pass of log_output's byte loop: `x` is written at `head` unless the
        buffer is full, in which case the default policy refuses it (the loop
        then stops) and the overwrite policy first discards the oldest byte. */
    method Put(x: char) returns (accepted: bool)
      requires Valid()
      modifies this, data
      ensures Valid()
      ensures accepted <==> overwrite || |old(Contents())| < size - 1
      ensures Contents() == Enqueued(overwrite, size - 1, old(Contents()), [x])
    {
      ghost var d := data[..];
      NextIndex(head, size);
      ViewFull(d, tail, head);
      var nextHead := (head + 1) % size;
      if nextHead != tail {
        ghost var oldHead := head;
        data[head] := x;
        head := nextHead;
        assert data[..] == d[oldHead := x];
        ViewPush(d, tail, oldHead, x);
        EnqueueFits(overwrite, size - 1, View(d, tail, oldHead), [x]);
        accepted := true;
      } else if overwrite {
        NextIndex(tail, size);
        ghost var oldTail, oldHead := tail, head;
        tail := (tail + 1) % size;
        data[head] := x;
        head := nextHead;
        assert data[..] == d[oldHead := x];
        ViewOverwrite(d, oldTail, oldHead, x);
        accepted := true;
      } else {
        DropWhenFull(size - 1, View(d, tail, head), [x]);
        accepted := false;
      }
    }

    /** The buffer branch of log_output: the bytes of `message` are put one at
        a time, stopping at the first one the buffer refuses. */
    method Enqueue(message: string)
      requires Valid()
      modifies this, data
      ensures Valid()
      ensures Contents() == Enqueued(overwrite, size - 1, old(Contents()), message)
    {
      ghost var start := Contents();
      var i := 0;
      while i < |message|
        invariant Valid() && i <= |message|
        invariant Contents() == Enqueued(overwrite, size - 1, start, message[..i])
      {
        ghost var current := Contents();
        EnqueuedStep(overwrite, size - 1, start, message, i);
        var accepted := Put(message[i]);
        if !accepted {
          assert !overwrite && |current| == size - 1;
          DropWhenFull(size - 1, current, [message[i]]);
          assert Contents() == current;
          EnqueuedStops(size - 1, start, message, i);
          break;
        }
        i := i + 1;
      }
    }

    /** wl_log_process_buffer: the queued bytes are handed out one at a time from
        `tail` to `head`; afterwards the buffer is empty. */
    method Drain() returns (out: string)
      requires Valid()
      modifies this`tail
      ensures Valid()
      ensures out == old(Contents())
      ensures tail == head && Contents() == []
    {
      out := [];
      while tail != head
        invariant Valid()
        invariant out + Contents() == old(Contents())
        decreases |Contents()|
      {
        ViewPop(data[..], tail, head);
        NextIndex(tail, size);
        var ch := data[tail];
        out := out + [ch];
        tail := (tail + 1) % size;
      }
    }
  }
}
