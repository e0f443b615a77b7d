/** The power-of-two ring buffers of the serial modules: a fixed array, a tail index and a count
    stand for a queue. `& (size - 1)` on an in-range index is written `% size`. */
module Ring {
  import opened Arith

  /** The queue that a ring holds, oldest byte first. A count that has wrapped below zero makes it
      longer than the array, which then repeats. */
  function Queue<T>(buf: seq<T>, tail: nat, count: nat): (q: seq<T>)
    requires 0 < |buf|
    ensures |q| == count
  {
    if count == 0 then [] else Queue(buf, tail, count - 1) + [buf[(tail + count - 1) % |buf|]]
  }

  /** The head index always sits `count` slots past the tail. */
  predicate Consistent(size: nat, head: nat, tail: nat, count: nat) {
    0 < size && tail < size && head == (tail + count) % size
  }

  lemma ModAdd(size: nat, x: nat, d: nat)
    requires 0 < size
    ensures (x % size + d) % size == (x + d) % size
  {
    var q, y := x / size, x % size + d;
    assert x + d == (q + y / size) * size + y % size by {
      assert (q + y / size) * size == q * size + (y / size) * size;
    }
    DivModUnique(x + d, size, q + y / size, y % size);
  }

  lemma WrapSucc(size: nat, tail: nat, i: nat)
    requires 0 < size
    ensures ((tail + i) % size + 1) % size == (tail + (i + 1)) % size
    ensures ((tail + 1) % size + i) % size == (tail + (i + 1)) % size
  {
    ModAdd(size, tail + i, 1);
    ModAdd(size, tail + 1, i);
  }

  lemma WrapDistinct(size: nat, tail: nat, i: nat, j: nat)
    requires tail < size && i < j < size
    ensures (tail + i) % size != (tail + j) % size
  {
    WrapValue(size, tail, i);
    WrapValue(size, tail, j);
  }

  lemma WrapValue(size: nat, tail: nat, i: nat)
    requires tail < size && i < size
    ensures (tail + i) % size == if tail + i < size then tail + i else tail + i - size
  {
    if tail + i < size {
      DivModUnique(tail + i, size, 0, tail + i);
    } else {
      DivModUnique(tail + i, size, 1, tail + i - size);
    }
  }

  /** Storing at a free slot leaves the queue alone. */
  lemma {:induction false} StoreElsewhere<T>(buf: seq<T>, tail: nat, count: nat, k: nat, x: T)
    requires tail < |buf| && count <= k < |buf|
    ensures Queue(buf[(tail + k) % |buf| := x], tail, count) == Queue(buf, tail, count)
  {
    if 0 < count {
      StoreElsewhere(buf, tail, count - 1, k, x);
      WrapDistinct(|buf|, tail, count - 1, k);
    }
  }

  /** Storing at the head and counting up appends to the queue; no queued byte is overwritten. */
  lemma Push<T>(buf: seq<T>, head: nat, tail: nat, count: nat, x: T)
    requires Consistent(|buf|, head, tail, count) && count < |buf|
    ensures Consistent(|buf|, (head + 1) % |buf|, tail, count + 1)
    ensures Queue(buf[head := x], tail, count + 1) == Queue(buf, tail, count) + [x]
  {
    WrapSucc(|buf|, tail, count);
    StoreElsewhere(buf, tail, count, count, x);
  }

  lemma {:induction false} QueueFromTail<T>(buf: seq<T>, tail: nat, count: nat)
    requires tail < |buf| && 0 < count
    ensures [buf[tail]] + Queue(buf, (tail + 1) % |buf|, count - 1) == Queue(buf, tail, count)
  {
    var next := (tail + 1) % |buf|;
    if count == 1 {
      WrapValue(|buf|, tail, 0);
      assert Queue(buf, tail, 0) == [];
    } else {
      QueueFromTail(buf, tail, count - 1);
      WrapSucc(|buf|, tail, count - 2);
      assert Queue(buf, next, count - 1) == Queue(buf, next, count - 2) + [buf[(tail + count - 1) % |buf|]];
    }
  }

  /** Reading at the tail and counting down removes the oldest byte. */
  lemma Pop<T>(buf: seq<T>, head: nat, tail: nat, count: nat)
    requires Consistent(|buf|, head, tail, count) && 0 < count
    ensures Consistent(|buf|, head, (tail + 1) % |buf|, count - 1)
    ensures [buf[tail]] + Queue(buf, (tail + 1) % |buf|, count - 1) == Queue(buf, tail, count)
  {
    QueueFromTail(buf, tail, count);
    WrapSucc(|buf|, tail, count - 1);
  }

  // ---------- the array behind the queue ----------

  /** All slots, from the one that is next to be overwritten on: the last `size` bytes stored. */
  function Slots<T>(buf: seq<T>, head: nat): (q: seq<T>)
    requires 0 < |buf|
    ensures |q| == |buf|
  {
    Queue(buf, head, |buf|)
  }

  /** A store shifts that window by one. */
  lemma PushSlots<T>(buf: seq<T>, head: nat, x: T)
    requires head < |buf|
    ensures Slots(buf[head := x], (head + 1) % |buf|) == Slots(buf, head)[1..] + [x]
  {
    var n, next, buf' := |buf|, (head + 1) % |buf|, buf[head := x];
    QueueFromTail(buf, head, n);
    WrapSucc(n, head, n - 1);
    FullTurn(n, head);
    if 1 < n {
      WrapSucc(n, head, n - 2);
      assert (next + (n - 1)) % n == head;
    }
    StoreElsewhere(buf, next, n - 1, n - 1, x);
    assert Queue(buf', next, n) == Queue(buf', next, n - 1) + [buf'[(next + n - 1) % n]];
  }

  lemma FullTurn(n: nat, i: nat)
    requires i < n
    ensures (i + n) % n == i
  {
    DivModUnique(i + n, n, 1, i);
  }

  lemma {:induction false} QueueAt<T>(buf: seq<T>, tail: nat, count: nat, i: nat)
    requires tail < |buf| && i < count
    ensures Queue(buf, tail, count)[i] == buf[(tail + i) % |buf|]
  {
    if i < count - 1 {
      QueueAt(buf, tail, count - 1, i);
    }
  }

  /** Storing at the slot of the oldest byte overwrites that byte and no other. */
  lemma PutOldest<T>(buf: seq<T>, tail: nat, count: nat, x: T)
    requires tail < |buf| && 0 < count <= |buf|
    ensures Queue(buf[tail := x], tail, count) == Queue(buf, tail, count)[0 := x]
  {
    var buf' := buf[tail := x];
    forall i | 0 <= i < count
      ensures Queue(buf', tail, count)[i] == Queue(buf, tail, count)[0 := x][i]
    {
      QueueAt(buf', tail, count, i);
      QueueAt(buf, tail, count, i);
      WrapValue(|buf|, tail, 0);
      WrapValue(|buf|, tail, i);
    }
  }

  /** A store at the head of a ring whose head is `lag` slots past what the count covers. */
  lemma Put<T>(buf: seq<T>, head: nat, tail: nat, count: nat, lag: nat, x: T)
    requires Consistent(|buf|, head, tail, count + lag) && count + lag <= |buf|
    ensures Queue(buf[head := x], tail, count)
            == if count + lag == |buf| && 0 < count then Queue(buf, tail, count)[0 := x] else Queue(buf, tail, count)
    ensures Slots(buf[head := x], head) == Slots(buf, head)[0 := x]
  {
    PutOldest(buf, head, |buf|, x);
    if count + lag == |buf| {
      FullTurn(|buf|, tail);
      if 0 < count {
        PutOldest(buf, tail, count, x);
      }
    } else {
      StoreElsewhere(buf, tail, count, count + lag, x);
    }
  }

  lemma Advance<T>(buf: seq<T>, head: nat)
    requires head < |buf|
    ensures Slots(buf, (head + 1) % |buf|) == Slots(buf, head)[1..] + [Slots(buf, head)[0]]
  {
    var n, next := |buf|, (head + 1) % |buf|;
    QueueFromTail(buf, head, n);
    WrapSucc(n, head, n - 1);
    FullTurn(n, head);
    if 1 < n {
      WrapSucc(n, head, n - 2);
    }
    assert (next + (n - 1)) % n == head;
    assert Queue(buf, next, n) == Queue(buf, next, n - 1) + [buf[(next + n - 1) % n]];
  }

  lemma FarSlot(n: nat, at: nat, lag: nat)
    requires lag < n
    ensures ((at + lag + 1) % n + (n - 1 - lag)) % n == at % n
  {
    ModAdd(n, at + lag + 1, n - 1 - lag);
    SameSlot(n, at, 1);
    assert at + lag + 1 + (n - 1 - lag) == at + n * 1;
  }

  function Slot<T>(buf: seq<T>, i: nat): T
    requires 0 < |buf|
  {
    buf[i % |buf|]
  }

  lemma NextQueued<T>(buf: seq<T>, tail: nat, count: nat)
    requires 0 < |buf|
    ensures Queue(buf, tail, count + 1) == Queue(buf, tail, count) + [Slot(buf, tail + count)]
  {
  }

  lemma SlotsAt<T>(buf: seq<T>, head: nat, i: nat)
    requires head < |buf| && i < |buf|
    ensures Slots(buf, head)[i] == Slot(buf, head + i)
  {
    QueueAt(buf, head, |buf|, i);
  }

  lemma SameAsTail<T>(buf: seq<T>, head: nat, at: nat, lag: nat)
    requires lag < |buf| && head == (at + lag + 1) % |buf|
    ensures Slot(buf, head + (|buf| - 1 - lag)) == Slot(buf, at)
  {
    FarSlot(|buf|, at, lag);
  }

  /** Counting up covers the slot that is furthest behind the head. */
  lemma CountUp<T>(buf: seq<T>, head: nat, tail: nat, count: nat, lag: nat)
    requires Consistent(|buf|, head, tail, count + lag + 1) && lag < |buf|
    ensures Queue(buf, tail, count + 1) == Queue(buf, tail, count) + [Slots(buf, head)[|buf| - 1 - lag]]
  {
    HeadIs(|buf|, head, tail, count, lag);
    hide *;
    SameAsTail(buf, head, tail + count, lag);
    SlotsAt(buf, head, |buf| - 1 - lag);
    NextQueued(buf, tail, count);
  }

  lemma HeadIs(size: nat, head: nat, tail: nat, count: nat, lag: nat)
    requires Consistent(size, head, tail, count + lag + 1)
    ensures head == (tail + count + lag + 1) % size < size
  {
    assert tail + (count + lag + 1) == tail + count + lag + 1;
  }

  function Times<T>(s: seq<T>, k: nat): (r: seq<T>)
    ensures |r| == |s| * k
  {
    if k == 0 then [] else Times(s, k - 1) + s
  }

  /** A queue longer than the array repeats it. */
  lemma {:induction false} QueueRepeats<T>(buf: seq<T>, tail: nat, k: nat, c: nat)
    requires tail < |buf| && c <= |buf|
    ensures Queue(buf, tail, |buf| * k + c) == Times(Slots(buf, tail), k) + Queue(buf, tail, c)
    decreases k, c
  {
    var n := |buf|;
    if c > 0 {
      QueueRepeats(buf, tail, k, c - 1);
      SameSlot(n, tail + (c - 1), k);
      assert tail + (n * k + c) - 1 == tail + (c - 1) + n * k;
    } else if k > 0 {
      QueueRepeats(buf, tail, k - 1, n);
      assert n * (k - 1) + n == n * k;
      assert Queue(buf, tail, 0) == [];
    }
  }

  /** An 8-bit count that is decremented from zero wraps to 255. The pop returns the slot at the tail,
      and the queue then holds what is left of the whole array repeated up to 256 bytes. */
  lemma PopEmpty<T>(buf: seq<T>, tail: nat)
    requires tail < |buf| && 256 % |buf| == 0
    ensures Consistent(|buf|, tail, (tail + 1) % |buf|, 255)
    ensures [buf[tail]] + Queue(buf, (tail + 1) % |buf|, 255) == Times(Slots(buf, tail), 256 / |buf|)
  {
    var k := Turns(|buf|, tail);
    QueueFromTail(buf, tail, 256);
    QueueRepeats(buf, tail, k, 0);
    hide Slots, Times;
    assert Queue(buf, tail, 0) == [];
  }

  lemma Turns(n: nat, tail: nat) returns (k: nat)
    requires tail < n && 256 % n == 0
    ensures n * k == 256 && k == 256 / n && (tail + 1) % n < n && tail == ((tail + 1) % n + 255) % n
  {
    k := 256 / n;
    assert n * k == 256;
    WrapSucc(n, tail, 255);
    SameSlot(n, tail, k);
    DivModUnique(tail, n, 0, tail);
  }

  lemma SameSlot(n: nat, i: nat, k: nat)
    requires 0 < n
    ensures (i + n * k) % n == i % n
  {
    assert i + n * k == (i / n + k) * n + i % n by {
      assert (i / n + k) * n == (i / n) * n + k * n;
    }
    DivModUnique(i + n * k, n, i / n + k, i % n);
  }

  /** A ring in place: the array, the two indices and the count the serial modules keep. */
  class ByteRing<T(0)> {
    const buf: array<T>
    var head: nat
    var tail: nat
    var count: nat
    ghost var contents: seq<T>

    ghost predicate Valid()
      reads this, buf
    {
      Lags(0)
    }

    /** The head is `lag` slots past what the count covers. */
    ghost predicate Lags(lag: nat)
      reads this, buf
    {
      && Consistent(buf.Length, head, tail, count + lag)
      && buf.Length < 256 && 256 % buf.Length == 0 && count < 256
      && contents == Queue(buf[..], tail, count)
    }

    /** The last bytes stored, as many as the array holds. */
    ghost function Window(): (w: seq<T>)
      requires 0 < buf.Length
      reads this, buf
      ensures |w| == buf.Length
    {
      Slots(buf[..], head)
    }

    constructor (size: nat, zero: T)
      requires 0 < size < 256 && 256 % size == 0
      ensures Valid() && fresh(buf) && buf.Length == size && contents == []
      ensures Window() == seq(size, _ => zero)
    {
      buf := new T[size](_ => zero);
      head, tail, count, contents := 0, 0, 0, [];
      new;
      hide *;
      Empty(buf[..], zero);
    }

    method Store(x: T)
      requires Valid() && count < buf.Length
      modifies this, buf
      ensures Valid() && contents == old(contents) + [x]
      ensures Window() == old(Window())[1..] + [x]
    {
      Push(buf[..], head, tail, count, x);
      PushSlots(buf[..], head, x);
      hide Queue, Slots;
      ghost var before := buf[..];
      buf[head] := x;
      assert buf[..] == before[head := x];
      head := (head + 1) % buf.Length;
      count := count + 1;
      contents := contents + [x];
    }

    /** The first of the three statements of a store, wherever the head is. */
    method StoreAt(x: T, ghost lag: nat)
      requires Lags(lag) && count + lag <= buf.Length
      modifies this`contents, buf
      ensures Lags(lag) && Window() == old(Window())[0 := x]
      ensures contents == if count + lag == buf.Length && 0 < count then old(contents)[0 := x] else old(contents)
    {
      Put(buf[..], head, tail, count, lag, x);
      hide Queue, Slots;
      ghost var before := buf[..];
      buf[head] := x;
      assert buf[..] == before[head := x];
      contents := Queue(buf[..], tail, count);
    }

    method MoveHead(ghost lag: nat)
      requires Lags(lag)
      modifies this`head
      ensures Lags(lag + 1) && contents == old(contents)
      ensures Window() == old(Window())[1..] + [old(Window())[0]]
    {
      Advance(buf[..], head);
      WrapSucc(buf.Length, tail, count + lag);
      hide Queue, Slots;
      head := (head + 1) % buf.Length;
    }

    method CountOne(ghost lag: nat)
      requires Lags(lag + 1) && lag < buf.Length && count < 255
      modifies this`count, this`contents
      ensures Lags(lag) && Window() == old(Window()) && count == old(count) + 1
      ensures contents == old(contents) + [Window()[buf.Length - 1 - lag]]
    {
      CountUp(buf[..], head, tail, count, lag);
      hide Queue, Slots;
      count := count + 1;
      contents := Queue(buf[..], tail, count);
    }

    /** All three. With the head one slot ahead, the count takes in the slot before, and the store may
        reach around to the oldest byte. */
    method StoreAhead(x: T, ghost lag: nat)
      requires Lags(lag) && lag <= 1 && count < buf.Length && 2 <= buf.Length
      modifies this, buf
      ensures Lags(lag) && Window() == old(Window())[1..] + [x]
      ensures lag == 0 ==> contents == old(contents) + [x]
      ensures lag == 1 ==>
                var more := old(contents) + [old(Window())[buf.Length - 1]];
                contents == if |more| == buf.Length then more[0 := x] else more
    {
      assert |contents| == count;
      hide Queue, Slots;
      ghost var w, c := Window(), contents;
      StoreAt(x, lag);
      assert Window()[1..] == w[1..];
      MoveHead(lag);
      CountOne(lag);
      if lag == 1 && |c| + 1 == buf.Length {
        assert c[0 := x] + [w[buf.Length - 1]] == (c + [w[buf.Length - 1]])[0 := x];
      }
    }

    /** Takes the byte at the tail without asking whether there is one: from an empty ring the 8-bit
        count wraps, and the old contents of the array are queued again and again. */
    method Fetch() returns (x: T)
      requires Valid()
      modifies this
      ensures Valid() && Window() == old(Window())
      ensures [x] + contents == if 0 < old(count) then old(contents) else Times(old(Window()), 256 / buf.Length)
    {
      if 0 < count {
        Pop(buf[..], head, tail, count);
      } else {
        assert head == tail by { DivModUnique(tail, buf.Length, 0, tail); }
        PopEmpty(buf[..], tail);
      }
      hide Queue, Slots, Times;
      x := buf[tail];
      tail := (tail + 1) % buf.Length;
      count := (count + 255) % 256;
      contents := Queue(buf[..], tail, count);
    }
  }

  lemma Empty<T>(buf: seq<T>, zero: T)
    requires 0 < |buf| && forall i :: 0 <= i < |buf| ==> buf[i] == zero
    ensures Consistent(|buf|, 0, 0, 0) && Queue(buf, 0, 0) == []
    ensures Slots(buf, 0) == seq(|buf|, _ => zero)
  {
    AllAlike(buf, zero, |buf|);
  }

  lemma {:induction false} AllAlike<T>(buf: seq<T>, zero: T, n: nat)
    requires 0 < |buf| && forall i :: 0 <= i < |buf| ==> buf[i] == zero
    ensures Queue(buf, 0, n) == seq(n, _ => zero)
  {
    if n > 0 {
      AllAlike(buf, zero, n - 1);
    }
  }
}
