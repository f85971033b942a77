/** `LimitReader`: a reader that hands out at most `limit` bytes of the
    stream it wraps, in total over all calls. The wrapped stream is an
    in-memory cursor (`std::io::Cursor`), which fills as much of the buffer
    it is given as it has bytes left. */
module LimitReader {

  import opened Bytes

  /** A byte sequence and the position of the next byte to read; the
      position may lie past the end, where nothing is left. */
  datatype Cursor = Cursor(data: seq<Byte>, pos: nat)

  function Remaining(c: Cursor): nat {
    if c.pos < |c.data| then |c.data| - c.pos else 0
  }

  /** The next `n` bytes of the stream. */
  function Ahead(c: Cursor, n: nat): (r: seq<Byte>)
    requires n <= Remaining(c)
    ensures |r| == n
  {
    if n == 0 then [] else c.data[c.pos..c.pos + n]
  }

  /** `Cursor::read` into a buffer of `capacity` bytes: the bytes read, the
      buffer afterwards and the cursor afterwards. */
  function CursorRead(c: Cursor, capacity: nat): (r: (nat, seq<Byte>, Cursor))
    ensures r.0 <= capacity && r.0 <= Remaining(c) && (r.0 == capacity || r.0 == Remaining(c))
    ensures |r.1| == capacity
    ensures r.1[..r.0] == Ahead(c, r.0)
    ensures forall i | r.0 <= i < capacity :: r.1[i] == 0
    ensures r.2 == Cursor(c.data, c.pos + r.0)
  {
    var n := if capacity < Remaining(c) then capacity else Remaining(c);
    (n, Ahead(c, n) + Zeros(capacity - n), Cursor(c.data, c.pos + n))
  }

  function Zeros(n: nat): (z: seq<Byte>)
    ensures |z| == n && forall i | 0 <= i < n :: z[i] == 0
  {
    seq(n, _ => 0)
  }

  /** `read` is the number of bytes handed out so far. */
  datatype LimitReader = LimitReader(read: nat, limit: nat, inner: Cursor)

  /** The state every reader stays in: never more handed out than the limit,
      and both counters within `u64`. */
  predicate Valid(lr: LimitReader) {
    lr.read <= lr.limit < U64_LIMIT
  }

  /** `LimitReader::new`. */
  function New(inner: Cursor, limit: nat): (lr: LimitReader)
    requires limit < U64_LIMIT
    ensures Valid(lr) && lr.read == 0 && lr.limit == limit && lr.inner == inner
  {
    LimitReader(0, limit, inner)
  }

  /** `min(limit - read, |buf|)`: how much of the buffer one call may touch. */
  function Capacity(lr: LimitReader, buf: seq<Byte>): nat
    requires Valid(lr)
  {
    if lr.limit - lr.read < |buf| then lr.limit - lr.read else |buf|
  }

  /** `Read::read`: the reader afterwards, the caller's buffer afterwards and
      the count returned. It reads into a zeroed temporary buffer of
      `min(limit - read, |buf|)` bytes and copies all of it over the front
      of `buf`.

      The reader stays valid and keeps its limit; the count is at most the
      capacity and is added to `read`; the first `n` buffer positions get the
      next `n` bytes of the stream and the rest of the first `capacity`
      positions get zeros; positions from `capacity` on are untouched; at the
      limit nothing changes. */
  function Read(lr: LimitReader, buf: seq<Byte>): (r: (LimitReader, seq<Byte>, nat))
    requires Valid(lr)
    ensures var (lr', buf', n) := r;
            var capacity := Capacity(lr, buf);
            && Valid(lr')
            && lr'.limit == lr.limit
            && n <= capacity
            && lr'.read == lr.read + n
            && |buf'| == |buf|
            && n <= Remaining(lr.inner)
            && buf'[..n] == Ahead(lr.inner, n)
            && (forall i | n <= i < capacity :: buf'[i] == 0)
            && buf'[capacity..] == buf[capacity..]
            && lr'.inner == Cursor(lr.inner.data, lr.inner.pos + n)
    ensures lr.read == lr.limit ==> r == (lr, buf, 0)
  {
    if lr.limit == lr.read then (lr, buf, 0)
    else
      var left := lr.limit - lr.read;
      var capacity := if left < |buf| then left else |buf|;
      var (n, buffer, inner) := CursorRead(lr.inner, capacity);
      (LimitReader(lr.read + n, lr.limit, inner), buffer + buf[capacity..], n)
  }

  /** The bytes handed out by a run of calls with buffers of the given sizes,
      and the reader afterwards. */
  function ReadAll(lr: LimitReader, sizes: seq<nat>): (r: (LimitReader, seq<Byte>))
    requires Valid(lr)
    ensures Valid(r.0)
    decreases |sizes|
  {
    if |sizes| == 0 then (lr, [])
    else
      var (lr', buf', n) := Read(lr, Zeros(sizes[0]));
      var (last, rest) := ReadAll(lr', sizes[1..]);
      (last, buf'[..n] + rest)
  }

  /** Over any run of calls the reader hands out the wrapped stream's bytes in
      order, from where it stood, and never more than `limit - read` of
      them: `read` counts exactly what was handed out. */
  lemma {:induction false} ReadAllBounded(lr: LimitReader, sizes: seq<nat>)
    requires Valid(lr)
    decreases |sizes|
    ensures var (last, out) := ReadAll(lr, sizes);
            && last.read == lr.read + |out|
            && |out| <= lr.limit - lr.read
            && |out| <= Remaining(lr.inner)
            && out == Ahead(lr.inner, |out|)
            && last.inner == Cursor(lr.inner.data, lr.inner.pos + |out|)
  {
    if |sizes| > 0 {
      var r1 := Read(lr, Zeros(sizes[0]));
      ReadAllBounded(r1.0, sizes[1..]);
      var r2 := ReadAll(r1.0, sizes[1..]);
      assert ReadAll(lr, sizes) == (r2.0, r1.1[..r1.2] + r2.1);
      ReadThen(lr, Zeros(sizes[0]), r2.0, r2.1);
    }
  }

  /** One call followed by reads that kept their promise keeps it too. */
  lemma ReadThen(lr: LimitReader, buf: seq<Byte>, last: LimitReader, rest: seq<Byte>)
    requires Valid(lr)
    requires var (lr', _, _) := Read(lr, buf);
             && last.read == lr'.read + |rest|
             && |rest| <= lr'.limit - lr'.read
             && |rest| <= Remaining(lr'.inner)
             && rest == Ahead(lr'.inner, |rest|)
             && last.inner == Cursor(lr'.inner.data, lr'.inner.pos + |rest|)
    ensures var (_, buf', n) := Read(lr, buf);
            var out := buf'[..n] + rest;
            && last.read == lr.read + |out|
            && |out| <= lr.limit - lr.read
            && |out| <= Remaining(lr.inner)
            && out == Ahead(lr.inner, |out|)
            && last.inner == Cursor(lr.inner.data, lr.inner.pos + |out|)
  {
    var (lr', buf', n) := Read(lr, buf);
    AheadSplit(lr.inner, n, |rest|);
  }

  /** Reading `m` and then `k` more bytes reads the next `m + k`. */
  lemma AheadSplit(c: Cursor, m: nat, k: nat)
    requires m + k <= Remaining(c)
    ensures Ahead(c, m) + Ahead(Cursor(c.data, c.pos + m), k) == Ahead(c, m + k)
  {
  }

  /** A fresh reader, read any number of times and then unwrapped, gives
      back the stream it wrapped, advanced by exactly the bytes handed out,
      which are the stream's next bytes and at most `limit` of them.
      `into_inner` returns the `inner` field as it stands: the reader keeps
      no buffer, so nothing is held back. */
  lemma IntoInnerAfterReads(c: Cursor, limit: nat, sizes: seq<nat>)
    requires limit < U64_LIMIT
    ensures var (last, out) := ReadAll(New(c, limit), sizes);
            && |out| <= limit
            && |out| <= Remaining(c)
            && out == Ahead(c, |out|)
            && last.inner == Cursor(c.data, c.pos + |out|)
  {
    ReadAllBounded(New(c, limit), sizes);
  }

  /** The source's test: limit 6 over the bytes 0 to 9, read with two 4-byte
      buffers, gives 0, 1, 2, 3 and then 4, 5 followed by two zeros, with
      count 2. */
  lemma SixOfTen()
    ensures var lr := New(Cursor([0, 1, 2, 3, 4, 5, 6, 7, 8, 9], 0), 6);
            var (lr1, b1, n1) := Read(lr, [0, 0, 0, 0]);
            var (lr2, b2, n2) := Read(lr1, [0, 0, 0, 0]);
            && n1 == 4 && b1 == [0, 1, 2, 3]
            && n2 == 2 && b2 == [4, 5, 0, 0]
            && Read(lr2, [0, 0, 0, 0]).2 == 0
  {
    var data: seq<Byte> := [0, 1, 2, 3, 4, 5, 6, 7, 8, 9];
    var lr := New(Cursor(data, 0), 6);
    var (lr1, b1, n1) := Read(lr, [0, 0, 0, 0]);
    assert b1[..4] == Ahead(Cursor(data, 0), 4) == data[0..4];
    var (lr2, b2, n2) := Read(lr1, [0, 0, 0, 0]);
    assert b2[..2] == Ahead(Cursor(data, 4), 2) == data[4..6];
  }
}
