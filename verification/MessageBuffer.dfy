/** The ring buffer that reassembles segmented messages (src/components/utilities/MessageBuffer.cpp). */
module MessageBuffers {
  import opened Bytes

  /** What a MessageBuffer holds, seen from its read position: all its cells in ring order, the
      first `stored` of which are data. The others hold whatever was written there before. */
  datatype Ring = Ring(cells: bytes, stored: nat) {

    /** One cell always stays free, so that a full ring differs from an empty one. */
    ghost predicate Valid() {
      stored < |cells|
    }

    function Contents(): bytes
      requires stored <= |cells|
    {
      cells[..stored]
    }

    function Capacity(): nat
      requires |cells| > 0
    {
      |cells| - 1
    }

    /** The ring after an accepted or refused push. */
    function Push(chunk: bytes): Ring
      requires Valid()
    {
      if stored + |chunk| > Capacity() then this
      else Ring(cells[..stored] + chunk + cells[stored + |chunk|..], stored + |chunk|)
    }

    /** The ring after `n` bytes are taken from its front; the freed cells keep their values. */
    function Drop(n: nat): Ring
      requires Valid() && n <= stored
    {
      Ring(cells[n..] + cells[..n], stored - n)
    }

    /** The ring after a flush, which also moves the read position, by `turn` cells. */
    function Flush(turn: nat): Ring
      requires turn <= |cells|
    {
      Ring(cells[turn..] + cells[..turn], 0)
    }

    /** The number of bytes a pull up to `delimiter` into a buffer of `bufSize` bytes takes. */
    function DelimitedCount(delimiter: bytes, bufSize: nat): nat
      requires Valid()
    {
      if |delimiter| == 0 then Min(bufSize, stored)
      else if stored < |delimiter| then 0
      else Min(Scan(cells, delimiter, bufSize, 0, 0, 0), stored)
    }
  }

  /** The delimiter search. `p` is the cell to look at next and wraps at the end of the ring,
      `matched` the number of delimiter bytes matched so far, `count` the number of cells looked
      at. A mismatch restarts the match at zero without looking at the mismatching byte again, and
      a match counts only while fewer than `bufSize` cells were looked at. The search is not
      bounded by the number of stored bytes. Zero means no match. */
  function Scan(cells: bytes, delimiter: bytes, bufSize: nat, p: nat, matched: nat, count: nat): nat
    requires cells != [] && p <= |cells| && matched <= |delimiter|
    decreases bufSize - count
  {
    if matched == |delimiter| then count
    else
      var at := if p == |cells| then 0 else p;
      var m := if cells[at] == delimiter[matched] then matched + 1 else 0;
      if count + 1 >= bufSize then 0 else Scan(cells, delimiter, bufSize, at + 1, m, count + 1)
  }

  /** The cells of an array read from position `start` round to it again. */
  function Rotate(d: bytes, start: nat): bytes
    requires start <= |d|
  {
    d[start..] + d[..start]
  }

  function StoredBetween(size: nat, start: nat, end: nat): int {
    if end >= start then end - start else (size - start) + end
  }

  /** The abstract value of an array with its two positions. */
  function RingOf(d: bytes, start: nat, end: nat): Ring
    requires start <= |d| && 0 <= StoredBetween(|d|, start, end)
  {
    Ring(Rotate(d, start), StoredBetween(|d|, start, end))
  }

  /** A chunk that fits before the end of the array lands directly behind the stored bytes. */
  lemma PushStraight(d: bytes, start: nat, end: nat, chunk: bytes)
    requires start <= |d| && end + |chunk| <= |d|
    requires StoredBetween(|d|, start, end) + |chunk| < |d|
    ensures var stored := StoredBetween(|d|, start, end);
            var d' := d[..end] + chunk + d[end + |chunk|..];
            Rotate(d', start) == Rotate(d, start)[..stored] + chunk + Rotate(d, start)[stored + |chunk|..]
  {
    var stored := StoredBetween(|d|, start, end);
    var d' := d[..end] + chunk + d[end + |chunk|..];
    var r, r' := Rotate(d, start), Rotate(d', start);
    var e := r[..stored] + chunk + r[stored + |chunk|..];
    forall i | 0 <= i < |d| ensures r'[i] == e[i] {
      var j := if i < |d| - start then start + i else start + i - |d|;
      assert r'[i] == d'[j] && r[i] == d[j];
    }
  }

  /** A chunk that does not fit is cut in two at the end of the array. */
  lemma PushWrapped(d: bytes, start: nat, end: nat, chunk: bytes)
    requires start <= |d| && end <= |d| < end + |chunk|
    requires 0 <= StoredBetween(|d|, start, end) && StoredBetween(|d|, start, end) + |chunk| < |d|
    ensures var stored := StoredBetween(|d|, start, end);
            var cut := |d| - end;
            var d' := chunk[cut..] + d[|chunk| - cut..end] + chunk[..cut];
            start <= end && |chunk| - cut < start && |d'| == |d| &&
            Rotate(d', start) == Rotate(d, start)[..stored] + chunk + Rotate(d, start)[stored + |chunk|..]
  {
    var stored := StoredBetween(|d|, start, end);
    var cut := |d| - end;
    var d' := chunk[cut..] + d[|chunk| - cut..end] + chunk[..cut];
    var r, r' := Rotate(d, start), Rotate(d', start);
    var e := r[..stored] + chunk + r[stored + |chunk|..];
    forall i | 0 <= i < |d| ensures r'[i] == e[i] {
      var j := if i < |d| - start then start + i else start + i - |d|;
      assert r'[i] == d'[j] && r[i] == d[j];
    }
  }

  /** The two copies of a wrapped push, put together. */
  lemma WrappedCopies(d: bytes, end: nat, chunk: bytes, d1: bytes, d2: bytes)
    requires end <= |d| < end + |chunk| && |chunk| + end - |d| <= end
    requires var cut := |d| - end;
             d1 == d[..end] + chunk[..cut] + d[end + cut..] && d2 == d1[..0] + chunk[cut..] + d1[|chunk| - cut..]
    ensures d2 == chunk[|d| - end..] + d[|chunk| + end - |d|..end] + chunk[..|d| - end]
  {
    var cut := |d| - end;
    assert d[end + cut..] == [];
    assert d1 == d[..end] + chunk[..cut];
    assert d1[|chunk| - cut..] == d[..end][|chunk| - cut..] + chunk[..cut];
    assert d[..end][|chunk| - cut..] == d[|chunk| - cut..end];
  }

  /** The cell `i` places behind the read position. */
  lemma RotateAt(d: bytes, start: nat, i: nat)
    requires start <= |d| && i < |d|
    ensures Rotate(d, start)[i] == d[if i < |d| - start then start + i else start + i - |d|]
  {
  }

  /** Moving the read position on by `n` turns the ring by `n`. */
  lemma RotateFurther(d: bytes, start: nat, n: nat)
    requires start <= |d| && n <= |d|
    ensures var next := if n > |d| - start then start + n - |d| else start + n;
            Rotate(d, next) == Rotate(d, start)[n..] + Rotate(d, start)[..n]
  {
    var next := if n > |d| - start then start + n - |d| else start + n;
    var r, r' := Rotate(d, start), Rotate(d, next);
    var e := r[n..] + r[..n];
    forall i | 0 <= i < |d| ensures r'[i] == e[i] {
      hide Rotate;
      RotateAt(d, next, i);
      if i < |d| - n {
        RotateAt(d, start, i + n);
      } else {
        RotateAt(d, start, i + n - |d|);
      }
    }
  }

  /** A push that fits before the end of the array. */
  lemma StraightPush(d: bytes, start: nat, end: nat, chunk: bytes, d': bytes)
    requires start <= |d| && end + |chunk| <= |d|
    requires StoredBetween(|d|, start, end) + |chunk| < |d|
    requires d' == d[..end] + chunk + d[end + |chunk|..]
    ensures StoredBetween(|d|, start, end + |chunk|) == StoredBetween(|d|, start, end) + |chunk|
    ensures RingOf(d', start, end + |chunk|) == RingOf(d, start, end).Push(chunk)
  {
    PushStraight(d, start, end, chunk);
  }

  /** A push that wraps. */
  lemma WrappedPush(d: bytes, start: nat, end: nat, chunk: bytes, d1: bytes, d2: bytes)
    requires start <= |d| && end <= |d| < end + |chunk|
    requires StoredBetween(|d|, start, end) + |chunk| < |d|
    requires var cut := |d| - end;
             d1 == d[..end] + chunk[..cut] + d[end + cut..] && |chunk| - cut <= |d1| &&
             d2 == d1[..0] + chunk[cut..] + d1[|chunk| - cut..]
    ensures StoredBetween(|d|, start, |chunk| - (|d| - end)) == StoredBetween(|d|, start, end) + |chunk|
    ensures |d2| == |d|
    ensures RingOf(d2, start, |chunk| - (|d| - end)) == RingOf(d, start, end).Push(chunk)
  {
    PushWrapped(d, start, end, chunk);
    WrappedCopies(d, end, chunk, d1, d2);
  }

  /** A pull only moves the read position. */
  lemma DropFurther(d: bytes, start: nat, end: nat, n: nat)
    requires start <= |d| && end <= |d| && n <= StoredBetween(|d|, start, end) < |d|
    ensures var next := if n > |d| - start then start + n - |d| else start + n;
            StoredBetween(|d|, next, end) == StoredBetween(|d|, start, end) - n &&
            RingOf(d, next, end) == RingOf(d, start, end).Drop(n)
  {
    RotateFurther(d, start, n);
  }

  /** Turning the ring until it is read from the start of the array again. */
  lemma RotateBack(d: bytes, start: nat)
    requires start <= |d|
    ensures var r := Rotate(d, start); r[|d| - start..] + r[..|d| - start] == d == Rotate(d, 0)
  {
    var r := Rotate(d, start);
    assert r[|d| - start..] == d[..start] && r[..|d| - start] == d[start..];
  }

  class MessageBuffer {
    const size: nat
    const maxCapacity: nat
    var dataStartPos: nat
    var dataEndPos: nat
    const data: array<byte>

    ghost predicate Valid()
      reads this, data
    {
      && size == maxCapacity + 1 == data.Length
      && dataStartPos <= size && dataEndPos <= size
      && StoredBetween(size, dataStartPos, dataEndPos) <= maxCapacity
    }

    /** The abstract value of the buffer. */
    ghost function View(): (r: Ring)
      requires Valid()
      reads this, data
      ensures r.Valid() && |r.cells| == size
    {
      Ring(Rotate(data[..], dataStartPos), StoredBetween(size, dataStartPos, dataEndPos))
    }

    /** The cells come from `new char[]` and hold arbitrary values. */
    constructor (capacity: nat)
      ensures Valid() && fresh(data) && maxCapacity == capacity
      ensures View().Contents() == []
    {
      size := capacity + 1;
      maxCapacity := capacity;
      dataStartPos := 0;
      dataEndPos := 0;
      data := new byte[capacity + 1];
    }

    function StoredByteCount(): (r: int)
      requires Valid()
      reads this, data
      ensures r == |View().Contents()|
    {
      StoredBetween(size, dataStartPos, dataEndPos)
    }

    function SpaceAvailableByteCount(): (r: int)
      requires Valid()
      reads this, data
      ensures r + |View().Contents()| == maxCapacity
    {
      maxCapacity - StoredByteCount()
    }

    method Push(buf: array<byte>, len: nat) returns (pushed: nat)
      requires Valid() && len <= buf.Length && buf != data
      modifies this`dataEndPos, data
      ensures Valid()
      ensures pushed == if len > old(SpaceAvailableByteCount()) then 0 else len
      ensures View() == old(View()).Push(buf[..len])
    {
      hide Rotate;
      pushed := 0;
      if len > SpaceAvailableByteCount() {
        return;
      }
      ghost var d, chunk := data[..], buf[..len];
      var count := size - dataEndPos;
      count := if count < len then count else len;
      CopyIn(dataEndPos, buf, 0, count);
      assert buf[0..0 + count] == chunk[..count];
      if count < len {
        ghost var d1 := data[..];
        CopyIn(0, buf, count, len - count);
        assert buf[count..count + (len - count)] == chunk[count..];
        WrappedPush(d, dataStartPos, dataEndPos, chunk, d1, data[..]);
        dataEndPos := len - count;
      } else {
        StraightPush(d, dataStartPos, dataEndPos, chunk, data[..]);
        dataEndPos := dataEndPos + count;
      }
      return len;
    }

    /** `memcpy` into the ring. */
    method CopyIn(to: nat, buf: array<byte>, from: nat, count: nat)
      requires to + count <= data.Length && from + count <= buf.Length && buf != data
      modifies data
      ensures data[..] == old(data[..])[..to] + buf[from..from + count] + old(data[..])[to + count..]
    {
      forall i | 0 <= i < count {
        data[to + i] := buf[from + i];
      }
    }

    /** `memcpy` out of the ring. */
    method CopyOut(buf: array<byte>, to: nat, from: nat, count: nat)
      requires to + count <= buf.Length && from + count <= data.Length && buf != data
      modifies buf
      ensures forall i | 0 <= i < buf.Length ::
                buf[i] == if to <= i < to + count then data[from + (i - to)] else old(buf[i])
    {
      forall i | 0 <= i < count {
        buf[to + i] := data[from + i];
      }
    }

    /** Copies the first `count` stored bytes out, in one piece or in two, and zeroes the rest. */
    method CopyFront(buf: array<byte>, count: nat)
      requires Valid() && buf != data && count <= buf.Length && count <= StoredByteCount()
      modifies buf
      ensures forall i | 0 <= i < buf.Length :: buf[i] == if i < count then View().cells[i] else NUL
    {
      hide Rotate;
      ghost var d := data[..];
      forall i | 0 <= i < buf.Length {
        buf[i] := NUL;
      }
      if count > size - dataStartPos {
        var endCount := size - dataStartPos;
        CopyOut(buf, 0, dataStartPos, endCount);
        CopyOut(buf, endCount, 0, count - endCount);
      } else if count > 0 {
        CopyOut(buf, 0, dataStartPos, count);
      }
      assert data[..] == d;
      forall i | 0 <= i < count ensures buf[i] == View().cells[i] {
        RotateAt(d, dataStartPos, i);
      }
    }

    /** Takes up to `wanted` bytes and zeroes the rest of the caller's buffer. The source does not
        compare the count with the size of that buffer; where it would copy past its end
        (`overrun`), nothing is said of what follows. */
    method PullCount(buf: array<byte>, wanted: nat) returns (count: nat, overrun: bool)
      requires Valid() && buf != data
      modifies this`dataStartPos, buf
      ensures Valid()
      ensures count == Min(wanted, old(View()).stored)
      ensures overrun <==> count > buf.Length
      ensures !overrun ==> View() == old(View()).Drop(count) && buf[..count] == old(View()).Contents()[..count]
      ensures !overrun ==> forall i :: count <= i < buf.Length ==> buf[i] == NUL
    {
      hide Rotate;
      ghost var d := data[..];
      var storedByteCount := StoredByteCount();
      count := if wanted < storedByteCount then wanted else storedByteCount;
      if count > buf.Length {
        return count, true;
      }
      overrun := false;
      CopyFront(buf, count);
      assert buf[..count] == View().Contents()[..count];
      DropFurther(d, dataStartPos, dataEndPos, count);
      assert data[..] == d;
      if count > size - dataStartPos {
        dataStartPos := count - (size - dataStartPos);
      } else if count > 0 {
        dataStartPos := dataStartPos + count;
      }
    }

    /** Takes everything up to and including the delimiter, or, without a delimiter, as much as
        fits. With fewer stored bytes than the delimiter has, the caller's buffer is left alone. */
    method PullDelimited(buf: array<byte>, delimiter: bytes) returns (count: nat)
      requires Valid() && buf != data
      modifies this`dataStartPos, buf
      ensures Valid()
      ensures count == old(View()).DelimitedCount(delimiter, buf.Length)
      ensures View() == old(View()).Drop(count)
      ensures buf.Length >= count && buf[..count] == old(View()).Contents()[..count]
      ensures count > 0 ==> forall i :: count <= i < buf.Length ==> buf[i] == NUL
    {
      var delimiterLength := |delimiter|;
      var storedByteCount := StoredByteCount();
      if delimiterLength > 0 {
        if storedByteCount < delimiterLength {
          return 0;
        }
        count := Find(delimiter, buf.Length);
      } else {
        count := if buf.Length < storedByteCount then buf.Length else storedByteCount;
      }
      var pulled, _ := PullCount(buf, count);
      return pulled;
    }

    /** The search loop of the delimited pull. */
    method Find(delimiter: bytes, bufSize: nat) returns (count: nat)
      requires Valid() && delimiter != []
      ensures count == Scan(View().cells, delimiter, bufSize, 0, 0, 0)
      ensures count <= bufSize
    {
      var source := dataStartPos;
      var matchedCount := 0;
      var haveMatch := false;
      count := 0;
      ghost var p := 0;
      ghost var cells := View().cells;
      while true
        invariant 0 <= source <= size && p <= size && matchedCount <= |delimiter|
        invariant source == dataStartPos + p || source == dataStartPos + p - size
        invariant count < bufSize || count == 0
        invariant Scan(cells, delimiter, bufSize, p, matchedCount, count) == Scan(cells, delimiter, bufSize, 0, 0, 0)
        decreases bufSize - count
      {
        if matchedCount == |delimiter| {
          haveMatch := true;
          break;
        }
        if source == size {
          source := 0;
        }
        if p == size {
          p := 0;
        }
        if data[source] == delimiter[matchedCount] {
          matchedCount := matchedCount + 1;
        } else {
          matchedCount := 0;
        }
        source := source + 1;
        p := p + 1;
        count := count + 1;
        if count >= bufSize {
          break;
        }
      }
      if !haveMatch {
        count := 0;
      }
    }

    method Flush() returns (space: nat)
      requires Valid()
      modifies this`dataStartPos, this`dataEndPos
      ensures Valid() && space == SpaceAvailableByteCount() == maxCapacity
      ensures View() == old(View()).Flush(size - old(dataStartPos)) && View().Contents() == []
    {
      RotateBack(data[..], dataStartPos);
      dataStartPos := 0;
      dataEndPos := 0;
      return maxCapacity;
    }
  }
}
