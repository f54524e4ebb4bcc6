/** `DataStream`: a growing buffer with a read cursor (src/core/serialization/stream.cpp). */
module Stream {
  import opened Common
  import opened Codec

  class DataStream {
    var buffer: Bytes
    var pos: nat

    ghost predicate Valid()
      reads this
    {
      pos <= |buffer|
    }

    ghost function Consumed(): Bytes
      reads this
      requires Valid()
    {
      buffer[..pos]
    }

    ghost function Unread(): Bytes
      reads this
      requires Valid()
    {
      buffer[pos..]
    }

    constructor (data: Bytes)
      ensures Valid() && buffer == data && pos == 0
    {
      buffer, pos := data, 0;
    }

    method Write(data: Bytes) returns (r: Result<()>)
      requires Valid()
      modifies this`buffer
      ensures Valid()
      ensures |old(buffer)| + |data| > MAX_STREAM_SIZE ==> r == Err(InputTooLarge) && buffer == old(buffer)
      ensures |old(buffer)| + |data| <= MAX_STREAM_SIZE ==> r.Ok? && buffer == old(buffer) + data
      ensures r.Ok? ==> Unread() == old(Unread()) + data
    {
      if |buffer| + |data| > MAX_STREAM_SIZE { return Err(InputTooLarge); }
      buffer := buffer + data;
      return Ok(());
    }

    /** Unlike `Write`, appending one byte is not limited. */
    method PushBack(item: Byte)
      requires Valid()
      modifies this`buffer
      ensures Valid()
      ensures buffer == old(buffer) + [item] && Unread() == old(Unread()) + [item]
    {
      buffer := buffer + [item];
    }

    /** Without a count, everything unread is returned. */
    method Read(count: Option<nat>) returns (r: Result<Bytes>)
      requires Valid()
      modifies this`pos
      ensures Valid()
      ensures var n := if count.Some? then count.value else |old(Unread())|;
              Follows(this, r, ReadBytes(old(Unread()), n))
      ensures r.Err? ==> pos == old(pos)
    {
      var n := if count.Some? then count.value else |buffer| - pos;
      if n > |buffer| - pos { return Err(ReadOverflow); }
      assert buffer[pos..][..n] == buffer[pos..pos + n] && buffer[pos..][n..] == buffer[pos + n..];
      r := Ok(buffer[pos..pos + n]);
      pos := pos + n;
    }

    method Ignore(count: nat)
      requires Valid()
      modifies this`pos
      ensures Valid()
      ensures Unread() == old(Unread())[Min(count, |old(Unread())|)..]
    {
      pos := pos + Min(count, |buffer| - pos);
    }

    method Seek(position: nat) returns (at: nat)
      requires Valid()
      modifies this`pos
      ensures Valid()
      ensures pos == at == Min(position, |buffer|)
    {
      pos := Min(position, |buffer|);
      at := pos;
    }

    /** Going back further than the cursor has come does nothing. */
    method Rewind(count: Option<nat>)
      requires Valid()
      modifies this`pos
      ensures Valid()
      ensures count.None? ==> pos == 0
      ensures count.Some? ==> pos == if count.value <= old(pos) then old(pos) - count.value else old(pos)
    {
      if count.None? {
        pos := 0;
      } else if count.value <= pos {
        pos := pos - count.value;
      }
    }

    /** Erasing a range takes it out of the consumed part and out of the unread part. */
    method Erase(at: nat, count: Option<nat>)
      requires Valid()
      modifies this
      ensures Valid()
      ensures Consumed() == Cut(old(Consumed()), at, count)
      ensures Unread() == Cut(old(Unread()), at - old(pos), count)
    {
      hide Cut;
      if (count.Some? && count.value == 0) || at >= |buffer| {
        CutNothing(Consumed(), at, count);
        CutNothing(Unread(), at - pos, count);
        return;
      }
      var n := if count.None? then |buffer| - at else Min(count.value, |buffer| - at);
      if pos <= at {
        CutAfter(buffer, pos, at, n, count);
      } else {
        CutBefore(buffer, pos, at, n, count);
      }
      buffer := buffer[..at] + buffer[at + n..];
      if pos > 0 && pos > at {
        pos := pos - Min(pos - at, n);
      }
    }

    /** Dropping what has been read, up to a limit, leaves the unread part alone. */
    method Consume(limit: Option<nat>)
      requires Valid()
      modifies this
      ensures Valid()
      ensures Unread() == old(Unread())
      ensures Consumed() == old(Consumed())[if limit.None? then |old(Consumed())|
                                            else Min(limit.value, |old(Consumed())|)..]
    {
      var n := if limit.None? then pos else Min(pos, limit.value);
      buffer := buffer[n..];
      pos := pos - n;
    }

    /** Shrinking below the cursor leaves the cursor beyond the end; that is the only way to lose validity. */
    method Resize(size: nat, item: Byte) returns (r: Result<()>)
      requires Valid()
      modifies this`buffer
      ensures r.Err? <==> size > MAX_STREAM_SIZE
      ensures r.Err? ==> buffer == old(buffer)
      ensures r.Ok? ==> |buffer| == size && forall i | 0 <= i < size ::
              buffer[i] == if i < |old(buffer)| then old(buffer)[i] else item
      ensures Valid() <==> r.Err? || size >= old(pos)
    {
      if size > MAX_STREAM_SIZE { return Err(InputTooLarge); }
      buffer := if size <= |buffer| then buffer[..size] else buffer + seq(size - |buffer|, i => item);
      return Ok(());
    }

    method Clear()
      modifies this
      ensures Valid() && buffer == [] && pos == 0
    {
      buffer, pos := [], 0;
    }

    /** What was unread moves to the end of `dst`, or nothing happens. */
    method GetClear(dst: DataStream) returns (r: Result<()>)
      requires Valid() && dst.Valid() && dst != this
      modifies this, dst
      ensures Valid() && dst.Valid() && dst.pos == old(dst.pos)
      ensures r.Ok? ==> dst.buffer == old(dst.buffer) + old(Unread()) && buffer == []
      ensures r.Err? ==> dst.buffer == old(dst.buffer) && buffer == old(buffer) && pos == old(pos)
    {
      r := dst.Write(buffer[pos..]);
      if r.Err? { return; }
      Clear();
    }
  }

  /** `s` without the elements at positions `at` to `at + count`, as far as they exist. */
  function Cut(s: Bytes, at: int, count: Option<nat>): Bytes {
    var lo := Max(0, Min(at, |s|));
    var hi := if count.None? then |s| else Max(lo, Min(at + count.value, |s|));
    s[..lo] + s[hi..]
  }

  lemma CutNothing(s: Bytes, at: int, count: Option<nat>)
    requires (count.Some? && count.value == 0) || at >= |s|
    ensures Cut(s, at, count) == s
  {
    var lo := Max(0, Min(at, |s|));
    var hi := if count.None? then |s| else Max(lo, Min(at + count.value, |s|));
    assert hi == lo;
    assert s[..lo] + s[lo..] == s;
  }

  /** Erasing at or after the cursor. */
  lemma CutAfter(b: Bytes, pos: nat, at: nat, n: nat, count: Option<nat>)
    requires pos <= at && at + n <= |b|
    requires n == if count.None? then |b| - at else Min(count.value, |b| - at)
    ensures (b[..at] + b[at + n..])[..pos] == Cut(b[..pos], at, count)
    ensures (b[..at] + b[at + n..])[pos..] == Cut(b[pos..], at - pos, count)
  {
    assert b[pos..][..at - pos] == b[pos..at];
    assert b[pos..][at - pos + n..] == b[at + n..];
    assert (b[..at] + b[at + n..])[pos..] == b[pos..at] + b[at + n..];
  }

  /** Erasing from before the cursor. */
  lemma CutBefore(b: Bytes, pos: nat, at: nat, n: nat, count: Option<nat>)
    requires at < pos <= |b| && at + n <= |b|
    requires n == if count.None? then |b| - at else Min(count.value, |b| - at)
    ensures var pos' := pos - Min(pos - at, n);
      && (b[..at] + b[at + n..])[..pos'] == Cut(b[..pos], at, count)
      && (b[..at] + b[at + n..])[pos'..] == Cut(b[pos..], at - pos, count)
  {
    if at + n <= pos {
      assert (b[..at] + b[at + n..])[..pos - n] == b[..at] + b[at + n..pos];
      assert (b[..at] + b[at + n..])[pos - n..] == b[pos..];
      assert b[..pos][at + n..] == b[at + n..pos];
    } else {
      assert (b[..at] + b[at + n..])[..at] == b[..at];
      assert (b[..at] + b[at + n..])[at..] == b[at + n..];
      assert b[pos..][at + n - pos..] == b[at + n..];
    }
  }

  /** A read method answered as the reading function prescribes, and left the cursor where it prescribes. */
  ghost predicate Follows<T>(st: DataStream, r: Result<T>, spec: Parsed<T>)
    requires st.Valid()
    reads st
  {
    match spec
    case Got(v, rest) => r == Ok(v) && st.Unread() == rest
    case Fail(e) => r == Err(e)
  }
}
