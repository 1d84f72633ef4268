/** The ring buffer of src/CircularBuffer.cpp, refining a bounded byte FIFO.

    Pointers become offsets into `data`; `mEnd` is `data.Length`.  Either
    offset may rest at `mEnd`: `rd` after a read that stops exactly there,
    `wr` after a fill that completes the buffer. */
module CircularBuffers {
  import opened Integers

  /** Where offset k lies in a ring of n bytes once it has gone round. */
  function Wrap(n: nat, k: int): (w: int)
    ensures 0 <= k < n ==> w == k
    ensures n <= k < 2 * n ==> w == k - n
  {
    if k < n then k else k - n
  }

  /** The position of the first t in s, or |s|. */
  function IndexOf(s: seq<byte>, t: byte): (k: nat)
    ensures k <= |s| && t !in s[..k] && (k < |s| ==> s[k] == t)
  {
    if s == [] || s[0] == t then 0 else
      var k := 1 + IndexOf(s[1..], t);
      assert s[..k] == [s[0]] + s[1..][..k - 1];
      k
  }

  lemma IndexOfUnique(s: seq<byte>, t: byte, k: nat)
    requires k <= |s| && (forall j :: 0 <= j < k ==> s[j] != t) && (k < |s| ==> s[k] == t)
    ensures IndexOf(s, t) == k
  {
    var i := IndexOf(s, t);
    assert forall j :: 0 <= j < i ==> s[..i][j] != t;
  }

  /** What IReaderWriter::read would deliver: an error, or up to the bytes at hand. */
  datatype Reader = Failing(code: int) | Pending(bytes: seq<byte>)

  /** The ways peekLine fails: `BadLength` stands for the call line.assign(ptr, -1), whose length
      wraps to a huge value, `BeyondBuffer` for a byte fetched from the end of the buffer, and
      `Endless` for a loop that never meets the write pointer. */
  datatype Peeked = NoLine | Line(text: seq<byte>) | BadLength | BeyondBuffer | Endless

  class CircularBuffer {
    const data: array<byte>
    var rd: nat
    var wr: nat
    var len: nat
    ghost var contents: seq<byte>  // the FIFO, oldest byte first

    ghost predicate Valid()
      reads this, data
    {
      var n := data.Length;
      && rd <= n && wr <= n && len <= n && |contents| == len
      && (rd + len == wr || rd + len == wr + n)
      && (wr == n ==> rd == 0 && len == n)
      && (rd == n ==> n == 0 || len < n)
      && Holds()
    }

    /** The bytes from `rd`, going round at the end, are the contents. */
    ghost predicate Holds()
      requires |contents| <= data.Length && rd <= data.Length
      reads this, data
    {
      forall i :: 0 <= i < |contents| ==> contents[i] == data[Wrap(data.Length, rd + i)]
    }

    /** Bytes p laid down from offset `wr`, going round, are an append. */
    twostate lemma Appended(p: seq<byte>)
      requires old(Valid()) && contents == old(contents) + p && |contents| <= data.Length
      requires rd == if old(rd) == data.Length then 0 else old(rd)
      requires forall k :: 0 <= k < data.Length ==>
        data[k] == if old(wr) <= k < old(wr) + |p| then p[k - old(wr)]
                   else if 0 <= k + data.Length - old(wr) < |p| then p[k + data.Length - old(wr)]
                   else old(data[k])
      ensures Holds()
    {
    }

    /** Dropping the k oldest bytes moves the start by k, around the end if need be. */
    twostate lemma Removed(k: nat)
      requires old(Valid()) && k <= old(len) && contents == old(contents)[k..]
      requires rd <= data.Length && (rd == old(rd) + k || rd == old(rd) + k - data.Length)
      requires data[..] == old(data[..])
      ensures Holds()
    {
      assert forall i :: 0 <= i < data.Length ==> data[..][i] == old(data[..])[i];
    }

    /** The first i bytes as the one or two pieces of storage that hold them. */
    lemma Pieces(i: nat, ptr: nat)
      requires Valid() && i < len && ptr == Wrap(data.Length, rd + i) && rd < data.Length
      ensures ptr < rd ==> data[rd..] + data[..ptr] == contents[..i]
      ensures ptr >= rd ==> data[rd..ptr] == contents[..i]
    {
    }

    /** No two indices are those of the first terminator. */
    lemma FirstIsUnique(terminal: byte, i: nat)
      requires i < |contents| && contents[i] == terminal && forall j :: 0 <= j < i ==> contents[j] != terminal
      ensures terminal !in contents[..i]
      ensures forall k :: 0 <= k < |contents| && contents[k] == terminal && terminal !in contents[..k] ==> k == i
    {
      forall k | i < k < |contents| ensures terminal in contents[..k] {
        assert contents[..k][i] == terminal;
      }
    }

    constructor (size: nat)
      ensures Valid() && contents == [] && rd == 0 && data.Length == size && fresh(data)
    {
      data := new byte[size](_ => 0);
      rd, wr, len := 0, 0, 0;
      contents := [];
    }

    function GetFreeSpace(): int
      reads this
    {
      data.Length - len
    }

    /** memcpy with the guards of bufferCopy. */
    static method BufferCopy(dst: array?<byte>, d: nat, src: array?<byte>, s: nat, n: nat)
      requires src != null ==> s + n <= src.Length
      requires dst != null ==> d + n <= dst.Length
      requires dst == null || src != dst
      modifies dst
      ensures dst != null ==> forall k :: 0 <= k < dst.Length ==>
        dst[k] == if src != null && d <= k < d + n then src[s + k - d] else old(dst[k])
    {
      if src == null || n <= 0 || dst == null {
        return;
      }
      forall i | 0 <= i < n {
        dst[d + i] := src[s + i];
      }
    }

    method AddLength(n: nat)
      requires n <= data.Length - len
      modifies this`len, this`rd
      ensures len == old(len) + n
      ensures rd == if old(rd) == data.Length then 0 else old(rd)
    {
      len := len + n;
      if rd == data.Length {
        rd := 0;
      }
    }

    method SubtractLength(n: nat)
      requires n <= len
      modifies this`len, this`wr
      ensures len == old(len) - n
      ensures wr == if old(wr) == data.Length then 0 else old(wr)
    {
      len := len - n;
      if wr == data.Length {
        wr := 0;
      }
    }

    /** The copying half of write_internal: up to the end, then from the beginning. */
    method CopyIn(src: array<byte>, off: nat, size: nat)
      requires Valid() && 0 < size <= data.Length - len
      requires off + size <= src.Length && src != data
      modifies this, data
      ensures Valid() && contents == old(contents) + src[off..off + size]
    {
      ghost var p := src[off..off + size];
      var tail := data.Length - wr;
      if tail > size {
        tail := size;
      }
      BufferCopy(data, wr, src, off, tail);
      assert forall k :: old(wr) <= k < wr + tail ==> data[k] == p[k - wr];
      wr := wr + tail;
      if wr == data.Length {
        wr := 0;
      }
      if tail < size {
        var head := size - tail;
        BufferCopy(data, wr, src, off + tail, head);
        assert forall k :: 0 <= k < head ==> data[k] == p[k + tail];
        wr := wr + head;
      }
      AddLength(size);
      contents := contents + p;
      Appended(p);
    }

    method WriteInternal(src: array?<byte>, off: nat, requested: nat) returns (n: nat)
      requires Valid()
      requires src != null ==> off + requested <= src.Length && src != data
      modifies this, data
      ensures Valid()
      ensures n == if src == null then 0 else Min(requested, data.Length - old(len))
      ensures contents == old(contents) + if n == 0 then [] else src[off..off + n]
    {
      if src == null {
        return 0;
      }
      var size := requested;
      if size > GetFreeSpace() {
        size := GetFreeSpace();
      }
      if size == 0 {
        return 0;
      }
      CopyIn(src, off, size);
      return size;
    }

    method Write(src: array?<byte>, size: nat) returns (n: nat)
      requires Valid()
      requires src != null ==> size <= src.Length && src != data
      modifies this, data
      ensures Valid()
      ensures n == if src == null then 0 else Min(size, data.Length - old(len))
      ensures contents == old(contents) + if n == 0 then [] else src[..n]
    {
      n := WriteInternal(src, 0, size);
    }

    /** The oldest bytes give way: what stays is the end of everything written so far.  A NULL source
        makes room and writes nothing; with an offset into it, its use is not defined. */
    method WriteOverflow(src: array?<byte>, requested: nat) returns (n: nat)
      requires Valid()
      requires if src == null then requested <= data.Length else requested <= src.Length && src != data
      modifies this, data
      ensures Valid() && n == if src == null then 0 else requested
      ensures src == null ==> contents == old(contents)[Max(0, requested - (data.Length - old(len)))..]
      ensures src != null ==> var all := old(contents) + src[..requested];
        contents == all[|all| - Min(data.Length, |all|)..]
    {
      hide Holds, Wrap;
      var offset, size := 0, requested;
      if size > data.Length {
        offset := size - data.Length;
        size := data.Length;
      }
      var readSize := size - GetFreeSpace();
      if readSize > 0 {
        var _ := Read(null, readSize);
      }
      var w := WriteInternal(src, offset, size);
      n := w + offset;
      assert src != null ==> src[offset..offset + size] == src[..requested][offset..];
    }

    method Read(dst: array?<byte>, requested: nat) returns (n: nat)
      requires Valid()
      requires dst != null ==> dst != data && Min(requested, len) <= dst.Length
      modifies this, dst
      ensures Valid()
      ensures n == Min(requested, old(len))
      ensures contents == old(contents)[n..]
      ensures rd == if old(rd) + n <= data.Length then old(rd) + n else old(rd) + n - data.Length
      ensures dst != null ==> forall k :: 0 <= k < dst.Length ==>
        dst[k] == if k < n then old(contents)[k] else old(dst[k])
    {
      var size := requested;
      if size > len {
        size := len;
      }
      if size == 0 {
        return 0;
      }
      var tail := data.Length - rd;
      if tail > size {
        tail := size;
      }
      BufferCopy(dst, 0, data, rd, tail);
      assert dst != null ==> forall k :: 0 <= k < tail ==> dst[k] == contents[k];
      rd := rd + tail;
      if tail < size {
        var head := size - tail;
        if dst != null {
          BufferCopy(dst, tail, data, 0, head);
        }
        rd := head;
      }
      SubtractLength(size);
      contents := contents[size..];
      Removed(size);
      return size;
    }

    /** At most one byte, refused with -1 when the buffer is full. */
    method WriteByte(b: byte) returns (r: int)
      requires Valid()
      modifies this, data
      ensures Valid()
      ensures r == if old(len) == data.Length then -1 else 0
      ensures contents == if r == 0 then old(contents) + [b] else old(contents)
      ensures rd == if r == 0 && old(rd) == data.Length then 0 else old(rd)
    {
      if GetFreeSpace() == 0 {
        return -1;
      }
      data[wr] := b;
      wr := wr + 1;
      AddLength(1);
      if wr == data.Length {
        wr := 0;
      }
      contents := contents + [b];
      return 0;
    }

    method Clear()
      requires Valid()
      modifies this
      ensures Valid() && contents == [] && rd == wr == 0
    {
      wr, rd := 0, 0;
      len := 0;
      contents := [];
    }

    /** Stands for reader->read(mWritePtr, n): any result up to n. */
    method ReadFrom(reader: Reader, n: nat) returns (res: int)
      requires wr + n <= data.Length
      modifies data
      ensures reader.Failing? ==> res < 0 && unchanged(data)
      ensures reader.Pending? ==> res == Min(n, |reader.bytes|)
      ensures reader.Pending? ==> forall k :: 0 <= k < data.Length ==>
        data[k] == if wr <= k < wr + res then reader.bytes[k - wr] else old(data[k])
    {
      match reader
      case Failing(code) =>
        res := if code < 0 then code else -1;
      case Pending(bytes) =>
        res := Min(n, |bytes|);
        forall i | 0 <= i < res {
          data[wr + i] := bytes[i];
        }
    }

    /** One read call: at most the free space, and at most the run up to the end when
        the free space wraps. */
    method FillFromFile(reader: Reader, requested: nat) returns (res: int)
      requires Valid()
      modifies this, data
      ensures Valid()
      ensures res < 0 || requested == 0 || old(len) == data.Length ==> contents == old(contents)
      ensures reader.Failing? ==> res < 0 || requested == 0 || old(len) == data.Length
      ensures reader.Pending? ==> 0 <= res <= |reader.bytes| && contents == old(contents) + reader.bytes[..res]
      ensures reader.Pending? ==> var room := Min(requested, data.Length - old(len));
        res == Min(|reader.bytes|, if old(rd) > old(wr) then room else Min(room, data.Length - old(wr)))
      ensures reader.Pending? && old(rd) > old(wr) ==> wr == old(wr) + res
    {
      var freespace := GetFreeSpace();
      res := 0;
      var size := requested;
      if size > freespace {
        size := freespace;
      }
      if size == 0 {
        return 0;
      }
      if rd > wr {
        res := ReadFrom(reader, size);
        if res < 0 {
          return;
        }
        wr := wr + res;
      } else {
        var readSize := size;
        if size > data.Length - wr {
          readSize := data.Length - wr;
        }
        res := ReadFrom(reader, readSize);
        if res < 0 {
          return;
        }
        wr := wr + res;
        if wr == data.Length {
          wr := 0;
        }
      }
      AddLength(res);
      contents := contents + reader.bytes[..res];
      Appended(reader.bytes[..res]);
    }

    /** A longest run of valid bytes from index i: up to the wrap or the end of the data. */
    method GetBytesInternal(i: nat) returns (res: int, size: nat)
      requires Valid()
      ensures i >= len ==> res == -1 && size == 0
      ensures i < len ==> 0 <= res < data.Length && res == Wrap(data.Length, rd + i)
      ensures i < len ==> size == Min(len - i, data.Length - res) && size > 0
      ensures forall k :: i <= k < i + size ==> contents[k] == data[res + k - i]
    {
      res, size := -1, 0;
      if i < len {
        res := rd + i;
        var run := wr - res;
        if rd >= wr {
          if res >= data.Length {
            res := res - data.Length;
            run := wr - res;
          } else {
            run := data.Length - res;
          }
        }
        size := run;
      }
    }

    method ByteAt(i: nat) returns (b: int)
      requires Valid()
      ensures b == if i < len then contents[i] else -1
    {
      var res, size := GetBytesInternal(i);
      if res == -1 {
        b := -1;
      } else {
        b := data[res];
      }
    }

    method Copy(dst: array<byte>, requested: nat) returns (n: nat)
      requires Valid() && dst != data && Min(requested, len) <= dst.Length
      modifies dst
      ensures n == Min(requested, len)
      ensures forall k :: 0 <= k < dst.Length ==>
        dst[k] == if k < n then contents[k] else old(dst[k])
    {
      var size := requested;
      if size > len {
        size := len;
      }
      var src, start := GetBytesInternal(0);
      if start > size {
        start := size;
      }
      if start > 0 {
        BufferCopy(dst, 0, data, src, start);
      }
      if start < size {
        var end := size - start;
        var rest;
        src, rest := GetBytesInternal(start);
        BufferCopy(dst, start, data, src, end);
      }
      return size;
    }

    /** The line before the first terminator, but for three failures.  With the read pointer at the
        end, the first byte is fetched from there; with the write pointer at the end and no
        terminator, the loop goes round for ever; and in a full buffer that does not start at
        offset 0, a terminator found only in the last byte leaves the pointer where the line began. */
    method PeekLine(terminal: byte) returns (r: Peeked)
      requires Valid()
      ensures rd != data.Length ==>
        forall k :: 0 <= k < len && contents[k] == terminal && terminal !in contents[..k] ==>
        r == if k == data.Length - 1 && rd > 0 then BadLength else Line(contents[..k])
      ensures r == NoLine <==> len == 0 || (terminal !in contents && rd != data.Length && wr != data.Length)
      ensures r == BeyondBuffer <==> len > 0 && rd == data.Length
      ensures r == Endless <==> len > 0 && rd != data.Length && terminal !in contents && wr == data.Length
    {
      if len == 0 {
        return NoLine;
      }
      if rd == data.Length {
        return BeyondBuffer;
      }
      ghost var i;
      var found, endless, ptr;
      found, endless, ptr, i := Scan(terminal);
      if found {
        FirstIsUnique(terminal, i);
        r := TextBefore(ptr, i);
        return;
      }
      return if endless then Endless else NoLine;
    }

    /** The loop of peekLine, from the read pointer on. */
    method Scan(terminal: byte) returns (found: bool, endless: bool, ptr: nat, ghost i: nat)
      requires Valid() && len > 0 && rd < data.Length
      ensures found ==> i < len && contents[i] == terminal && ptr == Wrap(data.Length, rd + i)
      ensures found ==> forall j :: 0 <= j < i ==> contents[j] != terminal
      ensures !found ==> terminal !in contents && (endless <==> wr == data.Length)
    {
      ptr, found, endless, i := rd, false, false, 0;
      while true
        invariant 0 <= i < len && ptr == Wrap(data.Length, rd + i) && !found
        invariant forall j :: 0 <= j < i ==> contents[j] != terminal
        decreases len - i
      {
        if data[ptr] == terminal {
          return true, false, ptr, i;
        }
        ptr := ptr + 1;
        if ptr == data.Length {
          ptr := 0;
        }
        i := i + 1;
        if wr == data.Length && ptr == rd {
          return false, true, ptr, i;  // as at the start
        }
        if ptr == wr {
          return false, false, ptr, i;
        }
      }
    }

    /** The text from the read pointer up to the terminator found at ptr, in one piece or two. */
    method TextBefore(at: nat, ghost i: nat) returns (r: Peeked)
      requires Valid() && i < len && at == Wrap(data.Length, rd + i) && rd < data.Length
      ensures r == if i == data.Length - 1 && rd > 0 then BadLength else Line(contents[..i])
    {
      Pieces(i, at);
      var ptr := at + 1;
      if ptr < rd {
        return Line(data[rd..] + data[..ptr - 1]);
      }
      if ptr - rd - 1 < 0 {
        return BadLength;
      }
      return Line(data[rd..ptr - 1]);
    }

    /** Takes the line that peeking yields and its terminator, or nothing. */
    method GetLine(terminal: byte) returns (n: nat, r: Peeked)
      requires Valid()
      modifies this
      ensures Valid()
      ensures old(rd) != data.Length ==>
        forall k :: 0 <= k < old(len) && old(contents)[k] == terminal && terminal !in old(contents)[..k] ==>
          if k == data.Length - 1 && old(rd) > 0 then r == BadLength && contents == old(contents)
          else r == Line(old(contents)[..k]) && n == k + 1 && contents == old(contents)[k + 1..]
      ensures r == NoLine <==>
        old(len) == 0 || (terminal !in old(contents) && old(rd) != data.Length && old(wr) != data.Length)
      ensures r == BeyondBuffer <==> old(len) > 0 && old(rd) == data.Length
      ensures r == Endless <==>
        old(len) > 0 && old(rd) != data.Length && terminal !in old(contents) && old(wr) == data.Length
      ensures !r.Line? ==> n == 0 && contents == old(contents)
    {
      r := PeekLine(terminal);
      n := Read(null, if r.Line? then |r.text| + 1 else 0);
    }
  }

  /** A ring of two bytes comes to fail: two writes, a read, and a newline as last byte. */
  method BadLengthIsReached() returns (r: Peeked)
    ensures r == BadLength
  {
    var ring := new CircularBuffer(2);
    var _ := ring.WriteByte(1);
    var _ := ring.WriteByte(2);
    var _ := ring.Read(null, 1);
    assert ring.contents == [2];
    var _ := ring.WriteByte(10);
    assert ring.contents == [2, 10];
    assert ring.contents[..1] == [2];
    r := ring.PeekLine(10);
  }

  /** A ring whose read pointer has stopped at the end of the storage. */
  method RingAtEnd() returns (ring: CircularBuffer)
    ensures fresh(ring) && fresh(ring.data) && ring.Valid() && ring.rd == ring.data.Length == 2 && ring.contents == [3]
  {
    ring := new CircularBuffer(2);
    var _ := ring.WriteByte(1);
    var _ := ring.WriteByte(2);
    var _ := ring.Read(null, 1);
    var _ := ring.WriteByte(3);
    assert ring.contents == [2, 3];
    var _ := ring.Read(null, 1);
  }

  /** It is read from beyond the storage. */
  method BeyondBufferIsReached() returns (r: Peeked)
    ensures r == BeyondBuffer
  {
    var ring := RingAtEnd();
    r := ring.PeekLine(10);
  }

  /** Filled up in that state, the ring leaves its write pointer at the end. */
  method EndlessIsReached() returns (r: Peeked)
    ensures r == Endless
  {
    var ring := RingAtEnd();
    var _ := ring.FillFromFile(Pending([4]), 1);
    assert ring.contents == [3, 4];
    r := ring.PeekLine(10);
  }
}
