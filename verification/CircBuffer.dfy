/** The circular buffer of circbuffer.c, refining a first-in first-out byte sequence. */
module CircularBuffer {
  import opened Digits

  const MAX_CBUF_SIZE: nat := 100000000

  /** Advancing a position by at most one lap. */
  lemma Wrap(x: nat, size: nat)
    requires 0 < size && x < 2 * size
    ensures x % size == (if x < size then x else x - size)
  {
    if x < size { DivOf(x, size, 0, x); } else { DivOf(x, size, 1, x - size); }
  }

  /** (pos + len) % size */
  function Advance(pos: nat, len: nat, size: nat): (r: nat)
    requires pos < size && len <= size
    ensures r == (if pos + len < size then pos + len else pos + len - size)
  {
    Wrap(pos + len, size);
    (pos + len) % size
  }

  class CircBuffer {
    const size: nat
    var readpos: nat
    var writepos: nat
    var used: nat
    var data: array?<u8>

    /** The stored bytes, oldest first. */
    ghost var contents: seq<u8>

    ghost predicate Valid()
      reads this, data
    {
      && 0 < size <= MAX_CBUF_SIZE && used <= size && readpos < size
      && writepos == (if readpos + used < size then readpos + used else readpos + used - size)
      && |contents| == used
      && (if data == null then used == 0 else data.Length == size && Holds())
    }

    /** The contents sit in the storage from the read position on, wrapping at the end. */
    ghost predicate Holds()
      requires |contents| == used <= size && readpos < size && data != null && data.Length == size
      reads this, data
    {
      forall k :: 0 <= k < used ==> contents[k] == data[if readpos + k < size then readpos + k else readpos + k - size]
    }

    /** cbuf_new; the storage is allocated on the first write. */
    constructor (size: nat)
      requires 0 < size <= MAX_CBUF_SIZE
      ensures Valid() && this.size == size && contents == [] && data == null
    {
      this.size := size;
      readpos, writepos, used := 0, 0, 0;
      data, contents := null, [];
    }

    /** cbuf_getavail */
    function Avail(): nat
      requires Valid()
      reads this, data
    {
      size - used
    }

    /** The consistency checks at the head of cbuf_writelen hold in every valid state. */
    lemma PositionsAgree()
      requires Valid()
      ensures (2 * size + writepos - readpos) % size == used % size
      ensures (2 * size + readpos - writepos) % size == (size - used) % size
    {
      Wrap(used, size);
      Wrap(size - used, size);
      if readpos + used < size {
        DivOf(2 * size + used, size, if used < size then 2 else 3, used % size);
        DivOf(2 * size - used, size, if used == 0 then 2 else 1, (size - used) % size);
      } else {
        DivOf(size + used, size, if used < size then 1 else 2, used % size);
        DivOf(3 * size - used, size, if used == 0 then 3 else 2, (size - used) % size);
      }
    }

    /** cbuf_writelen: how many bytes can be stored without wrapping. It is zero only when full,
        and whatever does not fit before the end fits at the start. */
    function WriteLen(): (n: nat)
      requires Valid()
      reads this, data
      ensures n <= Avail() && writepos + n <= size && (n == 0 <==> Avail() == 0)
      ensures n < Avail() ==> writepos + n == size && readpos == Avail() - n
    {
      if used == size then 0
      else if writepos < readpos then readpos - writepos
      else size - writepos
    }

    /** cbuf_readptrs: the two linear portions. */
    method ReadPtrs() returns (p1: seq<u8>, p2: seq<u8>)
      requires Valid()
      ensures p1 + p2 == contents
    {
      if data == null { return [], []; }
      var len1 := if used <= size - readpos then used else size - readpos;
      var len2 := if len1 < used then used - len1 else 0;
      p1 := data[..][readpos..readpos + len1];
      p2 := data[..len2];
    }

    /** cbuf_writeptr, a copy to the place it returns and cbuf_incrwrite. Writing more than
        cbuf_writelen allows exits. */
    method Write(bytes: seq<u8>) returns (ok: bool)
      requires Valid()
      modifies this, data
      ensures Valid() && (data == old(data) || (old(data) == null && fresh(data)))
      ensures ok <==> |bytes| <= old(WriteLen())
      ensures contents == (if ok then old(contents) + bytes else old(contents))
      ensures ok && |bytes| == old(WriteLen()) ==> WriteLen() == Avail()
    {
      ok := |bytes| <= WriteLen();
      if !ok { return; }
      if data == null { data := new u8[size]; }
      Store(bytes);
    }

    method Store(bytes: seq<u8>)
      requires Valid() && data != null && |bytes| <= WriteLen()
      modifies this`used, this`writepos, this`contents, data
      ensures Valid() && contents == old(contents) + bytes
    {
      var start, n := writepos, |bytes|;
      for i := 0 to n
        invariant writepos == start && used == old(used) && contents == old(contents)
        invariant forall k :: 0 <= k < i ==> data[start + k] == bytes[k]
        invariant forall k :: 0 <= k < size && !(start <= k < start + i) ==> data[k] == old(data[k])
      {
        data[start + i] := bytes[i];
      }
      used := used + n;
      writepos := Advance(writepos, n, size);
      contents := contents + bytes;
      forall k | 0 <= k < used
        ensures contents[k] == data[if readpos + k < size then readpos + k else readpos + k - size]
      {
        if k >= old(used) { assert data[start + (k - old(used))] == bytes[k - old(used)]; }
      }
    }

    /** cbuf_incrread */
    method IncrRead(len: nat)
      requires Valid() && len <= used
      modifies this`used, this`readpos, this`contents
      ensures Valid() && contents == old(contents)[len..]
    {
      readpos := Advance(readpos, len, size);
      used, contents := used - len, contents[len..];
    }
  }
}
