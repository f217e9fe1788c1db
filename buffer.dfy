/** The growable, cursor-addressed byte buffer of the archiver: an
    append-only writer plus a sequential reader (Homeworks/proj/buffer.c). */
module ByteBuffer {

  /** An unsigned char. */
  type Byte = b: int | 0 <= b < 256

  /** Capacity of a freshly made buffer. */
  const INITIAL_CAP: nat := 5

  /** Integer ceiling of a / b.  The source computes it through a double
      and `ceil`; for the sizes involved that is exact. */
  function CeilDiv(a: nat, b: nat): (q: nat)
    requires b > 0
    ensures q * b >= a
    ensures q == 0 || (q - 1) * b < a
  {
    if a == 0 then 0 else 1 + CeilDiv(if a <= b then 0 else a - b, b)
  }

  /** The capacity `resize` leaves behind when `additional` bytes are about
      to be added to `len` bytes held in a buffer of capacity `cap`. */
  function GrownCap(cap: nat, len: nat, additional: nat): nat
    requires cap > 0
  {
    var factor := CeilDiv(len + additional, cap);
    if factor > 1 then cap * factor else cap
  }

  /** After a resize there is room for the new bytes, the capacity never
      shrinks, and it overshoots what is needed by less than the old
      capacity (so it is never more than about double what is needed). */
  lemma GrownCapBounds(cap: nat, len: nat, additional: nat)
    requires cap > 0
    ensures GrownCap(cap, len, additional) >= len + additional
    ensures GrownCap(cap, len, additional) >= cap
    ensures GrownCap(cap, len, additional) < len + additional + cap
            || GrownCap(cap, len, additional) == cap
  {
    var q := CeilDiv(len + additional, cap);
    if q > 1 {
      assert cap * q == (q - 1) * cap + cap;
      assert (q - 1) * cap >= cap by {
        assert (q - 1) * cap == (q - 2) * cap + cap;
      }
    } else if q == 1 {
      assert q * cap == cap;
    }
  }

  /** Appending one byte doubles the capacity of a full buffer and leaves
      any other buffer's capacity alone. */
  lemma GrownCapOne(cap: nat, len: nat)
    requires 0 < cap && len <= cap
    ensures GrownCap(cap, len, 1) == if len == cap then 2 * cap else cap
  {
    if len == cap {
      assert CeilDiv(1, cap) == 1;
      assert CeilDiv(cap + 1, cap) == 2;
    } else {
      assert CeilDiv(len + 1, cap) == 1 by { assert CeilDiv(0, cap) == 0; }
    }
  }

  /** The capacities the unit tests expect: four single appends keep the
      initial capacity, six double it, and appending eight then eight more
      bytes gives 10 then 20. */
  lemma GrownCapExamples()
    ensures GrownCap(5, 3, 1) == 5
    ensures GrownCap(5, 5, 1) == 10
    ensures GrownCap(5, 0, 8) == 10
    ensures GrownCap(10, 8, 8) == 20
  {
    assert CeilDiv(4, 5) == 1;
    assert CeilDiv(6, 5) == 2 by { assert CeilDiv(1, 5) == 1; }
    assert CeilDiv(8, 5) == 2 by { assert CeilDiv(3, 5) == 1; }
    assert CeilDiv(16, 10) == 2 by { assert CeilDiv(6, 10) == 1; }
  }

  class Buffer {
    /** Storage; only the first `len` bytes are meaningful. */
    var data: array<Byte>
    /** Number of bytes stored. */
    var len: nat
    /** Capacity of `data`. */
    var cap: nat
    /** Read cursor, for processing the contents front to back. */
    var pos: nat
    /** The objects this buffer owns: itself and its storage arrays. */
    ghost var Repr: set<object>

    ghost predicate Valid()
      reads this
    {
      this in Repr && data in Repr && data.Length == cap && 0 < cap && pos <= len <= cap
    }

    /** The bytes written so far. */
    function Contents(): seq<Byte>
      reads this`data, this`len, data
      requires len <= data.Length
    {
      data[..len]
    }

    /** The bytes not yet read. */
    function Remaining(): seq<Byte>
      reads this`data, this`len, this`pos, data
      requires pos <= len <= data.Length
    {
      data[pos..len]
    }

    /** makeBuffer: empty, cursor at the start, capacity 5. */
    constructor ()
      ensures Valid() && fresh(Repr)
      ensures len == 0 && pos == 0 && cap == INITIAL_CAP
      ensures Contents() == []
    {
      data := new Byte[INITIAL_CAP];
      len, cap, pos := 0, INITIAL_CAP, 0;
      Repr := {this, data};
    }

    /** resize: multiply the capacity by ceil((len + additional) / cap) when
        that factor exceeds 1, reallocating and keeping the contents. */
    method Resize(additional: nat)
      requires Valid()
      modifies Repr
      ensures Valid() && len == old(len) && pos == old(pos)
      ensures cap == GrownCap(old(cap), old(len), additional)
      ensures cap >= len + additional
      ensures fresh(Repr - old(Repr))
      ensures Contents() == old(Contents())
    {
      GrownCapBounds(cap, len, additional);
      var factor := CeilDiv(len + additional, cap);
      if factor > 1 {
        var newCap := cap * factor;
        var d := new Byte[newCap];
        var i := 0;
        while i < cap
          invariant 0 <= i <= cap
          invariant d.Length == newCap
          invariant d[..i] == data[..i]
          modifies d
        {
          d[i] := data[i];
          i := i + 1;
        }
        data, cap := d, newCap;
        Repr := Repr + {d};
      }
    }

    /** appendByte: grow if needed, then store `val` after the last byte. */
    method AppendByte(val: Byte)
      requires Valid()
      modifies Repr
      ensures Valid() && pos == old(pos)
      ensures len == old(len) + 1
      ensures cap == if old(len) == old(cap) then 2 * old(cap) else old(cap)
      ensures fresh(Repr - old(Repr))
      ensures Contents() == old(Contents()) + [val]
    {
      GrownCapOne(cap, len);
      Resize(1);
      data[len] := val;
      len := len + 1;
    }

    /** appendBytes: grow if needed, then copy the first n bytes of `src`
        after the last byte. */
    method AppendBytes(src: seq<Byte>, n: nat)
      requires Valid() && n <= |src|
      modifies Repr
      ensures Valid() && pos == old(pos)
      ensures len == old(len) + n
      ensures cap == GrownCap(old(cap), old(len), n)
      ensures fresh(Repr - old(Repr))
      ensures Contents() == old(Contents()) + src[..n]
    {
      Resize(n);
      var clen := len;
      var i := clen;
      while i < clen + n
        invariant clen <= i <= clen + n
        invariant Valid() && len == clen && cap >= clen + n && pos == old(pos)
        invariant cap == GrownCap(old(cap), old(len), n)
        invariant fresh(Repr - old(Repr))
        invariant data[..clen] == old(Contents())
        invariant data[clen..i] == src[..i - clen]
      {
        data[i] := src[i - clen];
        i := i + 1;
      }
      assert data[..clen + n] == data[..clen] + data[clen..clen + n];
      len := len + n;
    }

    /** extractByte: fails, cursor unchanged, once every byte has been read
        (in particular on an empty buffer); otherwise yields the byte under
        the cursor and advances it. */
    method ExtractByte() returns (ok: bool, val: Byte)
      requires Valid()
      modifies this`pos
      ensures Valid()
      ensures ok <==> old(pos) < len
      ensures ok ==> val == Contents()[old(pos)] && pos == old(pos) + 1
      ensures !ok ==> pos == old(pos)
    {
      if len == 0 || len == pos {
        return false, 0;
      }
      val := data[pos];
      pos := pos + 1;
      ok := true;
    }

    /** extractBytes: fails, cursor and destination unchanged, on an empty
        buffer or when fewer than n bytes remain; otherwise copies the n
        bytes under the cursor into dest[..n] and advances the cursor. */
    method ExtractBytes(dest: array<Byte>, n: nat) returns (ok: bool)
      requires Valid() && n <= dest.Length && dest != data
      modifies this`pos, dest
      ensures Valid()
      ensures ok <==> len != 0 && old(pos) + n <= len
      ensures ok ==> pos == old(pos) + n && dest[..n] == data[old(pos)..old(pos) + n]
      ensures !ok ==> pos == old(pos) && dest[..n] == old(dest[..n])
      ensures dest[n..] == old(dest[n..])
    {
      if len == 0 || pos + n > len {
        return false;
      }
      var start := pos;
      var i := start;
      while i < start + n
        invariant start <= i <= start + n
        invariant pos == start
        invariant dest[..i - start] == data[start..i]
        invariant dest[n..] == old(dest[n..])
      {
        dest[i - start] := data[i];
        i := i + 1;
      }
      pos := start + n;
      ok := true;
    }
  }

  /** The extractByte test of the unit tests: four bytes come back in the
      order they were appended, then the read fails. */
  method ReadBackScenario()
  {
    var b := new Buffer();
    b.AppendBytes([0xDB, 0x43, 0x83, 0x8F], 4);
    var ok, v := b.ExtractByte();
    assert ok && v == 0xDB;
    ok, v := b.ExtractByte();
    assert ok && v == 0x43;
    ok, v := b.ExtractByte();
    assert ok && v == 0x83;
    ok, v := b.ExtractByte();
    assert ok && v == 0x8F;
    assert b.pos == 4;
    ok, v := b.ExtractByte();
    assert !ok;
  }
}
