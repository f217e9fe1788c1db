// compressData and uncompressData: a whole buffer as a run of blocks of at
// most 16384 bytes, each compressed and serialized in turn.

module DataCodec {
  import opened ByteBuffer
  import opened Wrappers
  import opened Bpe
  import opened BlockWire
  import opened BlockCodec

  /** Limit on the number of different byte values compressData tracks for
      the block being filled. */
  const BYTE_LIMIT: nat := 224

  /** The wire form of one block of raw bytes: compress it, then serialize
      the result. */
  function EncodeBlock(x: seq<Byte>): (r: seq<Byte>)
    requires |x| <= BLOCK_SIZE_LIMIT
    ensures x == [] <==> r == []
  {
    CompressFromCapacity(x, {}, 0);
    SerializeBlock(CompressBlockSpec(x).data, CompressBlockSpec(x).rules)
  }

  /** compressData on the bytes x: blocks of 16384 bytes from the front,
      the last one holding what is left (nothing at all for no input). */
  function CompressDataSpec(x: seq<Byte>): seq<Byte>
    decreases |x|
  {
    if |x| <= BLOCK_SIZE_LIMIT then EncodeBlock(x)
    else EncodeBlock(x[..BLOCK_SIZE_LIMIT]) + CompressDataSpec(x[BLOCK_SIZE_LIMIT..])
  }

  /** The output for a whole number of full blocks. */
  function Emitted(y: seq<Byte>): seq<Byte>
    requires |y| % BLOCK_SIZE_LIMIT == 0
    decreases |y|
  {
    if y == [] then []
    else EncodeBlock(y[..BLOCK_SIZE_LIMIT]) + Emitted(y[BLOCK_SIZE_LIMIT..])
  }

  /** uncompressData on the input x: while two or more bytes remain, read a
      block, uncompress it and append its bytes; a single trailing byte is
      left unread.  None when a block cannot be read or uncompressed. */
  function UncompressDataSpec(x: seq<Byte>): Option<seq<Byte>>
    decreases |x|
  {
    if |x| < 2 then Some([])
    else match ParseBlock(x)
      case None => None
      case Some(p) =>
        match Uncompress(p.data, p.rules)
        case None => None
        case Some(t) => Prepend(t, UncompressDataSpec(x[p.consumed..]))
  }

  // ---------------------------------------------------------------------
  // Properties of the specification

  /** The blocks compressData forms as written, given the block being
      filled z, the bytes still to read and whether the last byte closed a
      block.  A block closes only once it holds 16385 bytes (the last one
      stored one past the end of the block's array), and the next block
      starts again with that same byte, which is then dropped if the input
      ends there. */
  function BlocksAsWritten(z: seq<Byte>, rest: seq<Byte>, justSerialized: bool): seq<seq<Byte>>
    decreases |rest|
  {
    if rest == [] then (if justSerialized then [] else [z])
    else
      var z' := z + [rest[0]];
      if |z'| > BLOCK_SIZE_LIMIT then [z'] + BlocksAsWritten([rest[0]], rest[1..], true)
      else BlocksAsWritten(z', rest[1..], false)
  }

  /** Bytes that fill the block being formed to 16385 make one block. */
  lemma {:induction false} FillsOneBlock(z: seq<Byte>, rest: seq<Byte>, justSerialized: bool)
    requires rest != [] && |z| + |rest| == BLOCK_SIZE_LIMIT + 1
    ensures BlocksAsWritten(z, rest, justSerialized) == [z + rest]
    decreases |rest|
  {
    var z' := z + [rest[0]];
    assert z + rest == z' + rest[1..];
    if |z'| <= BLOCK_SIZE_LIMIT {
      FillsOneBlock(z', rest[1..], false);
    } else {
      assert rest[1..] == [] && z + rest == z';
      assert BlocksAsWritten([rest[0]], rest[1..], true) == [];
    }
  }

  /** 16385 bytes: compressData as written forms a single block one byte
      over the limit, where the intended split is a full block and a
      one-byte block. */
  lemma OverlongBlock(x: seq<Byte>)
    requires |x| == BLOCK_SIZE_LIMIT + 1
    ensures BlocksAsWritten([], x, false) == [x] && |x| > BLOCK_SIZE_LIMIT
    ensures CompressDataSpec(x) == EncodeBlock(x[..BLOCK_SIZE_LIMIT]) + EncodeBlock(x[BLOCK_SIZE_LIMIT..])
  {
    FillsOneBlock([], x, false);
    assert [] + x == x;
  }

  /** A non-empty whole number of blocks starts with a full block. */
  lemma FullBlocks(y: seq<Byte>)
    requires |y| % BLOCK_SIZE_LIMIT == 0 && y != []
    ensures |y| >= BLOCK_SIZE_LIMIT && |y[BLOCK_SIZE_LIMIT..]| % BLOCK_SIZE_LIMIT == 0
  {
  }

  /** Full blocks then the block being filled: the output is compressData's. */
  lemma {:induction false} EmittedThen(y: seq<Byte>, z: seq<Byte>)
    requires |y| % BLOCK_SIZE_LIMIT == 0 && |z| <= BLOCK_SIZE_LIMIT
    ensures Emitted(y) + EncodeBlock(z) == CompressDataSpec(y + z)
    decreases |y|
  {
    if y == [] {
      assert y + z == z;
    } else {
      FullBlocks(y);
      var h, y' := y[..BLOCK_SIZE_LIMIT], y[BLOCK_SIZE_LIMIT..];
      assert Emitted(y) == EncodeBlock(h) + Emitted(y');
      EmittedThen(y', z);
      SplitConcat(y, z, BLOCK_SIZE_LIMIT);
      if |y + z| <= BLOCK_SIZE_LIMIT {
        assert y' == [] && z == [] && h == y + z;
        assert Emitted(y) + EncodeBlock(z) == EncodeBlock(h);
      } else {
        assert CompressDataSpec(y + z) == EncodeBlock(h) + CompressDataSpec(y' + z);
        BytesAssoc(EncodeBlock(h), Emitted(y'), EncodeBlock(z));
      }
    }
  }

  /** Closing a full block extends the full-block output by its wire form. */
  lemma {:induction false} EmittedSnoc(y: seq<Byte>, z: seq<Byte>)
    requires |y| % BLOCK_SIZE_LIMIT == 0 && |z| == BLOCK_SIZE_LIMIT
    ensures Emitted(y) + EncodeBlock(z) == Emitted(y + z)
    decreases |y|
  {
    if y == [] {
      assert y + z == z;
      SplitConcat(z, [], BLOCK_SIZE_LIMIT);
      assert Emitted(z) == EncodeBlock(z) + Emitted([]);
    } else {
      FullBlocks(y);
      var h, y' := y[..BLOCK_SIZE_LIMIT], y[BLOCK_SIZE_LIMIT..];
      assert Emitted(y) == EncodeBlock(h) + Emitted(y');
      EmittedSnoc(y', z);
      SplitConcat(y, z, BLOCK_SIZE_LIMIT);
      AddBlock(|y'|);
      AddBlock(|y|);
      assert Emitted(y + z) == EncodeBlock(h) + Emitted(y' + z);
      BytesAssoc(EncodeBlock(h), Emitted(y'), EncodeBlock(z));
    }
  }

  /** One more full block keeps a whole number of blocks. */
  lemma AddBlock(n: nat)
    requires n % BLOCK_SIZE_LIMIT == 0
    ensures (n + BLOCK_SIZE_LIMIT) % BLOCK_SIZE_LIMIT == 0
  {
  }

  /** Adjacent slices join. */
  lemma SliceJoin(c: seq<Byte>, i: nat, j: nat, k: nat)
    requires i <= j <= k <= |c|
    ensures c[i..j] + c[j..k] == c[i..k]
  {
  }

  /** A slice grows by the next element. */
  lemma SliceSnoc(c: seq<Byte>, i: nat, j: nat)
    requires i <= j < |c|
    ensures c[i..j + 1] == c[i..j] + [c[j]]
  {
  }

  /** Splitting a concatenation inside its first part. */
  lemma SplitConcat(y: seq<Byte>, z: seq<Byte>, k: nat)
    requires k <= |y|
    ensures (y + z)[..k] == y[..k] && (y + z)[k..] == y[k..] + z
  {
  }

  /** A compressed block is read back, uncompressed to its original bytes,
      and the rest of the input follows. */
  lemma EncodeBlockThen(x: seq<Byte>, tail: seq<Byte>)
    requires 1 <= |x| <= BLOCK_SIZE_LIMIT
    ensures UncompressDataSpec(EncodeBlock(x) + tail) == Prepend(x, UncompressDataSpec(tail))
  {
    var c := CompressBlockSpec(x);
    BlockRoundTrip(x);
    var e := EncodeBlock(x);
    assert e == SerializeBlock(c.data, c.rules);
    ParseSerialize(c.data, c.rules, tail);
    assert (e + tail)[|e|..] == tail;
  }

  /** The data round trip: uncompressData(compressData(x)) == x for every
      input. */
  lemma {:induction false} DataRoundTrip(x: seq<Byte>)
    ensures UncompressDataSpec(CompressDataSpec(x)) == Some(x)
    decreases |x|
  {
    if x == [] {
    } else if |x| <= BLOCK_SIZE_LIMIT {
      EncodeBlockThen(x, []);
      assert EncodeBlock(x) + [] == EncodeBlock(x) && x + [] == x;
    } else {
      var h, t := x[..BLOCK_SIZE_LIMIT], x[BLOCK_SIZE_LIMIT..];
      DataRoundTrip(t);
      EncodeBlockThen(h, CompressDataSpec(t));
      assert h + t == x;
    }
  }

  /** Prepending twice prepends the concatenation. */
  lemma PrependTwice(a: seq<Byte>, b: seq<Byte>, r: Option<seq<Byte>>)
    ensures Prepend(a, Prepend(b, r)) == Prepend(a + b, r)
  {
    if r.Some? {
      BytesAssoc(a, b, r.value);
    }
  }

  /** The concatenation of a list of byte strings. */
  function Flat(ss: seq<seq<Byte>>): (r: seq<Byte>)
    ensures ss == [] ==> r == []
  {
    if ss == [] then [] else Flat(ss[..|ss| - 1]) + ss[|ss| - 1]
  }

  lemma FlatSnoc(ss: seq<seq<Byte>>, s: seq<Byte>)
    ensures Flat(ss + [s]) == Flat(ss) + s
  {
    assert (ss + [s])[..|ss|] == ss;
  }

  /** Block i of ins is full and block i of outs is its wire form. */
  ghost predicate Closed(ins: seq<seq<Byte>>, outs: seq<seq<Byte>>, i: nat)
    requires i < |ins| == |outs|
  {
    |ins[i]| == BLOCK_SIZE_LIMIT && outs[i] == EncodeBlock(ins[i])
  }

  /** Every block of ins is full and outs holds the wire form of each. */
  ghost predicate Encodes(ins: seq<seq<Byte>>, outs: seq<seq<Byte>>)
  {
    |ins| == |outs| && forall i: nat :: i < |ins| ==> Closed(ins, outs, i)
  }

  lemma EncodesSnoc(ins: seq<seq<Byte>>, outs: seq<seq<Byte>>, x: seq<Byte>, y: seq<Byte>)
    requires Encodes(ins, outs) && |x| == BLOCK_SIZE_LIMIT && y == EncodeBlock(x)
    ensures Encodes(ins + [x], outs + [y])
  {
    var ins', outs' := ins + [x], outs + [y];
    forall i: nat | i < |ins'| ensures Closed(ins', outs', i) {
      if i < |ins| {
        assert Closed(ins, outs, i);
      }
    }
  }

  /** The wire forms of the closed blocks are the full-block output of
      their bytes. */
  lemma {:induction false} EncodesEmitted(ins: seq<seq<Byte>>, outs: seq<seq<Byte>>)
    requires Encodes(ins, outs)
    ensures |Flat(ins)| % BLOCK_SIZE_LIMIT == 0 && Flat(outs) == Emitted(Flat(ins))
    decreases |ins|
  {
    if ins != [] {
      var n := |ins| - 1;
      var ins0, outs0 := ins[..n], outs[..n];
      forall i: nat | i < n ensures Closed(ins0, outs0, i) {
        assert Closed(ins, outs, i);
      }
      EncodesEmitted(ins0, outs0);
      assert Closed(ins, outs, n);
      EmittedSnoc(Flat(ins0), ins[n]);
      AddBlock(|Flat(ins0)|);
    }
  }

  // ---------------------------------------------------------------------
  // The imperative operations

  /** The membership scan of compressData: whether b is among the first
      `size` tracked values. */
  method ContainsByte(bytes: array<Byte>, size: nat, b: Byte) returns (check: bool)
    requires size <= bytes.Length
    ensures check <==> b in bytes[..size]
  {
    check := false;
    for i := 0 to size
      invariant check <==> b in bytes[..i]
    {
      assert bytes[..i + 1] == bytes[..i] + [bytes[i]];
      if bytes[i] == b {
        check := true;
      }
    }
  }

  /** compressBlock then serializeBlock on a block with no rules yet. */
  method EmitBlock(block: Block, buf: ByteBuffer.Buffer)
    requires block.Valid() && block.rules == [] && buf.Valid()
    requires block !in buf.Repr && block.data !in buf.Repr
    modifies block, block.data, buf.Repr
    ensures block.Valid() && block.data == old(block.data)
    ensures buf.Valid() && buf.pos == old(buf.pos)
    ensures fresh(buf.Repr - old(buf.Repr))
    ensures buf.Contents() == old(buf.Contents()) + EncodeBlock(old(block.Contents()))
  {
    ghost var x := block.Contents();
    block.CompressBlock();
    assert [] + CompressFrom(x, {}, 0).rules == CompressFrom(x, {}, 0).rules;
    block.Serialize(buf);
  }

  /** compressData: read src from its cursor to the end, closing a block
      (compress, then serialize) each time it reaches 16384 bytes, and the
      last, partly filled block at the end. */
  method CompressData(src: ByteBuffer.Buffer) returns (buf: ByteBuffer.Buffer)
    requires src.Valid()
    modifies src`pos
    ensures src.Valid() && src.pos == src.len
    ensures buf.Valid() && fresh(buf.Repr)
    ensures buf.Contents() == CompressDataSpec(old(src.Remaining()))
  {
    var block := new Block();
    buf := new ByteBuffer.Buffer();
    var bytes := new Byte[BYTE_LIMIT];
    ghost var rest := src.Remaining();
    var justSerialized;
    ghost var ins, outs;
    justSerialized, ins, outs := Fill(src, block, buf, bytes);
    assert fresh(buf.Repr);
    EmitLast(block, buf, justSerialized, ins, outs, rest);
  }

  /** The loop of compressData: every byte of src goes into the block, full
      blocks are closed onto buf.  On return, ins holds the closed blocks,
      outs their wire forms, and the block the bytes read since. */
  method Fill(src: ByteBuffer.Buffer, block: Block, buf: ByteBuffer.Buffer, bytes: array<Byte>)
      returns (justSerialized: bool, ghost ins: seq<seq<Byte>>, ghost outs: seq<seq<Byte>>)
    requires src.Valid() && block.Valid() && block.rules == [] && block.len == 0
    requires buf.Valid() && buf.Contents() == [] && bytes.Length == BYTE_LIMIT
    requires block !in buf.Repr && block.data !in buf.Repr && bytes !in buf.Repr && bytes != block.data
    requires src !in buf.Repr && src.data !in buf.Repr && src.data != block.data && src.data != bytes
    modifies src`pos, block, block.data, bytes, buf.Repr
    ensures src.Valid() && src.pos == src.len
    ensures block.Valid() && block.rules == [] && (justSerialized ==> block.len == 0) && block.data == old(block.data)
    ensures old(src.Remaining()) == Flat(ins) + block.Contents()
    ensures buf.Valid() && buf.Contents() == Flat(outs) && Encodes(ins, outs)
    ensures block !in buf.Repr && block.data !in buf.Repr && fresh(buf.Repr - old(buf.Repr))
  {
    var bytesSize: nat := 0;
    justSerialized := false;
    ghost var c, base := src.Contents(), src.pos;
    ghost var z: seq<Byte> := [];
    ins, outs := [], [];
    while true
      invariant src.Valid() && src.Contents() == c && |c| == src.len && base <= src.pos <= src.len
      invariant block.Valid() && block.rules == [] && block.len < BLOCK_SIZE_LIMIT && block.Contents() == z
      invariant block.data == old(block.data)
      invariant c[base..src.pos] == Flat(ins) + z
      invariant justSerialized ==> z == []
      invariant buf.Valid() && buf.Contents() == Flat(outs) && Encodes(ins, outs)
      invariant bytesSize <= BYTE_LIMIT
      invariant block !in buf.Repr && block.data !in buf.Repr && bytes !in buf.Repr
      invariant src !in buf.Repr && src.data !in buf.Repr && fresh(buf.Repr - old(buf.Repr))
      decreases src.len - src.pos
    {
      var more, b := src.ExtractByte();
      if !more {
        break;
      }
      SliceSnoc(c, base, src.pos - 1);
      assert allocated(bytes);  // so that bytes is not among the buffer's new objects
      bytesSize, justSerialized, ins, outs, z := AddByte(block, buf, bytes, bytesSize, b, ins, outs, z, c[base..src.pos]);
    }
    assert c[base..] == c[base..src.pos];
  }

  /** compressData's record of the distinct values of the block: b is
      added unless it is already there or the record is full. */
  method Track(bytes: array<Byte>, size: nat, b: Byte) returns (size': nat)
    requires size <= BYTE_LIMIT == bytes.Length
    modifies bytes
    ensures size' <= BYTE_LIMIT
    ensures bytes[..size'] == if b in old(bytes[..size]) || size == BYTE_LIMIT then old(bytes[..size])
                              else old(bytes[..size]) + [b]
  {
    var check := ContainsByte(bytes, size, b);
    size' := size;
    if !check && size' != BYTE_LIMIT {
      bytes[size'] := b;
      size' := size' + 1;
      assert bytes[..size'] == old(bytes[..size]) + [b];
    }
  }

  /** One pass of compressData's loop: put b in the block, track it among
      the distinct values, and close the block (compress, serialize, empty
      it) once it holds 16384 bytes.  The ghost parameters are the closed
      blocks, their wire forms and the block's bytes, before and after. */
  method AddByte(block: Block, buf: ByteBuffer.Buffer, bytes: array<Byte>, bytesSize: nat, b: Byte,
                 ghost ins: seq<seq<Byte>>, ghost outs: seq<seq<Byte>>, ghost z: seq<Byte>, ghost read: seq<Byte>)
      returns (size: nat, flushed: bool, ghost ins': seq<seq<Byte>>, ghost outs': seq<seq<Byte>>, ghost z': seq<Byte>)
    requires block.Valid() && block.rules == [] && block.len < BLOCK_SIZE_LIMIT
    requires block.Contents() == z && read == Flat(ins) + z + [b]
    requires buf.Valid() && buf.Contents() == Flat(outs) && Encodes(ins, outs)
    requires bytesSize <= BYTE_LIMIT && bytes.Length == BYTE_LIMIT
    requires block !in buf.Repr && block.data !in buf.Repr && bytes !in buf.Repr && bytes != block.data
    modifies block, block.data, bytes, buf.Repr
    ensures block.Valid() && block.rules == [] && block.len < BLOCK_SIZE_LIMIT && block.data == old(block.data)
    ensures read == Flat(ins') + z' && block.Contents() == z'
    ensures flushed ==> z' == []
    ensures buf.Valid() && buf.Contents() == Flat(outs') && Encodes(ins', outs') && fresh(buf.Repr - old(buf.Repr))
    ensures size <= BYTE_LIMIT
  {
    block.data[block.len] := b;
    block.len := block.len + 1;
    ghost var full := block.Contents();
    assert full == z + [b];
    size := Track(bytes, bytesSize, b);
    flushed := false;
    ins', outs', z' := ins, outs, full;
    assert read == Flat(ins) + full;
    FlatSnoc(ins, full);
    if block.len == BLOCK_SIZE_LIMIT || size > BYTE_LIMIT {
      outs' := Flush(block, buf, ins, outs);
      flushed := true;
      size := 0;
      ins', z' := ins + [full], [];
    }
  }

  /** Close the full block: compress and serialize it to buf, then empty
      it.  The closed block and its wire form join ins and outs. */
  method Flush(block: Block, buf: ByteBuffer.Buffer, ghost ins: seq<seq<Byte>>, ghost outs: seq<seq<Byte>>)
      returns (ghost outs': seq<seq<Byte>>)
    requires block.Valid() && block.rules == [] && block.len == BLOCK_SIZE_LIMIT
    requires buf.Valid() && buf.Contents() == Flat(outs) && Encodes(ins, outs)
    requires block !in buf.Repr && block.data !in buf.Repr
    modifies block, block.data, buf.Repr
    ensures block.Valid() && block.rules == [] && block.len == 0 && block.data == old(block.data)
    ensures buf.Valid() && fresh(buf.Repr - old(buf.Repr))
    ensures buf.Contents() == Flat(outs') && Encodes(ins + [old(block.Contents())], outs')
  {
    ghost var full := block.Contents();
    EmitBlock(block, buf);
    outs' := outs + [EncodeBlock(full)];
    EncodesSnoc(ins, outs, full, EncodeBlock(full));
    FlatSnoc(outs, EncodeBlock(full));
    block.len := 0;
    block.rules := [];
  }

  /** The end of compressData: close the last block unless the loop has
      just closed one. */
  method EmitLast(block: Block, buf: ByteBuffer.Buffer, justSerialized: bool,
                  ghost ins: seq<seq<Byte>>, ghost outs: seq<seq<Byte>>, ghost rest: seq<Byte>)
    requires block.Valid() && block.rules == [] && (justSerialized ==> block.len == 0)
    requires rest == Flat(ins) + block.Contents()
    requires buf.Valid() && buf.Contents() == Flat(outs) && Encodes(ins, outs)
    requires block !in buf.Repr && block.data !in buf.Repr
    modifies block, block.data, buf.Repr
    ensures buf.Valid() && fresh(buf.Repr - old(buf.Repr))
    ensures buf.Contents() == CompressDataSpec(rest)
  {
    ghost var z := block.Contents();
    EncodesEmitted(ins, outs);
    if !justSerialized {
      EmitBlock(block, buf);
    } else {
      assert EncodeBlock(z) == [];
    }
    EmittedThen(Flat(ins), z);
  }

  /** uncompressData: read and uncompress blocks while two or more bytes
      remain, appending each block's bytes; null when a block cannot be read
      or uncompressed. */
  method UncompressData(src: ByteBuffer.Buffer) returns (res: ByteBuffer.Buffer?)
    requires src.Valid()
    modifies src`pos
    ensures src.Valid()
    ensures res == null <==> UncompressDataSpec(old(src.Remaining())).None?
    ensures res != null ==> res.Valid() && fresh(res.Repr)
    ensures res != null ==> res.Contents() == UncompressDataSpec(old(src.Remaining())).value
  {
    var buf := new ByteBuffer.Buffer();
    var block := new Block();
    ghost var c, base := src.Contents(), src.pos;
    ghost var goal := UncompressDataSpec(c[base..]);
    assert src.Remaining() == c[base..];
    PrependEmpty(goal);
    while src.pos < src.len - 1
      invariant src.Valid() && src.Contents() == c && base <= src.pos <= src.len
      invariant block.Valid() && fresh(block) && fresh(block.data) && fresh(buf.Repr)
      invariant block !in buf.Repr && block.data !in buf.Repr && buf.Valid()
      invariant src !in buf.Repr && src.data !in buf.Repr
      invariant Prepend(buf.Contents(), UncompressDataSpec(c[src.pos..])) == goal
      decreases src.len - src.pos
    {
      var ok := UncompressStep(src, block, buf, c, goal);
      assert fresh(buf.Repr);
      if !ok {
        return null;
      }
    }
    UncompressDone(c, src.pos, buf.Contents(), goal);
    return buf;
  }

  /** One pass of uncompressData's loop: read a block from src, uncompress
      it and append its bytes to buf.  When either step fails, the whole
      input has no uncompressed form. */
  method UncompressStep(src: ByteBuffer.Buffer, block: Block, buf: ByteBuffer.Buffer,
                        ghost c: seq<Byte>, ghost goal: Option<seq<Byte>>) returns (ok: bool)
    requires src.Valid() && src.Contents() == c && src.pos + 1 < src.len
    requires block.Valid() && buf.Valid() && src.data != block.data
    requires block !in buf.Repr && block.data !in buf.Repr && src !in buf.Repr && src.data !in buf.Repr
    requires Prepend(buf.Contents(), UncompressDataSpec(c[src.pos..])) == goal
    modifies src`pos, block, block.data, buf.Repr
    ensures src.Valid() && src.Contents() == c && src.pos <= src.len
    ensures block.Valid() && block.data == old(block.data) && buf.Valid() && fresh(buf.Repr - old(buf.Repr))
    ensures ok ==> old(src.pos) < src.pos && Prepend(buf.Contents(), UncompressDataSpec(c[src.pos..])) == goal
    ensures !ok ==> goal == None
  {
    ghost var pos0 := src.pos;
    ghost var out := buf.Contents();
    assert src.Remaining() == c[pos0..];
    ok := block.Deserialize(src);
    if !ok {
      ParseFails(c[pos0..], out, goal);
      return;
    }
    ghost var p := ParseBlock(c[pos0..]).value;
    ok := block.UncompressBlock();
    if !ok {
      UncompressFails(c[pos0..], p, out, goal);
      return;
    }
    ghost var t := block.Contents();
    assert block.data[..block.len][..block.len] == t;
    buf.AppendBytes(block.data[..block.len], block.len);
    BlockRead(c, pos0, src.pos, p, t, out, goal);
  }

  /** A block read and uncompressed: its bytes move from the pending part
      of the output to the part already produced. */
  lemma BlockRead(c: seq<Byte>, pos0: nat, pos1: nat, p: Parsed, t: seq<Byte>, out: seq<Byte>, goal: Option<seq<Byte>>)
    requires pos0 + 2 <= |c| && ParseBlock(c[pos0..]) == Some(p) && Uncompress(p.data, p.rules) == Some(t)
    requires pos1 == pos0 + p.consumed <= |c|
    requires Prepend(out, UncompressDataSpec(c[pos0..])) == goal
    ensures Prepend(out + t, UncompressDataSpec(c[pos1..])) == goal
  {
    assert c[pos0..][p.consumed..] == c[pos1..];
    PrependTwice(out, t, UncompressDataSpec(c[pos1..]));
  }

  /** A block that cannot be read makes the whole input fail. */
  lemma ParseFails(x: seq<Byte>, out: seq<Byte>, goal: Option<seq<Byte>>)
    requires |x| >= 2 && ParseBlock(x).None?
    requires Prepend(out, UncompressDataSpec(x)) == goal
    ensures goal == None
  {
  }

  /** A block that cannot be uncompressed makes the whole input fail. */
  lemma UncompressFails(x: seq<Byte>, p: Parsed, out: seq<Byte>, goal: Option<seq<Byte>>)
    requires |x| >= 2 && ParseBlock(x) == Some(p) && Uncompress(p.data, p.rules).None?
    requires Prepend(out, UncompressDataSpec(x)) == goal
    ensures goal == None
  {
  }

  /** Fewer than two bytes left: nothing more is produced. */
  lemma UncompressDone(c: seq<Byte>, pos: nat, out: seq<Byte>, goal: Option<seq<Byte>>)
    requires pos <= |c| && (pos + 1 >= |c|)
    requires Prepend(out, UncompressDataSpec(c[pos..])) == goal
    ensures goal == Some(out)
  {
    assert UncompressDataSpec(c[pos..]) == Some([]);
    assert out + [] == out;
  }
}
