/** The AES-128 block layer of FIPS-197: the state layout of section 3.4,
    ShiftRows, MixColumns and AddRoundKey of section 5.1, the key expansion
    of section 5.2 and the inverse cipher of section 5.3.

    The C code passes `byte[4][4]` squares and `byte[11][16]` subkey tables
    and hands rows of them to helpers that take a plain `byte *`.  Here every
    buffer is one flat array; a row is an offset into it (`square[r][c]` is
    `square[4 * r + c]`, `subkey[i]` starts at `16 * i`).

    The S-box, its inverse, the g function of the key schedule and the two
    mix matrices live in a utility component that is not part of this model;
    they are parameters, and the round trip is proved under the assumption
    that the inverse S-box and the inverse matrix undo their partners. */
module Aes {
  import opened GaloisField

  const BLOCK_SIZE: nat := 16
  const BLOCK_ROWS: nat := 4
  const BLOCK_COLS: nat := 4
  const WORD_SIZE: nat := 4
  const ROUNDS: nat := 10

  const LEFT := true
  const RIGHT := false

  type Word = w: seq<Byte> | |w| == 4 witness [0, 0, 0, 0]
  type Block = b: seq<Byte> | |b| == 16 witness [0, 0, 0, 0, 0, 0, 0, 0, 0, 0, 0, 0, 0, 0, 0, 0]
  /** The eleven round keys, one after another. */
  type KeySchedule = s: seq<Byte> | |s| == (ROUNDS + 1) * BLOCK_SIZE witness seq((ROUNDS + 1) * BLOCK_SIZE, _ => 0)
  /** A 4x4 matrix of field elements, row-major. */
  type Matrix = m: seq<Byte> | |m| == 16 witness [0, 0, 0, 0, 0, 0, 0, 0, 0, 0, 0, 0, 0, 0, 0, 0]

  // ---------------------------------------------------------------------
  // Specification functions

  /** Byte-by-byte combination of d with s, d on the left of op. */
  function Combine(d: seq<Byte>, s: seq<Byte>, op: (Byte, Byte) -> Byte): (r: seq<Byte>)
    requires |s| == |d|
    ensures |r| == |d|
  {
    seq(|d|, i requires 0 <= i < |d| => op(d[i], s[i]))
  }

  /** AddRoundKey: the block XOR the round key. */
  function AddKey(d: Block, k: Block): Block
  {
    Combine(d, k, FieldAdd)
  }

  /** SubBytes (or InvSubBytes) with the given substitution box. */
  function SubBytes(d: Block, box: Byte -> Byte): Block
  {
    seq(16, i requires 0 <= i < 16 => box(d[i]))
  }

  /** Rotation of a word by one byte, as shiftBits does it. */
  function RotL(w: Word): Word
  {
    w[1..] + [w[0]]
  }

  function RotR(w: Word): Word
  {
    [w[3]] + w[..3]
  }

  /** n rotations to the left, the last one applied outermost. */
  function RotLeftBy(w: Word, n: nat): Word
    decreases n
  {
    if n == 0 then w else RotL(RotLeftBy(w, n - 1))
  }

  /** n rotations to the right, the first one applied innermost. */
  function RotRightBy(w: Word, n: nat): Word
    decreases n
  {
    if n == 0 then w else RotRightBy(RotR(w), n - 1)
  }

  /** Every fourth byte, starting at j: column j of a row-major square, or
      row j of a block laid out column by column. */
  function Stride(s: Block, j: nat): Word
    requires j < 4
  {
    [s[j], s[4 + j], s[8 + j], s[12 + j]]
  }

  /** The change of layout between the block (column by column, section 3.4
      of FIPS-197) and the row-major square.  Used in both directions, since
      transposing is its own inverse. */
  function Transpose(d: Block): Block
  {
    seq(16, k requires 0 <= k < 16 => d[4 * (k % 4) + k / 4])
  }

  /** ShiftRows on a row-major square: row r rotated left r times. */
  function ShiftRowsSpec(s: Block): Block
  {
    seq(16, k requires 0 <= k < 16 => s[4 * (k / 4) + (k % 4 + k / 4) % 4])
  }

  /** InvShiftRows: row r rotated right r times. */
  function UnShiftRowsSpec(s: Block): Block
  {
    seq(16, k requires 0 <= k < 16 => s[4 * (k / 4) + (k % 4 + 3 * (k / 4)) % 4])
  }

  /** Row r of a row-major square. */
  function Row(s: Block, r: nat): Word
    requires r < 4
  {
    s[4 * r..4 * r + 4]
  }

  /** The first n terms of row r of m times v, summed in the order the C
      loop adds them. */
  function Dot(m: Matrix, r: nat, v: Word, n: nat): Byte
    requires r < 4 && n <= 4
  {
    if n == 0 then 0 else FieldAdd(FieldMulSpec(m[4 * r + n - 1], v[n - 1]), Dot(m, r, v, n - 1))
  }

  /** The matrix-vector product over GF(2^8). */
  function MatVec(m: Matrix, v: Word): Word
  {
    seq(4, r requires 0 <= r < 4 => Dot(m, r, v, 4))
  }

  /** MixColumns with matrix m: every column replaced by m times it. */
  function MixSpec(m: Matrix, s: Block): Block
  {
    seq(16, k requires 0 <= k < 16 => MatVec(m, Stride(s, k % 4))[k / 4])
  }

  /** The step of the key schedule that derives round key i from round
      key i - 1. */
  function NextSubkey(prev: Block, i: nat, g: (Word, nat) -> Word): Block
  {
    var w1 := Combine(prev[0..4], g(prev[12..16], i), FieldAdd);
    var w2 := Combine(prev[4..8], w1, FieldAdd);
    var w3 := Combine(prev[8..12], w2, FieldAdd);
    var w4 := Combine(prev[12..16], w3, FieldAdd);
    w1 + w2 + w3 + w4
  }

  /** Round key i; round key 0 is the cipher key. */
  function Subkey(key: Block, g: (Word, nat) -> Word, i: nat): Block
  {
    if i == 0 then key else NextSubkey(Subkey(key, g, i - 1), i, g)
  }

  /** The first n round keys, one after another. */
  function Schedule(key: Block, g: (Word, nat) -> Word, n: nat): (r: seq<Byte>)
    ensures |r| == 16 * n
  {
    Blocks(i => Subkey(key, g, i), n)
  }

  /** Blocks f(0), ..., f(n - 1), one after another. */
  function Blocks(f: nat -> Block, n: nat): (r: seq<Byte>)
    ensures |r| == 16 * n
  {
    if n == 0 then [] else Blocks(f, n - 1) + f(n - 1)
  }

  /** Word w[4i + j] of the expanded key as section 5.2 of FIPS-197 defines
      it, one word at a time: w[k] = w[k-4] XOR temp, temp being g(w[k-1])
      at the start of a round key (j = 0) and w[k-1] otherwise. */
  function KeyWord(key: Block, g: (Word, nat) -> Word, i: nat, j: nat): Word
    requires j < 4
    decreases i, j
  {
    if i == 0 then key[4 * j..4 * j + 4]
    else if j == 0 then Combine(KeyWord(key, g, i - 1, 0), g(KeyWord(key, g, i - 1, 3), i), FieldAdd)
    else Combine(KeyWord(key, g, i - 1, j), KeyWord(key, g, i, j - 1), FieldAdd)
  }

  /** Round i of the cipher up to its AddRoundKey: SubBytes, ShiftRows and,
      except in the last round, MixColumns. */
  function RoundBody(d: Block, i: nat, box: Byte -> Byte, forward: Matrix): Block
  {
    var square := ShiftRowsSpec(Transpose(SubBytes(d, box)));
    var mixed := if i != ROUNDS then MixSpec(forward, square) else square;
    Transpose(mixed)
  }

  /** Round i of the cipher (1 <= i <= 10); the last one has no MixColumns. */
  function EncryptRound(d: Block, i: nat, k: Block, box: Byte -> Byte, forward: Matrix): Block
  {
    AddKey(RoundBody(d, i, box, forward), k)
  }

  /** Rounds 1 to n, each given the block and its number. */
  function Rounds(d: Block, round: (Block, nat) -> Block, n: nat): Block
    decreases n
  {
    if n == 0 then d else round(Rounds(d, round, n - 1), n)
  }

  /** Rounds top down to n + 1, each given the block and its number. */
  function RoundsDown(d: Block, round: (Block, nat) -> Block, top: nat, n: nat): Block
    requires n <= top
    decreases top - n
  {
    if n == top then d else round(RoundsDown(d, round, top, n + 1), n + 1)
  }

  /** Round key i of a schedule: bytes 16i to 16i + 15. */
  function RoundKey(sched: KeySchedule, i: nat): Block
    requires i <= ROUNDS
  {
    sched[16 * i..16 * i + 16]
  }

  /** Round i of the cipher with round key i of sched; there is no round
      past the tenth, and the block stays as it is there. */
  function CipherRound(sched: KeySchedule, box: Byte -> Byte, forward: Matrix): (Block, nat) -> Block
  {
    (y: Block, i: nat) => if i <= ROUNDS then EncryptRound(y, i, RoundKey(sched, i), box, forward) else y
  }

  /** The cipher of FIPS-197 section 5.1 with an expanded key: the initial
      AddRoundKey, then ten rounds. */
  function EncryptWith(d: Block, sched: KeySchedule, box: Byte -> Byte, forward: Matrix): Block
  {
    Rounds(AddKey(d, RoundKey(sched, 0)), CipherRound(sched, box, forward), ROUNDS)
  }

  /** The cipher under the cipher key itself. */
  function Encrypt(d: Block, key: Block, box: Byte -> Byte, g: (Word, nat) -> Word, forward: Matrix): Block
  {
    EncryptWith(d, Schedule(key, g, ROUNDS + 1), box, forward)
  }

  /** Round i of the inverse cipher, undoing EncryptRound step by step. */
  function DecryptRound(d: Block, i: nat, k: Block, unbox: Byte -> Byte, inverse: Matrix): Block
  {
    var square := Transpose(AddKey(d, k));
    var mixed := if i != ROUNDS then MixSpec(inverse, square) else square;
    SubBytes(Transpose(UnShiftRowsSpec(mixed)), unbox)
  }

  /** Round i of the inverse cipher with round key i of sched. */
  function InverseRound(sched: KeySchedule, unbox: Byte -> Byte, inverse: Matrix): (Block, nat) -> Block
  {
    (y: Block, i: nat) => if i <= ROUNDS then DecryptRound(y, i, RoundKey(sched, i), unbox, inverse) else y
  }

  /** The inverse cipher of FIPS-197 section 5.3 with an expanded key:
      rounds ten down to one, then the final AddRoundKey. */
  function DecryptWith(d: Block, sched: KeySchedule, unbox: Byte -> Byte, inverse: Matrix): Block
  {
    AddKey(RoundsDown(d, InverseRound(sched, unbox, inverse), ROUNDS, 0), RoundKey(sched, 0))
  }

  /** The inverse cipher under the cipher key itself. */
  function Decrypt(d: Block, key: Block, unbox: Byte -> Byte, g: (Word, nat) -> Word, inverse: Matrix): Block
  {
    DecryptWith(d, Schedule(key, g, ROUNDS + 1), unbox, inverse)
  }

  /** Step j of an ascending trace: block j is round j applied to block
      j - 1. */
  predicate StepUp(t: seq<Block>, round: (Block, nat) -> Block, j: nat)
    requires 1 <= j < |t|
  {
    t[j] == round(t[j - 1], j)
  }

  /** Step j of a descending trace: block j - 1 is round j applied to
      block j. */
  predicate StepDown(t: seq<Block>, round: (Block, nat) -> Block, j: nat)
    requires 1 <= j < |t|
  {
    t[j - 1] == round(t[j], j)
  }

  /** The blocks rounds 1 to n pass through: t[j] after round j. */
  function Trace(d: Block, round: (Block, nat) -> Block, n: nat): (t: seq<Block>)
    ensures |t| == n + 1 && t[0] == d && t[n] == Rounds(d, round, n)
    ensures forall j :: 1 <= j <= n ==> StepUp(t, round, j)
  {
    seq(n + 1, j requires 0 <= j <= n => Rounds(d, round, j))
  }

  /** The blocks rounds top down to 1 pass through: t[top] is the input,
      t[j - 1] the block after round j. */
  function TraceDown(d: Block, round: (Block, nat) -> Block, top: nat): (t: seq<Block>)
    ensures |t| == top + 1 && t[top] == d && t[0] == RoundsDown(d, round, top, 0)
    ensures forall j :: 1 <= j <= top ==> StepDown(t, round, j)
  {
    seq(top + 1, j requires 0 <= j <= top => RoundsDown(d, round, top, j))
  }

  /** The blocks the cipher passes through: t[0] after the initial
      AddRoundKey, t[j] after round j. */
  function CipherTrace(d: Block, sched: KeySchedule, box: Byte -> Byte, forward: Matrix): (t: seq<Block>)
    ensures |t| == ROUNDS + 1 && t[0] == AddKey(d, RoundKey(sched, 0))
    ensures forall j :: 1 <= j <= ROUNDS ==> StepUp(t, CipherRound(sched, box, forward), j)
    ensures t[ROUNDS] == EncryptWith(d, sched, box, forward)
  {
    Trace(AddKey(d, RoundKey(sched, 0)), CipherRound(sched, box, forward), ROUNDS)
  }

  /** The blocks the inverse cipher passes through: t[10] is the input,
      t[j - 1] the block after inverse round j. */
  function InverseTrace(d: Block, sched: KeySchedule, unbox: Byte -> Byte, inverse: Matrix): (t: seq<Block>)
    ensures |t| == ROUNDS + 1 && t[ROUNDS] == d
    ensures forall j :: 1 <= j <= ROUNDS ==> StepDown(t, InverseRound(sched, unbox, inverse), j)
    ensures AddKey(t[0], RoundKey(sched, 0)) == DecryptWith(d, sched, unbox, inverse)
  {
    TraceDown(d, InverseRound(sched, unbox, inverse), ROUNDS)
  }


  // ---------------------------------------------------------------------
  // Properties of the specification

  /** Each rotation undoes the other. */
  lemma RotationsUndo(w: Word)
    ensures RotR(RotL(w)) == w && RotL(RotR(w)) == w
  {
    assert RotR(RotL(w)) == [w[0], w[1], w[2], w[3]];
    assert RotL(RotR(w)) == [w[0], w[1], w[2], w[3]];
  }

  /** The last of n + 1 right rotations may be taken outermost. */
  lemma {:induction false} RotRightByLast(w: Word, n: nat)
    ensures RotRightBy(w, n + 1) == RotR(RotRightBy(w, n))
    decreases n
  {
    if n > 0 {
      RotRightByLast(RotR(w), n - 1);
    }
  }

  /** n right rotations undo n left rotations. */
  lemma {:induction false} RotationsByUndo(w: Word, n: nat)
    ensures RotRightBy(RotLeftBy(w, n), n) == w
  {
    if n > 0 {
      RotationsUndo(RotLeftBy(w, n - 1));
      RotationsByUndo(w, n - 1);
    }
  }

  /** n left rotations move byte (c + n) mod 4 to position c. */
  lemma {:induction false} RotLeftByAt(w: Word, n: nat, c: nat)
    requires c < 4
    ensures RotLeftBy(w, n)[c] == w[(c + n) % 4]
  {
    if n > 0 {
      var c' := if c == 3 then 0 else c + 1;
      RotLeftByAt(w, n - 1, c');
      assert (c' + n - 1) % 4 == (c + n) % 4;
    }
  }

  /** n right rotations move byte (c + 3n) mod 4, that is (c - n) mod 4,
      to position c. */
  lemma {:induction false} RotRightByAt(w: Word, n: nat, c: nat)
    requires c < 4
    ensures RotRightBy(w, n)[c] == w[(c + 3 * n) % 4]
    decreases n
  {
    if n > 0 {
      var c' := (c + 3 * (n - 1)) % 4;
      RotRightByAt(RotR(w), n - 1, c);
      assert RotR(w)[c'] == w[(c' + 3) % 4];
      assert (c' + 3) % 4 == (c + 3 * n) % 4;
    }
  }

  /** Position c of row r of a square is byte 4r + c. */
  lemma SquareIndex(r: nat, c: nat)
    requires r < 4 && c < 4
    ensures (4 * r + c) / 4 == r && (4 * r + c) % 4 == c
  {
  }

  /** Element r of every fourth byte from j. */
  lemma StrideAt(s: Block, j: nat, r: nat)
    requires j < 4 && r < 4
    ensures Stride(s, j)[r] == s[4 * r + j]
  {
  }

  /** Moving c right by r places and then left by r places gives c back. */
  lemma RotationIndexUndo(r: nat, c: nat)
    requires r < 4 && c < 4
    ensures ((c + 3 * r) % 4 + r) % 4 == c
  {
    if r == 0 {
    } else if r == 1 {
    } else if r == 2 {
    } else {
    }
  }

  /** Blocks that agree on every fourth byte from j have the same stride. */
  lemma SameStride(a: Block, b: Block, j: nat)
    requires j < 4 && a[j] == b[j] && a[4 + j] == b[4 + j] && a[8 + j] == b[8 + j] && a[12 + j] == b[12 + j]
    ensures Stride(a, j) == Stride(b, j)
  {
  }

  /** A block is determined by its four strides. */
  lemma StridesDetermine(a: Block, b: Block)
    requires forall j :: 0 <= j < 4 ==> Stride(a, j) == Stride(b, j)
    ensures a == b
  {
    forall k | 0 <= k < 16
      ensures a[k] == b[k]
    {
      var r, c := k / 4, k % 4;
      assert k == 4 * r + c;
      StrideAt(a, c, r);
      StrideAt(b, c, r);
    }
  }

  /** The square layout of section 3.4 of FIPS-197: byte r + 4c of the
      block sits in row r, column c of the square. */
  lemma TransposeAt(d: Block, r: nat, c: nat)
    requires r < 4 && c < 4
    ensures Transpose(d)[4 * r + c] == d[r + 4 * c]
  {
    SquareIndex(r, c);
  }

  /** Every fourth byte of the transposed block is a run of four bytes of
      the block. */
  lemma StrideTranspose(x: Block, j: nat)
    requires j < 4
    ensures Stride(Transpose(x), j) == x[4 * j..4 * j + 4]
  {
    TransposeAt(x, 0, j);
    TransposeAt(x, 1, j);
    TransposeAt(x, 2, j);
    TransposeAt(x, 3, j);
  }

  /** Row j of the transposed block is every fourth byte from j. */
  lemma RowOfTranspose(d: Block, j: nat)
    requires j < 4
    ensures Transpose(d)[4 * j..4 * j + 4] == Stride(d, j)
  {
    TransposeAt(d, j, 0);
    TransposeAt(d, j, 1);
    TransposeAt(d, j, 2);
    TransposeAt(d, j, 3);
  }

  /** Writing a word over row c leaves the other rows as they were. */
  lemma SpliceRow(before: Block, after: Block, w: Word, c: nat)
    requires c < 4 && after == before[..4 * c] + w + before[4 * c + 4..]
    ensures after[4 * c..4 * c + 4] == w
    ensures forall j :: 0 <= j < 4 && j != c ==> after[4 * j..4 * j + 4] == before[4 * j..4 * j + 4]
  {
  }

  /** A block is determined by its four rows. */
  lemma RowsDetermine(a: Block, b: Block)
    requires forall j :: 0 <= j < 4 ==> a[4 * j..4 * j + 4] == b[4 * j..4 * j + 4]
    ensures a == b
  {
    forall k | 0 <= k < 16
      ensures a[k] == b[k]
    {
      var r, c := k / 4, k % 4;
      assert k == 4 * r + c;
      assert a[4 * r..4 * r + 4][c] == b[4 * r..4 * r + 4][c];
    }
  }

  /** The transposed block is the four strides one after another. */
  lemma TransposeByStrides(s: Block)
    ensures Transpose(s) == Stride(s, 0) + Stride(s, 1) + Stride(s, 2) + Stride(s, 3)
  {
    var x := Stride(s, 0) + Stride(s, 1) + Stride(s, 2) + Stride(s, 3);
    forall j | 0 <= j < 4
      ensures Transpose(s)[4 * j..4 * j + 4] == x[4 * j..4 * j + 4]
    {
      RowOfTranspose(s, j);
    }
    RowsDetermine(Transpose(s), x);
  }

  /** Transposing twice gives the block back. */
  lemma TransposeTwice(d: Block)
    ensures Transpose(Transpose(d)) == d
  {
    forall k | 0 <= k < 16
      ensures Transpose(Transpose(d))[k] == d[k]
    {
      var r, c := k / 4, k % 4;
      assert k == 4 * r + c;
      TransposeAt(Transpose(d), r, c);
      TransposeAt(d, c, r);
    }
  }

  /** Section 5.1.2 of FIPS-197: row r, column c of the shifted square is
      row r, column (c + r) mod 4 of the square. */
  lemma ShiftRowsAt(s: Block, r: nat, c: nat)
    requires r < 4 && c < 4
    ensures ShiftRowsSpec(s)[4 * r + c] == s[4 * r + (c + r) % 4]
  {
    SquareIndex(r, c);
  }

  /** ShiftRows rotates row r left by r places, leaving row 0 alone. */
  lemma ShiftRowsRotates(s: Block, r: nat)
    requires r < 4
    ensures Row(ShiftRowsSpec(s), r) == RotLeftBy(Row(s, r), r)
  {
    forall c | 0 <= c < 4
      ensures Row(ShiftRowsSpec(s), r)[c] == RotLeftBy(Row(s, r), r)[c]
    {
      ShiftRowsAt(s, r, c);
      RotLeftByAt(Row(s, r), r, c);
      assert Row(s, r)[(c + r) % 4] == s[4 * r + (c + r) % 4];
    }
  }

  /** Row r, column c of the unshifted square is row r, column
      (c - r) mod 4 of the square. */
  lemma UnShiftRowsAt(s: Block, r: nat, c: nat)
    requires r < 4 && c < 4
    ensures UnShiftRowsSpec(s)[4 * r + c] == s[4 * r + (c + 3 * r) % 4]
  {
    SquareIndex(r, c);
  }

  /** InvShiftRows rotates row r right by r places. */
  lemma UnShiftRowsRotates(s: Block, r: nat)
    requires r < 4
    ensures Row(UnShiftRowsSpec(s), r) == RotRightBy(Row(s, r), r)
  {
    forall c | 0 <= c < 4
      ensures Row(UnShiftRowsSpec(s), r)[c] == RotRightBy(Row(s, r), r)[c]
    {
      UnShiftRowsAt(s, r, c);
      RotRightByAt(Row(s, r), r, c);
      assert Row(s, r)[(c + 3 * r) % 4] == s[4 * r + (c + 3 * r) % 4];
    }
  }

  /** InvShiftRows undoes ShiftRows. */
  lemma ShiftRowsUndo(s: Block)
    ensures UnShiftRowsSpec(ShiftRowsSpec(s)) == s
  {
    forall k | 0 <= k < 16
      ensures UnShiftRowsSpec(ShiftRowsSpec(s))[k] == s[k]
    {
      var r, c := k / 4, k % 4;
      var c' := (c + 3 * r) % 4;
      assert k == 4 * r + c;
      UnShiftRowsAt(ShiftRowsSpec(s), r, c);
      ShiftRowsAt(s, r, c');
      RotationIndexUndo(r, c);
    }
  }

  /** Adding the same round key twice gives the block back. */
  lemma AddKeyTwice(d: Block, k: Block)
    ensures AddKey(AddKey(d, k), k) == d
  {
    forall i | 0 <= i < 16
      ensures AddKey(AddKey(d, k), k)[i] == d[i]
    {
      SubUndoesAdd(d[i], k[i]);
    }
  }

  /** SubBytes with a box and then with its inverse gives the block back. */
  lemma SubBytesUndo(d: Block, box: Byte -> Byte, unbox: Byte -> Byte)
    requires forall b: Byte :: unbox(box(b)) == b
    ensures SubBytes(SubBytes(d, box), unbox) == d
  {
  }

  /** Row r, column c of the mixed square. */
  lemma MixAt(m: Matrix, s: Block, r: nat, c: nat)
    requires r < 4 && c < 4
    ensures MixSpec(m, s)[4 * r + c] == MatVec(m, Stride(s, c))[r]
  {
    SquareIndex(r, c);
  }

  /** Column c of the mixed square is the matrix times column c. */
  lemma MixColumn(m: Matrix, s: Block, c: nat)
    requires c < 4
    ensures Stride(MixSpec(m, s), c) == MatVec(m, Stride(s, c))
  {
    forall j | 0 <= j < 4
      ensures Stride(MixSpec(m, s), c)[j] == MatVec(m, Stride(s, c))[j]
    {
      StrideAt(MixSpec(m, s), c, j);
      MixAt(m, s, j, c);
    }
  }

  /** MixColumns with the inverse matrix undoes MixColumns with the
      forward one, column by column. */
  lemma MixUndo(forward: Matrix, inverse: Matrix, s: Block)
    requires forall v: Word :: MatVec(inverse, MatVec(forward, v)) == v
    ensures MixSpec(inverse, MixSpec(forward, s)) == s
  {
    var t := MixSpec(forward, s);
    forall k | 0 <= k < 16
      ensures MixSpec(inverse, t)[k] == s[k]
    {
      var r, c := k / 4, k % 4;
      assert k == 4 * r + c;
      MixAt(inverse, t, r, c);
      MixColumn(forward, s, c);
      StrideAt(s, c, r);
    }
  }

  /** The four words of the next round key, each from the one before. */
  lemma NextSubkeyWords(prev: Block, i: nat, g: (Word, nat) -> Word)
    ensures NextSubkey(prev, i, g)[0..4] == Combine(prev[0..4], g(prev[12..16], i), FieldAdd)
    ensures NextSubkey(prev, i, g)[4..8] == Combine(prev[4..8], NextSubkey(prev, i, g)[0..4], FieldAdd)
    ensures NextSubkey(prev, i, g)[8..12] == Combine(prev[8..12], NextSubkey(prev, i, g)[4..8], FieldAdd)
    ensures NextSubkey(prev, i, g)[12..16] == Combine(prev[12..16], NextSubkey(prev, i, g)[8..12], FieldAdd)
  {
  }

  /** Round key i, word j, is word 4i + j of the section 5.2 expansion. */
  lemma {:induction false} SubkeyWords(key: Block, g: (Word, nat) -> Word, i: nat)
    ensures Subkey(key, g, i)[0..4] == KeyWord(key, g, i, 0)
    ensures Subkey(key, g, i)[4..8] == KeyWord(key, g, i, 1)
    ensures Subkey(key, g, i)[8..12] == KeyWord(key, g, i, 2)
    ensures Subkey(key, g, i)[12..16] == KeyWord(key, g, i, 3)
  {
    if i > 0 {
      SubkeyWords(key, g, i - 1);
      NextSubkeyWords(Subkey(key, g, i - 1), i, g);
    }
  }

  /** Block i of a sequence of 16-byte blocks with one more block appended. */
  lemma AppendedBlock(prefix: seq<Byte>, last: seq<Byte>, i: nat)
    requires |last| == 16 && |prefix| % 16 == 0 && 16 * i < |prefix| + 16
    ensures 16 * i < |prefix| ==> (prefix + last)[16 * i..16 * i + 16] == prefix[16 * i..16 * i + 16]
    ensures 16 * i == |prefix| ==> (prefix + last)[16 * i..16 * i + 16] == last
  {
  }

  /** Block i of Blocks(f, n) is f(i). */
  lemma {:induction false} BlocksAt(f: nat -> Block, n: nat, i: nat)
    requires i < n
    ensures Blocks(f, n)[16 * i..16 * i + 16] == f(i)
  {
    AppendedBlock(Blocks(f, n - 1), f(n - 1), i);
    if i < n - 1 {
      BlocksAt(f, n - 1, i);
    }
  }

  /** Round key i sits at offset 16i of the schedule. */
  lemma ScheduleAt(key: Block, g: (Word, nat) -> Word, n: nat, i: nat)
    requires i < n
    ensures Schedule(key, g, n)[16 * i..16 * i + 16] == Subkey(key, g, i)
  {
    BlocksAt(i => Subkey(key, g, i), n, i);
  }

  /** A round is its body followed by AddRoundKey. */
  lemma KeyedRound(before: Block, body: Block, after: Block, i: nat, k: Block, box: Byte -> Byte, forward: Matrix)
    requires body == RoundBody(before, i, box, forward) && after == AddKey(body, k)
    ensures after == EncryptRound(before, i, k, box, forward)
  {
  }

  /** CipherRound applies round i with round key i of the schedule. */
  lemma CipherRoundIs(sched: KeySchedule, box: Byte -> Byte, forward: Matrix, y: Block, i: nat)
    requires 1 <= i <= ROUNDS
    ensures CipherRound(sched, box, forward)(y, i) == EncryptRound(y, i, RoundKey(sched, i), box, forward)
  {
  }

  /** Decryption round i undoes encryption round i. */
  lemma RoundUndone(y: Block, i: nat, k: Block, box: Byte -> Byte, unbox: Byte -> Byte, forward: Matrix, inverse: Matrix)
    requires forall b: Byte :: unbox(box(b)) == b
    requires forall v: Word :: MatVec(inverse, MatVec(forward, v)) == v
    ensures DecryptRound(EncryptRound(y, i, k, box, forward), i, k, unbox, inverse) == y
  {
    var square := ShiftRowsSpec(Transpose(SubBytes(y, box)));
    var mixed := if i != ROUNDS then MixSpec(forward, square) else square;
    AddKeyTwice(Transpose(mixed), k);
    TransposeTwice(mixed);
    if i != ROUNDS {
      MixUndo(forward, inverse, square);
    }
    ShiftRowsUndo(Transpose(SubBytes(y, box)));
    TransposeTwice(SubBytes(y, box));
    SubBytesUndo(y, box, unbox);
  }

  /** Undoing rounds n down to m + 1 of rounds 1 to n leaves the block
      rounds 1 to m made, when each round has an undoing partner. */
  lemma {:induction false} RoundsUndone(x: Block, round: (Block, nat) -> Block, unround: (Block, nat) -> Block, n: nat, m: nat)
    requires m <= n
    requires forall y: Block, i: nat :: 1 <= i <= n ==> unround(round(y, i), i) == y
    ensures RoundsDown(Rounds(x, round, n), unround, n, m) == Rounds(x, round, m)
    decreases n - m
  {
    if m < n {
      RoundsUndone(x, round, unround, n, m + 1);
    }
  }

  /** Decrypting with the same expanded key gives the plaintext back,
      when the inverse S-box and the inverse matrix undo their partners. */
  lemma DecryptEncryptWith(d: Block, sched: KeySchedule, box: Byte -> Byte, unbox: Byte -> Byte, forward: Matrix, inverse: Matrix)
    requires forall b: Byte :: unbox(box(b)) == b
    requires forall v: Word :: MatVec(inverse, MatVec(forward, v)) == v
    ensures DecryptWith(EncryptWith(d, sched, box, forward), sched, unbox, inverse) == d
  {
    var round, unround := CipherRound(sched, box, forward), InverseRound(sched, unbox, inverse);
    forall y: Block, i: nat | 1 <= i <= ROUNDS
      ensures unround(round(y, i), i) == y
    {
      RoundUndone(y, i, RoundKey(sched, i), box, unbox, forward, inverse);
    }
    var x := AddKey(d, RoundKey(sched, 0));
    RoundsUndone(x, round, unround, ROUNDS, 0);
    AddKeyTwice(d, RoundKey(sched, 0));
  }

  /** Decrypting with the same key gives the plaintext back. */
  lemma DecryptEncrypt(d: Block, key: Block, box: Byte -> Byte, unbox: Byte -> Byte, g: (Word, nat) -> Word, forward: Matrix, inverse: Matrix)
    requires forall b: Byte :: unbox(box(b)) == b
    requires forall v: Word :: MatVec(inverse, MatVec(forward, v)) == v
    ensures Decrypt(Encrypt(d, key, box, g, forward), key, unbox, g, inverse) == d
  {
    DecryptEncryptWith(d, Schedule(key, g, ROUNDS + 1), box, unbox, forward, inverse);
  }

  /** Round key i of the schedule is the one section 5.2 derives. */
  lemma RoundKeyOfSchedule(key: Block, g: (Word, nat) -> Word, i: nat)
    requires i <= ROUNDS
    ensures RoundKey(Schedule(key, g, ROUNDS + 1), i) == Subkey(key, g, i)
  {
    ScheduleAt(key, g, ROUNDS + 1, i);
  }

  // ---------------------------------------------------------------------
  // The C functions, over arrays

  /** copyData, writing to dest at offset at. */
  method CopyData(size: nat, source: array<Byte>, dest: array<Byte>, at: nat)
    requires size <= source.Length && at + size <= dest.Length && source != dest
    modifies dest
    ensures dest[..] == old(dest[..at]) + source[..size] + old(dest[at + size..])
  {
    for i := 0 to size
      invariant dest[..at] == old(dest[..at]) && dest[at + size..] == old(dest[at + size..])
      invariant dest[at..at + i] == source[..i]
    {
      dest[at + i] := source[i];
    }
    assert dest[..] == dest[..at] + dest[at..at + size] + dest[at + size..];
  }

  /** bitOperation: dest[i] = op(dest[i], source[at + i]).  Reading ahead of
      the write position, it is right even when source and dest are the
      same array. */
  method BitOperation(size: nat, source: array<Byte>, at: nat, dest: array<Byte>, op: (Byte, Byte) -> Byte)
    requires at + size <= source.Length && dest.Length == size
    modifies dest
    ensures dest[..] == Combine(old(dest[..]), old(source[at..at + size]), op)
  {
    ghost var d, s := dest[..], source[at..at + size];
    for i := 0 to size
      invariant forall k :: 0 <= k < i ==> dest[k] == op(d[k], s[k])
      invariant forall k :: i <= k < size ==> dest[k] == d[k] && source[at + k] == s[k]
    {
      dest[i] := op(dest[i], source[at + i]);
    }
  }

  /** addSubkey: AddRoundKey with the round key at offset at of key. */
  method AddSubkey(data: array<Byte>, key: array<Byte>, at: nat)
    requires data.Length == BLOCK_SIZE && at + BLOCK_SIZE <= key.Length
    modifies data
    ensures data[..] == AddKey(old(data[..]), old(key[at..at + BLOCK_SIZE]))
  {
    BitOperation(BLOCK_SIZE, key, at, data, FieldAdd);
  }

  /** shiftBits: rotates the word at offset at one byte left or right. */
  method ShiftBits(word: array<Byte>, at: nat, left: bool)
    requires at + WORD_SIZE <= word.Length
    modifies word
    ensures word[..at] == old(word[..at]) && word[at + 4..] == old(word[at + 4..])
    ensures word[at..at + 4] == if left then RotL(old(word[at..at + 4])) else RotR(old(word[at..at + 4]))
  {
    ghost var w: Word := word[at..at + 4];
    if left {
      var temp := word[at];
      for i := 0 to WORD_SIZE - 1
        invariant word[..at] == old(word[..at]) && word[at + 4..] == old(word[at + 4..])
        invariant forall k :: at <= k < at + i ==> word[k] == w[k - at + 1]
        invariant forall k :: at + i <= k < at + 4 ==> word[k] == w[k - at]
      {
        word[at + i] := word[at + i + 1];
      }
      word[at + WORD_SIZE - 1] := temp;
      assert word[at..at + 4] == RotL(w);
    } else {
      var temp := word[at + WORD_SIZE - 1];
      var i := WORD_SIZE - 1;
      while i > 0
        invariant 0 <= i <= 3
        invariant word[..at] == old(word[..at]) && word[at + 4..] == old(word[at + 4..])
        invariant forall k :: at + i < k < at + 4 ==> word[k] == w[k - at - 1]
        invariant forall k :: at <= k <= at + i ==> word[k] == w[k - at]
      {
        word[at + i] := word[at + i - 1];
        i := i - 1;
      }
      word[at] := temp;
      assert word[at..at + 4] == RotR(w);
    }
  }

  /** shiftRows: row r rotated left r times. */
  method ShiftRows(square: array<Byte>)
    requires square.Length == BLOCK_SIZE
    modifies square
    ensures square[..] == ShiftRowsSpec(old(square[..]))
  {
    ghost var s: Block := square[..];
    for r := 0 to BLOCK_ROWS
      invariant square[..4 * r] == ShiftRowsSpec(s)[..4 * r]
      invariant square[4 * r..] == s[4 * r..]
    {
      assert square[4 * r..4 * r + 4] == Row(s, r);
      for i := 0 to r
        invariant square[..4 * r] == ShiftRowsSpec(s)[..4 * r]
        invariant square[4 * r..4 * r + 4] == RotLeftBy(Row(s, r), i)
        invariant square[4 * r + 4..] == s[4 * r + 4..]
      {
        ShiftBits(square, 4 * r, LEFT);
      }
      ShiftRowsRotates(s, r);
      assert square[..4 * r + 4] == square[..4 * r] + square[4 * r..4 * r + 4];
      assert ShiftRowsSpec(s)[..4 * r + 4] == ShiftRowsSpec(s)[..4 * r] + Row(ShiftRowsSpec(s), r);
    }
  }

  /** unShiftRows: row r rotated right r times. */
  method UnShiftRows(square: array<Byte>)
    requires square.Length == BLOCK_SIZE
    modifies square
    ensures square[..] == UnShiftRowsSpec(old(square[..]))
  {
    ghost var s: Block := square[..];
    for r := 0 to BLOCK_ROWS
      invariant square[..4 * r] == UnShiftRowsSpec(s)[..4 * r]
      invariant square[4 * r..] == s[4 * r..]
    {
      assert square[4 * r..4 * r + 4] == Row(s, r);
      for i := 0 to r
        invariant square[..4 * r] == UnShiftRowsSpec(s)[..4 * r]
        invariant square[4 * r..4 * r + 4] == RotRightBy(Row(s, r), i)
        invariant square[4 * r + 4..] == s[4 * r + 4..]
      {
        ShiftBits(square, 4 * r, RIGHT);
        RotRightByLast(Row(s, r), i);
      }
      UnShiftRowsRotates(s, r);
      assert square[..4 * r + 4] == square[..4 * r] + square[4 * r..4 * r + 4];
      assert UnShiftRowsSpec(s)[..4 * r + 4] == UnShiftRowsSpec(s)[..4 * r] + Row(UnShiftRowsSpec(s), r);
    }
  }

  /** getWords: the four 4-byte words of a block. */
  method GetWords(word1: array<Byte>, word2: array<Byte>, word3: array<Byte>, word4: array<Byte>, data: array<Byte>)
    requires word1.Length == WORD_SIZE && word2.Length == WORD_SIZE && word3.Length == WORD_SIZE && word4.Length == WORD_SIZE
    requires data.Length == BLOCK_SIZE
    requires word1 != word2 && word1 != word3 && word1 != word4 && word2 != word3 && word2 != word4 && word3 != word4
    requires data != word1 && data != word2 && data != word3 && data != word4
    modifies word1, word2, word3, word4
    ensures word1[..] + word2[..] + word3[..] + word4[..] == data[..]
  {
    for i := 0 to WORD_SIZE
      invariant forall t :: 0 <= t < i ==> word1[t] == data[t] && word2[t] == data[4 + t]
      invariant forall t :: 0 <= t < i ==> word3[t] == data[8 + t] && word4[t] == data[12 + t]
    {
      word1[i] := data[i];
      word2[i] := data[i + WORD_SIZE];
      word3[i] := data[i + 2 * WORD_SIZE];
      word4[i] := data[i + 3 * WORD_SIZE];
    }
    assert word1[..] == data[..4] && word2[..] == data[4..8];
    assert word3[..] == data[8..12] && word4[..] == data[12..];
    assert data[..] == data[..4] + data[4..8] + data[8..12] + data[12..];
  }

  /** wordsToData: the block made of four words. */
  method WordsToData(word1: array<Byte>, word2: array<Byte>, word3: array<Byte>, word4: array<Byte>, data: array<Byte>)
    requires word1.Length == WORD_SIZE && word2.Length == WORD_SIZE && word3.Length == WORD_SIZE && word4.Length == WORD_SIZE
    requires data.Length == BLOCK_SIZE
    requires data != word1 && data != word2 && data != word3 && data != word4
    modifies data
    ensures data[..] == word1[..] + word2[..] + word3[..] + word4[..]
  {
    for i := 0 to WORD_SIZE
      invariant forall t :: 0 <= t < i ==> data[t] == word1[t] && data[4 + t] == word2[t]
      invariant forall t :: 0 <= t < i ==> data[8 + t] == word3[t] && data[12 + t] == word4[t]
    {
      data[i] := word1[i];
      data[i + WORD_SIZE] := word2[i];
      data[i + 2 * WORD_SIZE] := word3[i];
      data[i + 3 * WORD_SIZE] := word4[i];
    }
    assert data[..4] == word1[..] && data[4..8] == word2[..];
    assert data[8..12] == word3[..] && data[12..] == word4[..];
    assert data[..] == data[..4] + data[4..8] + data[8..12] + data[12..];
  }

  /** blockToSquare: row c of the square is every fourth byte of the block
      from byte c on. */
  method BlockToSquare(square: array<Byte>, data: array<Byte>)
    requires square.Length == BLOCK_SIZE && data.Length == BLOCK_SIZE && square != data
    modifies square
    ensures square[..] == Transpose(old(data[..]))
  {
    ghost var d: Block := data[..];
    var word1, word2, word3, word4 := new Byte[WORD_SIZE], new Byte[WORD_SIZE], new Byte[WORD_SIZE], new Byte[WORD_SIZE];
    GetWords(word1, word2, word3, word4, data);
    assert word1[..] == d[0..4] && word2[..] == d[4..8] && word3[..] == d[8..12] && word4[..] == d[12..16];
    for c := 0 to BLOCK_COLS
      modifies square
      invariant forall j :: 0 <= j < c ==> square[4 * j..4 * j + 4] == Stride(d, j)
    {
      var column := new Byte[WORD_SIZE] [word1[c], word2[c], word3[c], word4[c]];
      assert column[..] == Stride(d, c);
      ghost var before: Block := square[..];
      CopyData(WORD_SIZE, column, square, 4 * c);
      SpliceRow(before, square[..], column[..WORD_SIZE], c);
    }
    forall j | 0 <= j < 4
      ensures square[4 * j..4 * j + 4] == Transpose(d)[4 * j..4 * j + 4]
    {
      RowOfTranspose(d, j);
    }
    RowsDetermine(square[..], Transpose(d));
  }

  /** squareToBlock: word c of the block is column c of the square. */
  method SquareToBlock(data: array<Byte>, square: array<Byte>)
    requires square.Length == BLOCK_SIZE && data.Length == BLOCK_SIZE && square != data
    modifies data
    ensures data[..] == Transpose(old(square[..]))
  {
    ghost var s: Block := square[..];
    var word1, word2, word3, word4 := new Byte[WORD_SIZE], new Byte[WORD_SIZE], new Byte[WORD_SIZE], new Byte[WORD_SIZE];
    for r := 0 to BLOCK_COLS
      invariant forall k :: 0 <= k < r ==> word1[k] == s[4 * k] && word2[k] == s[4 * k + 1]
      invariant forall k :: 0 <= k < r ==> word3[k] == s[4 * k + 2] && word4[k] == s[4 * k + 3]
    {
      var col := 0;
      word1[r] := square[4 * r + col];
      col := col + 1;
      word2[r] := square[4 * r + col];
      col := col + 1;
      word3[r] := square[4 * r + col];
      col := col + 1;
      word4[r] := square[4 * r + col];
    }
    assert word1[..] == Stride(s, 0) && word2[..] == Stride(s, 1);
    assert word3[..] == Stride(s, 2) && word4[..] == Stride(s, 3);
    WordsToData(word1, word2, word3, word4, data);
    TransposeByStrides(s);
  }

  /** vectorMultiply: column `column` of square becomes reference times vec;
      the other columns are untouched. */
  method VectorMultiply(reference: Matrix, vec: array<Byte>, square: array<Byte>, column: nat)
    requires vec.Length == BLOCK_ROWS && square.Length == BLOCK_SIZE && column < BLOCK_COLS && vec != square
    modifies square
    ensures Stride(square[..], column) == MatVec(reference, vec[..])
    ensures forall j :: 0 <= j < 4 && j != column ==> Stride(square[..], j) == Stride(old(square[..]), j)
  {
    ghost var s: Block := square[..];
    for r := 0 to BLOCK_ROWS
      invariant forall j :: 0 <= j < r ==> square[4 * j + column] == MatVec(reference, vec[..])[j]
      invariant forall k :: 0 <= k < 16 && (k % 4 != column || r <= k / 4) ==> square[k] == s[k]
    {
      var block: Byte := 0;
      for c := 0 to BLOCK_COLS
        modifies {}
        invariant block == Dot(reference, r, vec[..], c)
      {
        var product := FieldMul(reference[4 * r + c], vec[c]);
        block := FieldAdd(product, block);
      }
      SquareIndex(r, column);
      square[4 * r + column] := block;
    }
    forall j | 0 <= j < 4
      ensures Stride(square[..], column)[j] == MatVec(reference, vec[..])[j]
    {
      StrideAt(square[..], column, j);
    }
    forall j | 0 <= j < 4 && j != column
      ensures Stride(square[..], j) == Stride(s, j)
    {
      SquareIndex(0, j);
      SquareIndex(1, j);
      SquareIndex(2, j);
      SquareIndex(3, j);
      SameStride(square[..], s, j);
    }
  }

  /** The inner loop of mixColumns: vec becomes column c of the square. */
  method GetColumn(vec: array<Byte>, square: array<Byte>, c: nat)
    requires vec.Length == BLOCK_ROWS && square.Length == BLOCK_SIZE && c < BLOCK_COLS && vec != square
    modifies vec
    ensures vec[..] == Stride(square[..], c)
  {
    for r := 0 to BLOCK_COLS
      invariant forall j :: 0 <= j < r ==> vec[j] == square[4 * j + c]
    {
      vec[r] := square[4 * r + c];
    }
    forall j | 0 <= j < 4
      ensures vec[j] == Stride(square[..], c)[j]
    {
      StrideAt(square[..], c, j);
    }
  }

  /** mixColumns and unMixColumns: every column multiplied by the matrix
      (the forward matrix for the one, the inverse matrix for the other). */
  method MixColumns(matrix: Matrix, square: array<Byte>)
    requires square.Length == BLOCK_SIZE
    modifies square
    ensures square[..] == MixSpec(matrix, old(square[..]))
  {
    ghost var s: Block := square[..];
    var vec := new Byte[BLOCK_COLS];
    for c := 0 to BLOCK_COLS
      invariant forall j :: 0 <= j < c ==> Stride(square[..], j) == MatVec(matrix, Stride(s, j))
      invariant forall j :: c <= j < 4 ==> Stride(square[..], j) == Stride(s, j)
    {
      GetColumn(vec, square, c);
      VectorMultiply(matrix, vec, square, c);
    }
    forall j | 0 <= j < 4
      ensures Stride(square[..], j) == Stride(MixSpec(matrix, s), j)
    {
      MixColumn(matrix, s, j);
    }
    StridesDetermine(square[..], MixSpec(matrix, s));
  }

  /** The g function of the key schedule, a call into the utility component:
      dest receives g(src, r). */
  method GFunction(dest: array<Byte>, src: array<Byte>, r: nat, g: (Word, nat) -> Word)
    requires dest.Length == WORD_SIZE && src.Length == WORD_SIZE && dest != src
    modifies dest
    ensures dest[..] == g(old(src[..]), r)
  {
    var w := g(src[..], r);
    dest[0], dest[1], dest[2], dest[3] := w[0], w[1], w[2], w[3];
  }

  /** Copying a block to offset at extends the prefix before at by that
      block. */
  lemma CopiedPrefix(before: seq<Byte>, after: seq<Byte>, block: seq<Byte>, at: nat)
    requires at + |block| <= |before|
    requires after == before[..at] + block + before[at + |block|..]
    ensures after[..at + |block|] == before[..at] + block
  {
  }

  /** The four steps in the loop of generateSubkeys: the words of round
      key i - 1 become the words of round key i. */
  method NextWords(word1: array<Byte>, word2: array<Byte>, word3: array<Byte>, word4: array<Byte>, temp: array<Byte>, i: nat, g: (Word, nat) -> Word)
    requires word1.Length == WORD_SIZE && word2.Length == WORD_SIZE && word3.Length == WORD_SIZE && word4.Length == WORD_SIZE && temp.Length == WORD_SIZE
    requires word1 != word2 && word1 != word3 && word1 != word4 && word2 != word3 && word2 != word4 && word3 != word4
    requires temp != word1 && temp != word2 && temp != word3 && temp != word4
    modifies word1, word2, word3, word4, temp
    ensures word1[..] + word2[..] + word3[..] + word4[..] == NextSubkey(old(word1[..] + word2[..] + word3[..] + word4[..]), i, g)
  {
    ghost var prev: Block := word1[..] + word2[..] + word3[..] + word4[..];
    assert word1[..] == prev[0..4] && word2[..] == prev[4..8] && word3[..] == prev[8..12] && word4[..] == prev[12..16];
    CopyData(WORD_SIZE, word4, temp, 0);
    GFunction(temp, word4, i, g);
    BitOperation(WORD_SIZE, temp, 0, word1, FieldAdd);
    ghost var w1 := word1[..];
    assert w1 == Combine(prev[0..4], g(prev[12..16], i), FieldAdd);
    BitOperation(WORD_SIZE, word1, 0, word2, FieldAdd);
    ghost var w2 := word2[..];
    assert w2 == Combine(prev[4..8], w1, FieldAdd);
    BitOperation(WORD_SIZE, word2, 0, word3, FieldAdd);
    ghost var w3 := word3[..];
    assert w3 == Combine(prev[8..12], w2, FieldAdd);
    BitOperation(WORD_SIZE, word3, 0, word4, FieldAdd);
  }

  /** The start of generateSubkeys: round key 0 is the cipher key, stored
      first and split into the words the loop starts from. */
  method FirstRoundKey(word1: array<Byte>, word2: array<Byte>, word3: array<Byte>, word4: array<Byte>,
                       subkey: array<Byte>, key: array<Byte>, g: (Word, nat) -> Word)
    requires word1.Length == WORD_SIZE && word2.Length == WORD_SIZE && word3.Length == WORD_SIZE && word4.Length == WORD_SIZE
    requires word1 != word2 && word1 != word3 && word1 != word4 && word2 != word3 && word2 != word4 && word3 != word4
    requires key.Length == BLOCK_SIZE && key != word1 && key != word2 && key != word3 && key != word4
    requires subkey != word1 && subkey != word2 && subkey != word3 && subkey != word4 && subkey != key
    requires BLOCK_SIZE <= subkey.Length
    modifies word1, word2, word3, word4, subkey
    ensures word1[..] + word2[..] + word3[..] + word4[..] == Subkey(key[..], g, 0)
    ensures subkey[..16] == Schedule(key[..], g, 1)
  {
    CopyData(BLOCK_SIZE, key, subkey, 0);
    GetWords(word1, word2, word3, word4, key);
    assert subkey[..16] == key[..];
  }

  /** The body of generateSubkeys' loop: the words of round key i - 1
      become those of round key i, which is stored behind round keys 0 to
      i - 1. */
  method NextRoundKey(word1: array<Byte>, word2: array<Byte>, word3: array<Byte>, word4: array<Byte>, temp: array<Byte>,
                      data: array<Byte>, subkey: array<Byte>, i: nat, ghost k: Block, g: (Word, nat) -> Word)
    requires word1.Length == WORD_SIZE && word2.Length == WORD_SIZE && word3.Length == WORD_SIZE && word4.Length == WORD_SIZE && temp.Length == WORD_SIZE
    requires word1 != word2 && word1 != word3 && word1 != word4 && word2 != word3 && word2 != word4 && word3 != word4
    requires temp != word1 && temp != word2 && temp != word3 && temp != word4
    requires data.Length == BLOCK_SIZE && data != word1 && data != word2 && data != word3 && data != word4
    requires subkey != word1 && subkey != word2 && subkey != word3 && subkey != word4 && subkey != temp && subkey != data
    requires 1 <= i && 16 * i + 16 <= subkey.Length
    requires word1[..] + word2[..] + word3[..] + word4[..] == Subkey(k, g, i - 1)
    requires subkey[..16 * i] == Schedule(k, g, i)
    modifies word1, word2, word3, word4, temp, data, subkey
    ensures word1[..] + word2[..] + word3[..] + word4[..] == Subkey(k, g, i)
    ensures subkey[..16 * (i + 1)] == Schedule(k, g, i + 1)
  {
    NextWords(word1, word2, word3, word4, temp, i, g);
    WordsToData(word1, word2, word3, word4, data);
    ghost var before := subkey[..];
    CopyData(BLOCK_SIZE, data, subkey, 16 * i);
    CopiedPrefix(before, subkey[..], data[..BLOCK_SIZE], 16 * i);
  }

  /** generateSubkeys: the eleven round keys, one after another; round
      key j fills bytes 16j to 16j + 15. */
  method GenerateSubkeys(subkey: array<Byte>, key: array<Byte>, g: (Word, nat) -> Word)
    requires subkey.Length == (ROUNDS + 1) * BLOCK_SIZE && key.Length == BLOCK_SIZE && subkey != key
    modifies subkey
    ensures subkey[..] == Schedule(key[..], g, ROUNDS + 1)
  {
    ghost var k: Block := key[..];
    var word1, word2, word3, word4 := new Byte[WORD_SIZE], new Byte[WORD_SIZE], new Byte[WORD_SIZE], new Byte[WORD_SIZE];
    var temp, data := new Byte[WORD_SIZE], new Byte[BLOCK_SIZE];
    FirstRoundKey(word1, word2, word3, word4, subkey, key, g);
    for i := 1 to ROUNDS + 1
      invariant word1[..] + word2[..] + word3[..] + word4[..] == Subkey(k, g, i - 1)
      invariant subkey[..16 * i] == Schedule(k, g, i)
    {
      NextRoundKey(word1, word2, word3, word4, temp, data, subkey, i, k, g);
    }
    assert subkey[..] == subkey[..16 * (ROUNDS + 1)];
  }

  /** The substitution loop of both block functions: every byte through box. */
  method Substitute(data: array<Byte>, box: Byte -> Byte)
    requires data.Length == BLOCK_SIZE
    modifies data
    ensures data[..] == SubBytes(old(data[..]), box)
  {
    for j := 0 to BLOCK_SIZE
      invariant forall t :: 0 <= t < j ==> data[t] == box(old(data[t]))
      invariant forall t :: j <= t < 16 ==> data[t] == old(data[t])
    {
      data[j] := box(data[j]);
    }
  }

  /** The body of encryptBlock's loop up to the AddRoundKey: SubBytes,
      ShiftRows and, except in the last round, MixColumns. */
  method SubShiftMix(data: array<Byte>, i: nat, box: Byte -> Byte, forward: Matrix)
    requires data.Length == BLOCK_SIZE
    modifies data
    ensures data[..] == RoundBody(old(data[..]), i, box, forward)
  {
    ghost var before: Block := data[..];
    var square := new Byte[BLOCK_SIZE];
    Substitute(data, box);
    ghost var subbed: Block := data[..];
    BlockToSquare(square, data);
    ShiftRows(square);
    ghost var shifted: Block := square[..];
    assert shifted == ShiftRowsSpec(Transpose(subbed));
    if i != ROUNDS {
      MixColumns(forward, square);
    }
    ghost var mixed: Block := square[..];
    assert mixed == if i != ROUNDS then MixSpec(forward, shifted) else shifted;
    SquareToBlock(data, square);
    assert data[..] == RoundBody(before, i, box, forward);
  }

  /** The body of encryptBlock's loop: round i with round key k, held at
      offset 16i of subkeys. */
  method EncryptRoundInPlace(data: array<Byte>, subkeys: array<Byte>, i: nat, box: Byte -> Byte, forward: Matrix, ghost sched: KeySchedule)
    requires data.Length == BLOCK_SIZE && data != subkeys && subkeys[..] == sched
    requires 1 <= i <= ROUNDS
    modifies data
    ensures data[..] == CipherRound(sched, box, forward)(old(data[..]), i)
  {
    ghost var before: Block := data[..];
    ghost var k := RoundKey(sched, i);
    assert subkeys[16 * i..16 * i + 16] == k;
    SubShiftMix(data, i, box, forward);
    ghost var body: Block := data[..];
    AddSubkey(data, subkeys, 16 * i);
    KeyedRound(before, body, data[..], i, k, box, forward);
    CipherRoundIs(sched, box, forward, before, i);
  }

  /** AddRoundKey with round key 0: the first step of encryptBlock and the
      last of decryptBlock. */
  method AddFirstSubkey(data: array<Byte>, subkeys: array<Byte>, ghost sched: KeySchedule)
    requires data.Length == BLOCK_SIZE && data != subkeys && subkeys[..] == sched
    modifies data
    ensures data[..] == AddKey(old(data[..]), RoundKey(sched, 0))
  {
    assert subkeys[0..16] == RoundKey(sched, 0);
    AddSubkey(data, subkeys, 0);
  }

  /** The round loop of encryptBlock: rounds 1 to 10 on a block that has
      had round key 0 added, each block as trace says. */
  method EncryptRounds(data: array<Byte>, subkeys: array<Byte>, box: Byte -> Byte, forward: Matrix, ghost sched: KeySchedule, ghost trace: seq<Block>)
    requires data.Length == BLOCK_SIZE && data != subkeys && subkeys[..] == sched
    requires |trace| == ROUNDS + 1 && data[..] == trace[0]
    requires forall j :: 1 <= j <= ROUNDS ==> StepUp(trace, CipherRound(sched, box, forward), j)
    modifies data
    ensures data[..] == trace[ROUNDS]
  {
    for i := 1 to ROUNDS + 1
      invariant data[..] == trace[i - 1]
    {
      assert StepUp(trace, CipherRound(sched, box, forward), i);
      EncryptRoundInPlace(data, subkeys, i, box, forward, sched);
    }
  }

  /** The cipher under an expanded key held in subkeys: the initial
      AddRoundKey, then the round loop of encryptBlock. */
  method EncryptWithSubkeys(data: array<Byte>, subkeys: array<Byte>, box: Byte -> Byte, forward: Matrix, ghost sched: KeySchedule)
    requires data.Length == BLOCK_SIZE && data != subkeys && subkeys[..] == sched
    modifies data
    ensures data[..] == EncryptWith(old(data[..]), sched, box, forward)
  {
    ghost var trace := CipherTrace(data[..], sched, box, forward);
    AddFirstSubkey(data, subkeys, sched);
    EncryptRounds(data, subkeys, box, forward, sched, trace);
  }

  /** encryptBlock: the cipher of FIPS-197 section 5.1. */
  method EncryptBlock(data: array<Byte>, key: array<Byte>, box: Byte -> Byte, g: (Word, nat) -> Word, forward: Matrix)
    requires data.Length == BLOCK_SIZE && key.Length == BLOCK_SIZE
    modifies data
    ensures data[..] == Encrypt(old(data[..]), old(key[..]), box, g, forward)
  {
    var subkeys := new Byte[(ROUNDS + 1) * BLOCK_SIZE];
    GenerateSubkeys(subkeys, key, g);
    EncryptWithSubkeys(data, subkeys, box, forward, subkeys[..]);
  }

  /** The body of decryptBlock's loop: inverse round i with round key i of subkeys. */
  method DecryptRoundInPlace(data: array<Byte>, subkeys: array<Byte>, i: nat, unbox: Byte -> Byte, inverse: Matrix, ghost sched: KeySchedule)
    requires data.Length == BLOCK_SIZE && data != subkeys && subkeys[..] == sched
    requires 1 <= i <= ROUNDS
    modifies data
    ensures data[..] == InverseRound(sched, unbox, inverse)(old(data[..]), i)
  {
    ghost var before: Block := data[..];
    ghost var k := RoundKey(sched, i);
    AddSubkey(data, subkeys, 16 * i);
    var square := new Byte[BLOCK_SIZE];
    BlockToSquare(square, data);
    ghost var unmixed: Block := square[..];
    assert unmixed == Transpose(AddKey(before, k));
    if i != ROUNDS {
      MixColumns(inverse, square);
    }
    ghost var mixed: Block := square[..];
    assert mixed == if i != ROUNDS then MixSpec(inverse, unmixed) else unmixed;
    UnShiftRows(square);
    SquareToBlock(data, square);
    ghost var shifted: Block := data[..];
    assert shifted == Transpose(UnShiftRowsSpec(mixed));
    Substitute(data, unbox);
    assert data[..] == DecryptRound(before, i, k, unbox, inverse);
  }

  /** The round loop of decryptBlock: inverse rounds 10 down to 1, each
      block as trace says. */
  method DecryptRounds(data: array<Byte>, subkeys: array<Byte>, unbox: Byte -> Byte, inverse: Matrix, ghost sched: KeySchedule, ghost trace: seq<Block>)
    requires data.Length == BLOCK_SIZE && data != subkeys && subkeys[..] == sched
    requires |trace| == ROUNDS + 1 && data[..] == trace[ROUNDS]
    requires forall j :: 1 <= j <= ROUNDS ==> StepDown(trace, InverseRound(sched, unbox, inverse), j)
    modifies data
    ensures data[..] == trace[0]
  {
    var i := ROUNDS;
    while i >= 1
      invariant 0 <= i <= ROUNDS
      invariant data[..] == trace[i]
    {
      assert StepDown(trace, InverseRound(sched, unbox, inverse), i);
      DecryptRoundInPlace(data, subkeys, i, unbox, inverse, sched);
      i := i - 1;
    }
  }

  /** The inverse cipher under an expanded key held in subkeys: the round
      loop of decryptBlock, then the final AddRoundKey. */
  method DecryptWithSubkeys(data: array<Byte>, subkeys: array<Byte>, unbox: Byte -> Byte, inverse: Matrix, ghost sched: KeySchedule)
    requires data.Length == BLOCK_SIZE && data != subkeys && subkeys[..] == sched
    modifies data
    ensures data[..] == DecryptWith(old(data[..]), sched, unbox, inverse)
  {
    ghost var trace := InverseTrace(data[..], sched, unbox, inverse);
    DecryptRounds(data, subkeys, unbox, inverse, sched, trace);
    AddFirstSubkey(data, subkeys, sched);
  }

  /** decryptBlock: the inverse cipher of FIPS-197 section 5.3. */
  method DecryptBlock(data: array<Byte>, key: array<Byte>, unbox: Byte -> Byte, g: (Word, nat) -> Word, inverse: Matrix)
    requires data.Length == BLOCK_SIZE && key.Length == BLOCK_SIZE
    modifies data
    ensures data[..] == Decrypt(old(data[..]), old(key[..]), unbox, g, inverse)
  {
    var subkeys := new Byte[(ROUNDS + 1) * BLOCK_SIZE];
    GenerateSubkeys(subkeys, key, g);
    DecryptWithSubkeys(data, subkeys, unbox, inverse, subkeys[..]);
  }
}
