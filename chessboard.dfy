/** The chessboard decoder of EX/EX17/chessboard.c: each 16-bit input
    places one piece, and each square prints as one letter. */
module Chessboard {

  /** Width and height of the board. */
  const SIZE: nat := 8

  /** A square's content; kind 0 is an empty square, 1..6 are pawn,
      knight, bishop, rook, queen and king. */
  datatype Piece = Piece(light: bool, kind: nat)

  const EMPTY: Piece := Piece(false, 0)

  /** Bits 0-2 of the input: the column. */
  function Col(input: bv16): (c: nat)
    ensures c < SIZE
    ensures c == (input % 8) as nat
  {
    (input & 0x0007) as nat
  }

  /** Bits 3-5, shifted down: the row. */
  function Row(input: bv16): (r: nat)
    ensures r < SIZE
    ensures r == (input / 8 % 8) as nat
  {
    ((input & 0x0038) >> 3) as nat
  }

  /** The piece bits 6-9 describe: type from bits 6-8, light from bit 9. */
  function Decoded(input: bv16): (p: Piece)
    ensures p.kind == (input / 64 % 8) as nat
    ensures p.light <==> input / 512 % 2 == 1
  {
    Piece((input & 0x0200) >> 9 == 1, ((input & 0x01C0) >> 6) as nat)
  }

  /** Bits 10-15 are never looked at: inputs that agree on bits 0-9 place
      the same piece on the same square. */
  lemma HighBitsIgnored(x: bv16, y: bv16)
    requires x & 0x03FF == y & 0x03FF
    ensures Row(x) == Row(y) && Col(x) == Col(y) && Decoded(x) == Decoded(y)
  {
    assert x & 0x0007 == (x & 0x03FF) & 0x0007;
    assert y & 0x0007 == (y & 0x03FF) & 0x0007;
    assert x & 0x0038 == (x & 0x03FF) & 0x0038;
    assert y & 0x0038 == (y & 0x03FF) & 0x0038;
    assert x & 0x01C0 == (x & 0x03FF) & 0x01C0;
    assert y & 0x01C0 == (y & 0x03FF) & 0x01C0;
    assert x & 0x0200 == (x & 0x03FF) & 0x0200;
    assert y & 0x0200 == (y & 0x03FF) & 0x0200;
  }

  /** initBoard (chessboard.c:51-56): every square empty. */
  method InitBoard(board: array2<Piece>)
    requires board.Length0 == SIZE && board.Length1 == SIZE
    modifies board
    ensures forall i, j :: 0 <= i < SIZE && 0 <= j < SIZE ==> board[i, j] == EMPTY
  {
    for i := 0 to SIZE
      invariant forall r, c :: 0 <= r < i && 0 <= c < SIZE ==> board[r, c] == EMPTY
    {
      for j := 0 to SIZE
        invariant forall r, c :: 0 <= r < i && 0 <= c < SIZE ==> board[r, c] == EMPTY
        invariant forall c :: 0 <= c < j ==> board[i, c] == EMPTY
      {
        board[i, j] := EMPTY;
      }
    }
  }

  /** decodeInput (chessboard.c:64-77): writes the decoded piece on its
      square, always inside the board, and no other square. */
  method DecodeInput(input: bv16, board: array2<Piece>)
    requires board.Length0 == SIZE && board.Length1 == SIZE
    modifies board
    ensures board[Row(input), Col(input)] == Decoded(input)
    ensures forall i, j :: 0 <= i < SIZE && 0 <= j < SIZE && (i, j) != (Row(input), Col(input)) ==>
              board[i, j] == old(board[i, j])
  {
    board[Row(input), Col(input)] := Decoded(input);
  }

  /** The letter printBoardText shows for a square (chessboard.c:89-131). */
  function Letter(p: Piece): (ch: char)
    ensures ch == '-' <==> p.kind == 0
    ensures ch == '?' <==> p.kind > 6
    ensures 1 <= p.kind <= 6 ==> ch == (if p.light then "PNBRQK" else "pnbrqk")[p.kind - 1]
  {
    match p.kind
    case 0 => '-'
    case 1 => if p.light then 'P' else 'p'
    case 2 => if p.light then 'N' else 'n'
    case 3 => if p.light then 'B' else 'b'
    case 4 => if p.light then 'R' else 'r'
    case 5 => if p.light then 'Q' else 'q'
    case 6 => if p.light then 'K' else 'k'
    case _ => '?'
  }

  /** A letter is upper case exactly for a light piece. */
  lemma LetterCase(p: Piece)
    requires 1 <= p.kind <= 6
    ensures 'A' <= Letter(p) <= 'Z' <==> p.light
  {
  }
}
