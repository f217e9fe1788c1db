/** The byte-pair-encoding scheme of the archiver's block codec, as pure
    functions: how one round counts pairs, picks the pair to replace and the
    code to replace it with, how the replacement and the reverse expansion
    act on a block's bytes, and what a whole compression produces
    (Homeworks/proj/compress.c, compressBlock and uncompressBlock). */
module Bpe {
  import opened ByteBuffer
  import opened Wrappers

  /** Maximum number of bytes in a block (BLOCK_SIZE_LIMIT). */
  const BLOCK_SIZE_LIMIT: nat := 16384
  /** Number of rule slots in a block (BYTE_CODES - 1). */
  const MAX_RULES: nat := 255
  /** A pair must occur this often to get a rule (REPLACEMENT_THRESHOLD). */
  const REPLACEMENT_THRESHOLD: nat := 3

  /** "Wherever `code` appears, substitute `first`, `second`." */
  datatype Rule = Rule(code: Byte, first: Byte, second: Byte)

  /** The set of byte values occurring in s. */
  function Elems(s: seq<Byte>): set<Byte>
  {
    set i | 0 <= i < |s| :: s[i]
  }

  // ---------------------------------------------------------------------
  // Pair statistics

  /** A pair packed as the unsigned short first<<8 | second. */
  function PairValue(a: Byte, b: Byte): nat
  {
    a * 256 + b
  }

  /** The first byte of a packed pair. */
  function Hi(p: nat): Byte
    requires p < 65536
  {
    p / 256
  }

  /** The second byte of a packed pair. */
  function Lo(p: nat): Byte
    requires p < 65536
  {
    p % 256
  }

  lemma HiLoOfPair(a: Byte, b: Byte)
    ensures PairValue(a, b) < 65536 && Hi(PairValue(a, b)) == a && Lo(PairValue(a, b)) == b
  {
  }

  lemma PairOfHiLo(p: nat)
    requires p < 65536
    ensures PairValue(Hi(p), Lo(p)) == p
  {
  }

  /** Number of positions i with s[i] == a and s[i+1] == b, overlapping
      occurrences included. */
  function PairCount(s: seq<Byte>, a: Byte, b: Byte): nat
  {
    if |s| < 2 then 0
    else PairCount(s[..|s| - 1], a, b) + (if s[|s| - 2] == a && s[|s| - 1] == b then 1 else 0)
  }

  /** PairCount read from the front. */
  lemma {:induction false} PairCountFront(s: seq<Byte>, a: Byte, b: Byte)
    requires |s| >= 2
    ensures PairCount(s, a, b) == (if s[0] == a && s[1] == b then 1 else 0) + PairCount(s[1..], a, b)
    decreases |s|
  {
    if |s| > 2 {
      PairCountFront(s[..|s| - 1], a, b);
      assert s[..|s| - 1][1..] == s[1..][..|s[1..]| - 1];
    } else {
      assert s[1..][..0] == [];
    }
  }

  /** One slot of the counting table: a packed pair and how often it occurs. */
  datatype Entry = Entry(pair: nat, count: nat)

  /** The counting table: sixteen rows, one per high nibble of the pair's
      first byte; a row lists its pairs in order of first appearance. */
  type Table = seq<seq<Entry>>

  function EmptyTable(): (t: Table)
    ensures |t| == 16
  {
    [[], [], [], [], [], [], [], [], [], [], [], [], [], [], [], []]
  }

  /** Index of the first slot of `row` holding pair p, or |row| if none. */
  function FindIn(row: seq<Entry>, p: nat): (j: nat)
    ensures j <= |row|
    ensures j < |row| ==> row[j].pair == p
    ensures forall k :: 0 <= k < j ==> row[k].pair != p
  {
    if row == [] then 0
    else if row[0].pair == p then 0
    else 1 + FindIn(row[1..], p)
  }

  /** Count one more occurrence of pair p: bump its slot, or open a new slot
      with count 1 at the end of its row. */
  function AddPair(t: Table, p: nat): (t': Table)
    requires |t| == 16 && p < 65536
    ensures |t'| == 16
  {
    var r := p / 4096;
    var j := FindIn(t[r], p);
    if j < |t[r]| then t[r := t[r][j := Entry(p, t[r][j].count + 1)]]
    else t[r := t[r] + [Entry(p, 1)]]
  }

  /** The table after counting every adjacent pair of s, left to right. */
  function CountTable(s: seq<Byte>): (t: Table)
    ensures |t| == 16
  {
    if |s| < 2 then EmptyTable()
    else AddPair(CountTable(s[..|s| - 1]), PairValue(s[|s| - 2], s[|s| - 1]))
  }

  /** Every slot holds a pair of its own row (the high nibble of the
      pair's first byte). */
  ghost predicate RowsFit(t: Table)
  {
    |t| == 16
    && forall r, j :: 0 <= r < 16 && 0 <= j < |t[r]| ==> t[r][j].pair < 65536 && t[r][j].pair / 4096 == r
  }

  /** No pair has two slots. */
  ghost predicate SlotsDistinct(t: Table)
  {
    forall r, j, k :: 0 <= r < |t| && 0 <= j < k < |t[r]| ==> t[r][j].pair != t[r][k].pair
  }

  /** Every slot holds the number of occurrences of its pair in s. */
  ghost predicate SlotsCount(t: Table, s: seq<Byte>)
    requires RowsFit(t)
  {
    forall r, j :: 0 <= r < 16 && 0 <= j < |t[r]| ==>
      t[r][j].count >= 1 && t[r][j].count == PairCount(s, Hi(t[r][j].pair), Lo(t[r][j].pair))
  }

  /** Every pair occurring in s has a slot. */
  ghost predicate SlotsComplete(t: Table, s: seq<Byte>)
    requires |t| == 16
  {
    forall a: Byte, b: Byte :: PairCount(s, a, b) >= 1 ==>
      FindIn(t[PairValue(a, b) / 4096], PairValue(a, b)) < |t[PairValue(a, b) / 4096]|
  }

  /** What a table says about s. */
  ghost predicate Describes(t: Table, s: seq<Byte>)
  {
    RowsFit(t) && SlotsDistinct(t) && SlotsCount(t, s) && SlotsComplete(t, s)
  }

  lemma AddPairShape(t: Table, p: nat)
    requires |t| == 16 && p < 65536
    ensures forall r :: 0 <= r < 16 && r != p / 4096 ==> AddPair(t, p)[r] == t[r]
    ensures FindIn(t[p / 4096], p) < |t[p / 4096]| ==>
              AddPair(t, p)[p / 4096]
              == t[p / 4096][FindIn(t[p / 4096], p) := Entry(p, t[p / 4096][FindIn(t[p / 4096], p)].count + 1)]
    ensures FindIn(t[p / 4096], p) == |t[p / 4096]| ==> AddPair(t, p)[p / 4096] == t[p / 4096] + [Entry(p, 1)]
  {
  }

  lemma AddPairFits(t: Table, p: nat)
    requires RowsFit(t) && p < 65536
    ensures RowsFit(AddPair(t, p))
  {
    AddPairShape(t, p);
  }

  lemma AddPairDistinct(t: Table, p: nat)
    requires RowsFit(t) && SlotsDistinct(t) && p < 65536
    ensures SlotsDistinct(AddPair(t, p))
  {
    AddPairShape(t, p);
    var t': seq<seq<Entry>> := AddPair(t, p);
    var r := p / 4096;
    forall r': int, j: int, k: int | 0 <= r' < |t'| && 0 <= j < k < |t'[r']| ensures t'[r'][j].pair != t'[r'][k].pair {
      if r' == r && k == |t[r]| {
        assert t'[r'][j] == t[r][j];
      }
    }
  }

  /** One more counted position, holding the last pair of s: the slot of
      that pair goes up by one and every other slot keeps its count. */
  lemma AddPairSlot(t: Table, s: seq<Byte>, r: int, j: int)
    requires |s| >= 2
    requires RowsFit(t) && SlotsDistinct(t) && SlotsCount(t, s[..|s| - 1]) && SlotsComplete(t, s[..|s| - 1])
    requires RowsFit(AddPair(t, PairValue(s[|s| - 2], s[|s| - 1])))
    requires 0 <= r < 16 && 0 <= j < |AddPair(t, PairValue(s[|s| - 2], s[|s| - 1]))[r]|
    ensures var e := AddPair(t, PairValue(s[|s| - 2], s[|s| - 1]))[r][j];
            e.count >= 1 && e.count == PairCount(s, Hi(e.pair), Lo(e.pair))
  {
    var p := PairValue(s[|s| - 2], s[|s| - 1]);
    if r == p / 4096 && j == FindIn(t[p / 4096], p) {
      AddPairSlotBumped(t, s, r, j);
    } else {
      AddPairSlotKept(t, s, r, j);
    }
  }

  /** The slot of the added pair counts one more occurrence. */
  lemma AddPairSlotBumped(t: Table, s: seq<Byte>, r: int, j: int)
    requires |s| >= 2
    requires RowsFit(t) && SlotsCount(t, s[..|s| - 1]) && SlotsComplete(t, s[..|s| - 1])
    requires var p := PairValue(s[|s| - 2], s[|s| - 1]);
             r == p / 4096 && j == FindIn(t[p / 4096], p) && j < |AddPair(t, p)[r]|
    ensures var e := AddPair(t, PairValue(s[|s| - 2], s[|s| - 1]))[r][j];
            e.count >= 1 && e.count == PairCount(s, Hi(e.pair), Lo(e.pair))
  {
    var x, y := s[|s| - 2], s[|s| - 1];
    var p := PairValue(x, y);
    HiLoOfPair(x, y);
    AddPairShape(t, p);
    if j == |t[r]| {
      assert PairCount(s[..|s| - 1], x, y) == 0;
    }
    assert AddPair(t, p)[r][j].pair == p;
  }

  /** Every other slot keeps its entry, and its pair does not occur at the
      added position. */
  lemma AddPairSlotKept(t: Table, s: seq<Byte>, r: int, j: int)
    requires |s| >= 2
    requires RowsFit(t) && SlotsDistinct(t) && SlotsCount(t, s[..|s| - 1])
    requires 0 <= r < 16 && 0 <= j < |AddPair(t, PairValue(s[|s| - 2], s[|s| - 1]))[r]|
    requires var p := PairValue(s[|s| - 2], s[|s| - 1]);
             r != p / 4096 || j != FindIn(t[p / 4096], p)
    ensures var e := AddPair(t, PairValue(s[|s| - 2], s[|s| - 1]))[r][j];
            e.count >= 1 && e.count == PairCount(s, Hi(e.pair), Lo(e.pair))
  {
    var x, y := s[|s| - 2], s[|s| - 1];
    var p := PairValue(x, y);
    AddPairShape(t, p);
    var e := AddPair(t, p)[r][j];
    assert e == t[r][j];
    assert e.pair != p;
    PairOfHiLo(e.pair);
    HiLoOfPair(x, y);
    assert Hi(e.pair) != x || Lo(e.pair) != y;
  }

  lemma AddPairCounts(t: Table, s: seq<Byte>)
    requires |s| >= 2
    requires RowsFit(t) && SlotsDistinct(t) && SlotsCount(t, s[..|s| - 1]) && SlotsComplete(t, s[..|s| - 1])
    ensures RowsFit(AddPair(t, PairValue(s[|s| - 2], s[|s| - 1])))
    ensures SlotsCount(AddPair(t, PairValue(s[|s| - 2], s[|s| - 1])), s)
  {
    var p := PairValue(s[|s| - 2], s[|s| - 1]);
    AddPairFits(t, p);
    var t': seq<seq<Entry>> := AddPair(t, p);
    forall r: int, j: int | 0 <= r < 16 && 0 <= j < |t'[r]|
      ensures t'[r][j].count >= 1 && t'[r][j].count == PairCount(s, Hi(t'[r][j].pair), Lo(t'[r][j].pair))
    {
      AddPairSlot(t, s, r, j);
    }
  }

  lemma AddPairComplete(t: Table, s: seq<Byte>)
    requires |s| >= 2
    requires |t| == 16 && SlotsComplete(t, s[..|s| - 1])
    ensures SlotsComplete(AddPair(t, PairValue(s[|s| - 2], s[|s| - 1])), s)
  {
    var x, y := s[|s| - 2], s[|s| - 1];
    var p := PairValue(x, y);
    AddPairShape(t, p);
    var t': seq<seq<Entry>> := AddPair(t, p);
    var jp := FindIn(t[p / 4096], p);
    forall a: Byte, b: Byte | PairCount(s, a, b) >= 1
      ensures FindIn(t'[PairValue(a, b) / 4096], PairValue(a, b)) < |t'[PairValue(a, b) / 4096]|
    {
      var q := PairValue(a, b);
      if q == p {
        assert t'[p / 4096][jp].pair == p;
      } else {
        assert a != x || b != y;
        assert PairCount(s[..|s| - 1], a, b) >= 1;
        var jq := FindIn(t[q / 4096], q);
        assert t'[q / 4096][jq].pair == q;
      }
    }
  }

  lemma {:induction false} CountTableDescribes(s: seq<Byte>)
    ensures Describes(CountTable(s), s)
    decreases |s|
  {
    if |s| >= 2 {
      var s0 := s[..|s| - 1];
      var t0 := CountTable(s0);
      var t := AddPair(t0, PairValue(s[|s| - 2], s[|s| - 1]));
      assert Describes(t0, s0) by {
        CountTableDescribes(s0);
      }
      assert RowsFit(t) && SlotsCount(t, s) by {
        AddPairCounts(t0, s);
      }
      assert SlotsComplete(t, s) by {
        AddPairComplete(t0, s);
      }
      assert SlotsDistinct(t) by {
        AddPairDistinct(t0, PairValue(s[|s| - 2], s[|s| - 1]));
      }
      assert CountTable(s) == t;
    }
  }

  /** The table's slots in the order compressBlock visits them: row 0 first,
      each row front to back. */
  function Flatten(t: seq<seq<Entry>>): seq<Entry>
  {
    if t == [] then [] else Flatten(t[..|t| - 1]) + t[|t| - 1]
  }

  // ---------------------------------------------------------------------
  // Choosing the pair: the running maximum and its signed-short tie-break

  /** The unsigned short p stored in a (signed) short, as two's complement. */
  function Signed16(p: nat): int
    requires p < 65536
  {
    if p < 0x8000 then p else p - 0x10000
  }

  /** The short s read back as an unsigned short. */
  function Unsigned16(s: int): nat
    requires -0x8000 <= s < 0x8000
  {
    if s < 0 then s + 0x10000 else s
  }

  /** State of the search for the most frequent pair: the best count so far
      (`max`, starting at -1) and the best pair held in a signed short
      (`best`, starting at 0). */
  datatype Pick = Pick(max: int, best: int)

  /** One step of the search: a larger count wins; an equal count wins when
      its pair compares below the signed value held so far. */
  function Consider(pk: Pick, e: Entry): Pick
    requires e.pair < 65536
  {
    if e.count > pk.max then Pick(e.count, Signed16(e.pair))
    else if e.count == pk.max && e.pair < pk.best then Pick(pk.max, Signed16(e.pair))
    else pk
  }

  ghost predicate PairsFit(es: seq<Entry>)
  {
    forall i :: 0 <= i < |es| ==> es[i].pair < 65536
  }

  /** The search over the slots es, in order. */
  function SelectPick(es: seq<Entry>): Pick
    requires PairsFit(es)
  {
    if es == [] then Pick(-1, 0) else Consider(SelectPick(es[..|es| - 1]), es[|es| - 1])
  }

  /** Slots with a pair whose first byte is 0x80 or more come after every
      slot whose first byte is below 0x80 (true of the table's row order). */
  ghost predicate HighAfterLow(es: seq<Entry>)
  {
    forall i, j :: 0 <= i < j < |es| && es[i].pair >= 0x8000 ==> es[j].pair >= 0x8000
  }

  /** What the search finds.  The count kept is the largest count; the pair
      kept has that count; when some pair with the largest count has a first
      byte below 0x80, the pair kept is the numerically smallest pair with
      the largest count; otherwise it is the first slot with that count. */
  lemma SelectPickSpec(es: seq<Entry>)
    requires PairsFit(es) && HighAfterLow(es)
    requires forall i :: 0 <= i < |es| ==> es[i].count >= 1
    ensures es == [] ==> SelectPick(es) == Pick(-1, 0)
    ensures es != [] ==> 1 <= SelectPick(es).max && -0x8000 <= SelectPick(es).best < 0x8000
    ensures forall i :: 0 <= i < |es| ==> es[i].count <= SelectPick(es).max
    ensures es != [] ==> exists w :: 0 <= w < |es| && es[w].count == SelectPick(es).max
                                      && Signed16(es[w].pair) == SelectPick(es).best
    ensures SelectPick(es).best >= 0 ==>
              forall i :: 0 <= i < |es| && es[i].count == SelectPick(es).max ==> SelectPick(es).best <= es[i].pair
    ensures SelectPick(es).best < 0 ==>
              (forall i :: 0 <= i < |es| && es[i].count == SelectPick(es).max ==> es[i].pair >= 0x8000)
              && exists w :: 0 <= w < |es| && es[w].count == SelectPick(es).max
                             && Signed16(es[w].pair) == SelectPick(es).best
                             && forall i :: 0 <= i < w ==> es[i].count < SelectPick(es).max
  {
    SelectPickMax(es);
    SelectPickTie(es);
  }

  /** The search ends on the largest count, held by a slot whose pair it
      keeps as a signed short. */
  lemma {:induction false} SelectPickMax(es: seq<Entry>)
    requires PairsFit(es)
    requires forall i :: 0 <= i < |es| ==> es[i].count >= 1
    ensures es == [] ==> SelectPick(es) == Pick(-1, 0)
    ensures es != [] ==> 1 <= SelectPick(es).max && -0x8000 <= SelectPick(es).best < 0x8000
    ensures forall i :: 0 <= i < |es| ==> es[i].count <= SelectPick(es).max
    ensures es != [] ==> exists w :: 0 <= w < |es| && es[w].count == SelectPick(es).max
                                      && Signed16(es[w].pair) == SelectPick(es).best
    decreases |es|
  {
    if es != [] {
      var n := |es| - 1;
      var init := es[..n];
      assert PairsFit(init);
      SelectPickMax(init);
      var pk := SelectPick(init);
      var e := es[n];
      assert SelectPick(es) == Consider(pk, e);
      forall i | 0 <= i < n ensures es[i] == init[i] { }
      if init != [] {
        var w :| 0 <= w < n && init[w].count == pk.max && Signed16(init[w].pair) == pk.best;
        assert es[w] == init[w];
      }
    }
  }

  /** How the signed-short tie-break resolves equal counts. */
  lemma {:induction false} SelectPickTie(es: seq<Entry>)
    requires PairsFit(es) && HighAfterLow(es)
    requires forall i :: 0 <= i < |es| ==> es[i].count >= 1
    ensures SelectPick(es).best >= 0 ==>
              forall i :: 0 <= i < |es| && es[i].count == SelectPick(es).max ==> SelectPick(es).best <= es[i].pair
    ensures SelectPick(es).best < 0 ==>
              (forall i :: 0 <= i < |es| && es[i].count == SelectPick(es).max ==> es[i].pair >= 0x8000)
              && exists w :: 0 <= w < |es| && es[w].count == SelectPick(es).max
                             && Signed16(es[w].pair) == SelectPick(es).best
                             && forall i :: 0 <= i < w ==> es[i].count < SelectPick(es).max
    decreases |es|
  {
    if es != [] {
      var n := |es| - 1;
      var init := es[..n];
      assert PairsFit(init) && HighAfterLow(init);
      SelectPickMax(init);
      SelectPickTie(init);
      var pk := SelectPick(init);
      var e := es[n];
      var pk' := SelectPick(es);
      assert pk' == Consider(pk, e);
      forall i | 0 <= i < n ensures es[i] == init[i] { }
      if e.count > pk.max {
        assert pk' == Pick(e.count, Signed16(e.pair));
        assert forall i :: 0 <= i < n ==> es[i].count < pk'.max;
      } else if e.count == pk.max && e.pair < pk.best {
        assert pk' == Pick(pk.max, Signed16(e.pair));
        assert pk.best >= 0 && pk'.best == e.pair;
      } else {
        assert pk' == pk;
        if n == 0 {
          assert false;
        }
        if pk.best >= 0 {
          forall i | 0 <= i < |es| && es[i].count == pk'.max ensures pk'.best <= es[i].pair {
            if i == n {
              assert e.pair >= pk.best;
            }
          }
        } else {
          var w :| 0 <= w < n && init[w].count == pk.max && Signed16(init[w].pair) == pk.best
                   && forall i :: 0 <= i < w ==> init[i].count < pk.max;
          assert es[w].pair >= 0x8000;
          assert e.pair >= 0x8000;
        }
      }
    }
  }

  /** The pair chosen in one round and its count (-1 when the block has no
      pair at all). */
  datatype Choice = Choice(max: int, first: Byte, second: Byte)

  function ChooseFrom(pk: Pick): Choice
    requires -0x8000 <= pk.best < 0x8000
  {
    Choice(pk.max, Hi(Unsigned16(pk.best)), Lo(Unsigned16(pk.best)))
  }

  /** Every slot of the flattened table comes from some row. */
  lemma {:induction false} FlattenFrom(t: seq<seq<Entry>>, i: nat)
    requires i < |Flatten(t)|
    ensures exists r, j :: 0 <= r < |t| && 0 <= j < |t[r]| && Flatten(t)[i] == t[r][j]
    decreases |t|
  {
    var n := |t| - 1;
    var f0 := Flatten(t[..n]);
    assert Flatten(t) == f0 + t[n];
    if i < |f0| {
      FlattenFrom(t[..n], i);
      var r, j :| 0 <= r < n && 0 <= j < |t[..n][r]| && f0[i] == t[..n][r][j];
      assert t[..n][r] == t[r];
      assert Flatten(t)[i] == t[r][j];
    } else {
      var j := i - |f0|;
      assert 0 <= n < |t| && 0 <= j < |t[n]| && Flatten(t)[i] == t[n][j];
    }
  }

  /** Every slot of every row is in the flattened table, at position i. */
  lemma {:induction false} FlattenHas(t: seq<seq<Entry>>, r: nat, j: nat) returns (i: nat)
    requires r < |t| && j < |t[r]|
    ensures i < |Flatten(t)| && Flatten(t)[i] == t[r][j]
    decreases |t|
  {
    var n := |t| - 1;
    var f0 := Flatten(t[..n]);
    assert Flatten(t) == f0 + t[n];
    if r < n {
      i := FlattenHas(t[..n], r, j);
      assert t[r][j] == t[..n][r][j];
    } else {
      i := |f0| + j;
    }
  }

  /** Flattening rows keyed by their index keeps the keys in order. */
  lemma {:induction false} FlattenOrdered(t: seq<seq<Entry>>)
    requires forall r, j :: 0 <= r < |t| && 0 <= j < |t[r]| ==> t[r][j].pair / 4096 == r
    ensures forall i, k :: 0 <= i < k < |Flatten(t)| ==> Flatten(t)[i].pair / 4096 <= Flatten(t)[k].pair / 4096
    ensures forall i :: 0 <= i < |Flatten(t)| ==> Flatten(t)[i].pair / 4096 < |t|
    decreases |t|
  {
    if t != [] {
      var n := |t| - 1;
      FlattenOrdered(t[..n]);
      var f0 := Flatten(t[..n]);
      assert Flatten(t) == f0 + t[n];
    }
  }

  /** The search over the counting table of s, in the table's order. */
  function BestPair(s: seq<Byte>): (c: Choice)
  {
    var es := TableOrder(s);
    CountTableFlat(s);
    var pk := SelectPick(es);
    SelectPickSpec(es);
    ChooseFrom(pk)
  }

  /** The flattened table of s satisfies what SelectPickSpec needs, and its
      slots are exactly the pairs of s with their counts. */
  lemma FlatSlotOf(t: Table, s: seq<Byte>, a: Byte, b: Byte) returns (i: nat)
    requires |t| == 16 && SlotsComplete(t, s) && PairCount(s, a, b) >= 1
    ensures i < |Flatten(t)| && Flatten(t)[i].pair == PairValue(a, b)
  {
    var q := PairValue(a, b);
    var j := FindIn(t[q / 4096], q);
    i := FlattenHas(t, q / 4096, j);
  }

  /** The slots of the counting table of s in the order they are visited. */
  function TableOrder(s: seq<Byte>): seq<Entry>
  {
    Flatten(CountTable(s))
  }

  lemma CountTableFlat(s: seq<Byte>)
    ensures PairsFit(TableOrder(s)) && HighAfterLow(TableOrder(s))
    ensures forall i :: 0 <= i < |TableOrder(s)| ==>
              TableOrder(s)[i].count >= 1
              && TableOrder(s)[i].count == PairCount(s, Hi(TableOrder(s)[i].pair), Lo(TableOrder(s)[i].pair))
    ensures forall a: Byte, b: Byte :: PairCount(s, a, b) >= 1 ==>
              exists i :: 0 <= i < |TableOrder(s)| && TableOrder(s)[i].pair == PairValue(a, b)
    ensures |s| < 2 ==> TableOrder(s) == []
  {
    FlatSlots(s);
    FlatOrder(s);
    FlatComplete(s);
  }

  /** Each slot of the flattened table holds a pair of s and its count. */
  lemma FlatSlots(s: seq<Byte>)
    ensures PairsFit(TableOrder(s))
    ensures forall i :: 0 <= i < |TableOrder(s)| ==>
              TableOrder(s)[i].count >= 1
              && TableOrder(s)[i].count == PairCount(s, Hi(TableOrder(s)[i].pair), Lo(TableOrder(s)[i].pair))
    ensures |s| < 2 ==> TableOrder(s) == []
  {
    var t := CountTable(s);
    var es := TableOrder(s);
    CountTableDescribes(s);
    forall i | 0 <= i < |es|
      ensures es[i].pair < 65536 && es[i].count >= 1
      ensures es[i].count == PairCount(s, Hi(es[i].pair), Lo(es[i].pair))
    {
      FlattenFrom(t, i);
      var r, j :| 0 <= r < |t| && 0 <= j < |t[r]| && es[i] == t[r][j];
    }
    if |es| > 0 {
      assert es[0].count >= 1;
    }
  }

  /** The flattened table lists the pairs by row, so high first bytes come
      last. */
  lemma FlatOrder(s: seq<Byte>)
    ensures HighAfterLow(TableOrder(s))
  {
    var t := CountTable(s);
    var es := TableOrder(s);
    CountTableDescribes(s);
    FlattenOrdered(t);
    forall i, k | 0 <= i < k < |es| && es[i].pair >= 0x8000 ensures es[k].pair >= 0x8000 {
      assert es[i].pair / 4096 <= es[k].pair / 4096;
      assert es[i].pair / 4096 >= 8;
    }
  }

  /** Every pair of s has a slot in the flattened table. */
  lemma FlatComplete(s: seq<Byte>)
    ensures forall a: Byte, b: Byte :: PairCount(s, a, b) >= 1 ==>
              exists i :: 0 <= i < |TableOrder(s)| && TableOrder(s)[i].pair == PairValue(a, b)
  {
    var t := CountTable(s);
    var es := TableOrder(s);
    CountTableDescribes(s);
    forall a: Byte, b: Byte | PairCount(s, a, b) >= 1
      ensures exists i :: 0 <= i < |es| && es[i].pair == PairValue(a, b)
    {
      var i := FlatSlotOf(t, s, a, b);
    }
  }

  /** The chosen pair is a most frequent pair of s; when some most frequent
      pair has a first byte below 0x80, the chosen pair is the smallest
      first<<8|second among the most frequent pairs. */
  lemma BestPairIsMostFrequent(s: seq<Byte>)
    ensures BestPair(s).max >= 1 <==> |s| >= 2
    ensures |s| >= 2 ==> PairCount(s, BestPair(s).first, BestPair(s).second) == BestPair(s).max
    ensures |s| >= 2 ==> forall a: Byte, b: Byte :: PairCount(s, a, b) <= BestPair(s).max
    ensures |s| >= 2 ==> forall a: Byte, b: Byte :: PairCount(s, a, b) == BestPair(s).max && a < 0x80 ==>
              PairValue(BestPair(s).first, BestPair(s).second) <= PairValue(a, b)
  {
    if |s| < 2 {
      assert TableOrder(s) == [] by {
        FlatSlots(s);
      }
      assert SelectPick([]) == Pick(-1, 0);
    } else {
      BestPairLong(s);
    }
  }

  /** BestPairIsMostFrequent for a block with at least one pair. */
  lemma BestPairLong(s: seq<Byte>)
    requires |s| >= 2
    ensures BestPair(s).max >= 1
    ensures PairCount(s, BestPair(s).first, BestPair(s).second) == BestPair(s).max
    ensures forall a: Byte, b: Byte :: PairCount(s, a, b) <= BestPair(s).max
    ensures forall a: Byte, b: Byte :: PairCount(s, a, b) == BestPair(s).max && a < 0x80 ==>
              PairValue(BestPair(s).first, BestPair(s).second) <= PairValue(a, b)
  {
    BestPairMax(s);
    BestPairTie(s);
  }

  /** The chosen pair occurs as often as the reported count, and no pair
      occurs more often. */
  lemma BestPairMax(s: seq<Byte>)
    requires |s| >= 2
    ensures BestPair(s).max >= 1
    ensures PairCount(s, BestPair(s).first, BestPair(s).second) == BestPair(s).max
    ensures forall a: Byte, b: Byte :: PairCount(s, a, b) <= BestPair(s).max
  {
    var es := TableOrder(s);
    FlatSlots(s);
    FlatComplete(s);
    assert es != [] by {
      PairCountFront(s, s[0], s[1]);
      assert PairCount(s, s[0], s[1]) >= 1;
    }
    var w := PickWitness(es);
    SelectPickMax(es);
    var pk := SelectPick(es);
    var v := es[w].pair;
    assert Unsigned16(Signed16(v)) == v;
    PairOfHiLo(v);
    SlotMaxIsPairMax(s, es, pk.max);
  }

  /** Among the most frequent pairs, the chosen one is the smallest when
      some most frequent pair has a first byte below 0x80. */
  lemma BestPairTie(s: seq<Byte>)
    requires |s| >= 2
    ensures forall a: Byte, b: Byte :: PairCount(s, a, b) == BestPair(s).max && a < 0x80 ==>
              PairValue(BestPair(s).first, BestPair(s).second) <= PairValue(a, b)
  {
    var es := TableOrder(s);
    FlatSlots(s);
    FlatComplete(s);
    FlatOrder(s);
    assert es != [] by {
      PairCountFront(s, s[0], s[1]);
      assert PairCount(s, s[0], s[1]) >= 1;
    }
    var w := PickWitness(es);
    SelectPickMax(es);
    SelectPickTie(es);
    var pk := SelectPick(es);
    var v := es[w].pair;
    assert Unsigned16(Signed16(v)) == v;
    PairOfHiLo(v);
    SlotTieIsPairTie(s, es, pk.max, v);
  }


  /** A slot holding the count and the pair the search picks. */
  lemma PickWitness(es: seq<Entry>) returns (w: nat)
    requires es != [] && PairsFit(es)
    requires forall i :: 0 <= i < |es| ==> es[i].count >= 1
    ensures w < |es| && es[w].count == SelectPick(es).max && Signed16(es[w].pair) == SelectPick(es).best
  {
    SelectPickMax(es);
    w :| 0 <= w < |es| && es[w].count == SelectPick(es).max && Signed16(es[w].pair) == SelectPick(es).best;
  }


  /** No pair of s occurs more often than the largest slot count. */
  lemma SlotMaxIsPairMax(s: seq<Byte>, es: seq<Entry>, m: int)
    requires PairsFit(es)
    requires forall i :: 0 <= i < |es| ==> es[i].count == PairCount(s, Hi(es[i].pair), Lo(es[i].pair))
    requires forall a: Byte, b: Byte :: PairCount(s, a, b) >= 1 ==> exists i :: 0 <= i < |es| && es[i].pair == PairValue(a, b)
    requires m >= 1 && forall i :: 0 <= i < |es| ==> es[i].count <= m
    ensures forall a: Byte, b: Byte :: PairCount(s, a, b) <= m
  {
    forall a: Byte, b: Byte ensures PairCount(s, a, b) <= m {
      if PairCount(s, a, b) >= 1 {
        var i :| 0 <= i < |es| && es[i].pair == PairValue(a, b);
        HiLoOfPair(a, b);
      }
    }
  }

  /** A most frequent pair with a first byte below 0x80 is no smaller than
      the pair held when the held pair is itself below 0x8000, and there
      is none when the held pair is not. */
  lemma SlotTieIsPairTie(s: seq<Byte>, es: seq<Entry>, m: int, v: nat)
    requires PairsFit(es)
    requires forall i :: 0 <= i < |es| ==> es[i].count == PairCount(s, Hi(es[i].pair), Lo(es[i].pair))
    requires forall a: Byte, b: Byte :: PairCount(s, a, b) >= 1 ==> exists i :: 0 <= i < |es| && es[i].pair == PairValue(a, b)
    requires m >= 1
    requires v < 0x8000 ==> forall i :: 0 <= i < |es| && es[i].count == m ==> v <= es[i].pair
    requires v >= 0x8000 ==> forall i :: 0 <= i < |es| && es[i].count == m ==> es[i].pair >= 0x8000
    ensures forall a: Byte, b: Byte :: PairCount(s, a, b) == m && a < 0x80 ==> v <= PairValue(a, b)
  {
    forall a: Byte, b: Byte | PairCount(s, a, b) == m && a < 0x80
      ensures v <= PairValue(a, b)
    {
      var i :| 0 <= i < |es| && es[i].pair == PairValue(a, b);
      HiLoOfPair(a, b);
    }
  }

  // ---------------------------------------------------------------------
  // Choosing the code

  /** The lowest byte value not in `used`, scanning 0x00 upward. */
  function LowestFree(used: set<Byte>): (r: Option<Byte>)
    ensures r.Some? ==> r.value !in used && forall v: Byte :: v < r.value ==> v in used
    ensures r.None? ==> forall v: Byte :: v in used
  {
    LowestFreeFrom(used, 0)
  }

  function LowestFreeFrom(used: set<Byte>, v: nat): (r: Option<Byte>)
    requires v <= 256
    ensures r.Some? ==> v <= r.value && r.value !in used && forall u: Byte :: v <= u < r.value ==> u in used
    ensures r.None? ==> forall u: Byte :: v <= u ==> u in used
    decreases 256 - v
  {
    if v == 256 then None
    else if v !in used then Some(v)
    else LowestFreeFrom(used, v + 1)
  }

  // ---------------------------------------------------------------------
  // Replacing and expanding

  /** Replace every non-overlapping occurrence of (a, b), left to right,
      by the single byte c. */
  function Replace(s: seq<Byte>, a: Byte, b: Byte, c: Byte): (r: seq<Byte>)
    ensures |r| <= |s|
    ensures |s| >= 1 ==> |r| >= 1
    ensures Elems(r) <= Elems(s) + {c}
  {
    if |s| < 2 then s
    else if s[0] == a && s[1] == b then
      var rest := Replace(s[2..], a, b, c);
      assert Elems(s[2..]) <= Elems(s);
      assert Elems([c] + rest) <= {c} + Elems(rest);
      [c] + rest
    else
      var rest := Replace(s[1..], a, b, c);
      assert Elems(s[1..]) <= Elems(s);
      assert Elems([s[0]] + rest) <= {s[0]} + Elems(rest);
      [s[0]] + rest
  }

  /** A pair that occurs gets replaced at least once, so the block shrinks. */
  lemma {:induction false} ReplaceShrinks(s: seq<Byte>, a: Byte, b: Byte, c: Byte)
    requires PairCount(s, a, b) >= 1
    ensures |Replace(s, a, b, c)| < |s|
    decreases |s|
  {
    PairCountFront(s, a, b);
    if !(s[0] == a && s[1] == b) {
      ReplaceShrinks(s[1..], a, b, c);
    }
  }

  /** Expand every occurrence of r.code into r.first, r.second, scanning
      left to right and resuming at the second byte written, as
      uncompressBlock's in-place loop does.  `room` is how many more bytes
      the block can take; running out of room is a failure. */
  function ExpandRule(s: seq<Byte>, r: Rule, room: nat): (res: Option<seq<Byte>>)
    ensures res.Some? ==> |s| <= |res.value| <= |s| + room
    decreases room, |s|
  {
    if s == [] then Some([])
    else if s[0] == r.code then
      if room == 0 then None
      else match ExpandRule([r.second] + s[1..], r, room - 1)
        case None => None
        case Some(t) => Some([r.first] + t)
    else match ExpandRule(s[1..], r, room)
      case None => None
      case Some(t) => Some([s[0]] + t)
  }

  /** uncompressBlock's scan as written: it runs while `j < len - 1`, so
      the byte at the end of the block is never looked at, and a code there
      stays unexpanded. */
  function ExpandRuleAsWritten(s: seq<Byte>, r: Rule, room: nat): Option<seq<Byte>>
  {
    if s == [] then Some([])
    else match ExpandRule(s[..|s| - 1], r, room)
      case None => None
      case Some(t) => Some(t + [s[|s| - 1]])
  }

  /** "ABABAB" compresses to the bytes 00 00 00 with the rule 00 -> 41 42;
      the scan as written gives back "ABAB" and a stray 00, the full scan
      gives back "ABABAB". */
  lemma LastCodeNotExpanded()
    ensures ExpandRuleAsWritten([0, 0, 0], Rule(0, 0x41, 0x42), 3) == Some([0x41, 0x42, 0x41, 0x42, 0])
    ensures ExpandRule([0, 0, 0], Rule(0, 0x41, 0x42), 3) == Some([0x41, 0x42, 0x41, 0x42, 0x41, 0x42])
  {
    var r := Rule(0, 0x41, 0x42);
    var s3, s2, s1: seq<Byte> := [0, 0, 0], [0, 0], [0];
    var t2, t1, t0: seq<Byte> := [0x42, 0, 0], [0x42, 0], [0x42];
    assert s3[1..] == s2 && s2[1..] == s1 && s1[1..] == [] && s3[..2] == s2;
    assert t2[1..] == s2 && t1[1..] == s1 && t0[1..] == [];
    assert [0x42] + s2 == t2 && [0x42] + s1 == t1 && [0x42] + [] == t0;
    assert [r.second] + s2 == t2 && [r.second] + s1 == t1 && [r.second] + s1[1..] == t0;
    var u1, v1, u2, v2: seq<Byte> := [0x41, 0x42], [0x42, 0x41, 0x42], [0x41, 0x42, 0x41, 0x42], [0x42, 0x41, 0x42, 0x41, 0x42];
    assert [0x41] + t0 == u1 && [0x42] + u1 == v1 && [0x41] + v1 == u2 && [0x42] + u2 == v2;
    assert [0x41] + v2 == [0x41, 0x42, 0x41, 0x42, 0x41, 0x42] && u2 + [0] == [0x41, 0x42, 0x41, 0x42, 0];
    // the full scan
    assert ExpandRule(t0, r, 0) == Some(t0);
    assert ExpandRule(s1, r, 1) == Some([0x41, 0x42]);
    assert ExpandRule(t1, r, 1) == Some([0x42, 0x41, 0x42]);
    assert ExpandRule(s2, r, 2) == Some([0x41, 0x42, 0x41, 0x42]);
    assert ExpandRule(t2, r, 2) == Some([0x42, 0x41, 0x42, 0x41, 0x42]);
    // the scan as written
    assert ExpandRule(t0, r, 1) == Some(t0);
    assert ExpandRule(s1, r, 2) == Some([0x41, 0x42]);
    assert ExpandRule(t1, r, 2) == Some([0x42, 0x41, 0x42]);
  }

  /** Bytes without the code come through an expansion unchanged. */
  lemma {:induction false} ExpandAbsent(s: seq<Byte>, r: Rule, room: nat)
    requires r.code !in Elems(s)
    ensures ExpandRule(s, r, room) == Some(s)
    decreases |s|
  {
    if s != [] {
      assert s[0] in Elems(s);
      assert Elems(s[1..]) <= Elems(s);
      ExpandAbsent(s[1..], r, room);
      assert [s[0]] + s[1..] == s;
    }
  }

  /** Expansion undoes replacement when the code did not occur before the
      replacement and the block has room for the bytes removed. */
  lemma {:induction false} ExpandUndoesReplace(s: seq<Byte>, a: Byte, b: Byte, c: Byte, room: nat)
    requires c !in Elems(s)
    requires |s| - |Replace(s, a, b, c)| <= room
    ensures ExpandRule(Replace(s, a, b, c), Rule(c, a, b), room) == Some(s)
    decreases |s|
  {
    var r := Rule(c, a, b);
    if |s| < 2 {
      ExpandAbsent(s, r, room);
    } else {
      assert s[0] != c && s[1] != c by {
        assert s[0] in Elems(s) && s[1] in Elems(s);
      }
      if s[0] == a && s[1] == b {
        assert c !in Elems(s[2..]) by {
          assert Elems(s[2..]) <= Elems(s);
        }
        assert Replace(s, a, b, c) == [c] + Replace(s[2..], a, b, c);
        ExpandUndoesReplace(s[2..], a, b, c, room - 1);
        ExpandHead(Replace(s[2..], a, b, c), r, room, s[2..]);
        assert [a, b] + s[2..] == s;
      } else {
        assert c !in Elems(s[1..]) by {
          assert Elems(s[1..]) <= Elems(s);
        }
        assert Replace(s, a, b, c) == [s[0]] + Replace(s[1..], a, b, c);
        ExpandUndoesReplace(s[1..], a, b, c, room);
        ExpandKeep(s[0], Replace(s[1..], a, b, c), r, room, s[1..]);
        assert [s[0]] + s[1..] == s;
      }
    }
  }

  /** A code at the front expands to its pair. */
  lemma ExpandHead(rest: seq<Byte>, r: Rule, room: nat, t: seq<Byte>)
    requires room >= 1 && r.second != r.code && ExpandRule(rest, r, room - 1) == Some(t)
    ensures ExpandRule([r.code] + rest, r, room) == Some([r.first, r.second] + t)
  {
    var x := [r.code] + rest;
    assert x[0] == r.code && x[1..] == rest;
    var y := [r.second] + rest;
    assert y[0] == r.second && y[1..] == rest;
    assert ExpandRule(y, r, room - 1) == Some([r.second] + t);
    assert [r.first] + ([r.second] + t) == [r.first, r.second] + t;
  }

  /** Any other byte at the front is kept. */
  lemma ExpandKeep(x: Byte, rest: seq<Byte>, r: Rule, room: nat, t: seq<Byte>)
    requires x != r.code && ExpandRule(rest, r, room) == Some(t)
    ensures ExpandRule([x] + rest, r, room) == Some([x] + t)
  {
    assert ([x] + rest)[0] == x && ([x] + rest)[1..] == rest;
  }

  /** Undo a block's rules, the last-created rule first; fails when an
      expansion would take the block past BLOCK_SIZE_LIMIT bytes. */
  function Uncompress(d: seq<Byte>, rules: seq<Rule>): (res: Option<seq<Byte>>)
    requires |d| <= BLOCK_SIZE_LIMIT
    ensures res.Some? ==> |d| <= |res.value| <= BLOCK_SIZE_LIMIT
  {
    if rules == [] then Some(d)
    else match Uncompress(d, rules[1..])
      case None => None
      case Some(t) => ExpandRule(t, rules[0], BLOCK_SIZE_LIMIT - |t|)
  }

  // ---------------------------------------------------------------------
  // Whole-block compression

  /** The result of compressing a block: its final bytes and the rules the
      compression added, in creation order. */
  datatype Compressed = Compressed(data: seq<Byte>, rules: seq<Rule>)

  /** The byte values marked as seen once a round has counted the pairs of
      s: the counting loop marks both bytes of every pair it visits. */
  function Seen(s: seq<Byte>, used: set<Byte>): set<Byte>
  {
    if |s| >= 2 then used + Elems(s) else used
  }

  /** One round of compressBlock on block bytes s, with `used` the codes
      seen or issued so far and `nrules` rules already in the block: the
      rule to add, or None when the round stops because the best pair occurs
      fewer than 3 times, no code is free, or the block holds 255 rules. */
  function Round(s: seq<Byte>, used: set<Byte>, nrules: nat): Option<Rule>
  {
    var ch := BestPair(s);
    if ch.max < REPLACEMENT_THRESHOLD as int then None
    else match LowestFree(Seen(s, used))
      case None => None
      case Some(c) =>
        if nrules >= MAX_RULES then None
        else Some(Rule(c, ch.first, ch.second))
  }

  /** A rule is only made for a pair occurring at least 3 times, in a
      block below the rule capacity, with a code that is neither a byte of
      the block nor an earlier code. */
  lemma RoundMakesRule(s: seq<Byte>, used: set<Byte>, nrules: nat)
    ensures var res := Round(s, used, nrules);
            res.Some? ==> |s| >= 2 && nrules < MAX_RULES
                          && PairCount(s, res.value.first, res.value.second) >= REPLACEMENT_THRESHOLD
                          && res.value.code !in used && res.value.code !in Elems(s)
  {
    BestPairIsMostFrequent(s);
  }

  /** The rule's pair is a most frequent pair of the block and its code is
      the lowest value neither seen nor issued. */
  lemma RoundIsBest(s: seq<Byte>, used: set<Byte>, nrules: nat)
    ensures var res := Round(s, used, nrules);
            res.Some? ==> (forall a: Byte, b: Byte :: PairCount(s, a, b) <= PairCount(s, res.value.first, res.value.second))
                          && forall v: Byte :: v < res.value.code ==> v in Seen(s, used)
  {
    BestPairIsMostFrequent(s);
  }

  /** A round stops only when the best pair occurs fewer than 3 times, the
      block holds 255 rules, or every code is taken. */
  lemma RoundStopReasons(s: seq<Byte>, used: set<Byte>, nrules: nat)
    ensures Round(s, used, nrules).None? ==>
              BestPair(s).max < REPLACEMENT_THRESHOLD as int || nrules >= MAX_RULES || forall v: Byte :: v in Seen(s, used)
  {
  }

  /** One round as written (compress.c:136-159): there is no stop for a
      block whose every value is taken, and the code search then leaves the
      previous rule's code `prev` in place; nor is there a stop at 255
      rules. */
  function RoundAsWritten(s: seq<Byte>, used: set<Byte>, prev: Byte): Option<Rule>
  {
    var ch := BestPair(s);
    if ch.max < REPLACEMENT_THRESHOLD as int then None
    else match LowestFree(Seen(s, used))
      case None => Some(Rule(prev, ch.first, ch.second))
      case Some(c) => Some(Rule(c, ch.first, ch.second))
  }

  /** With every value seen or issued and a pair still occurring 3 times,
      the round as written issues again a code that is already a byte of
      the block or an earlier rule's code, so expansion can no longer tell
      them apart; Round makes no rule there. */
  lemma CodeReusedAsWritten(s: seq<Byte>, used: set<Byte>, nrules: nat, prev: Byte)
    requires BestPair(s).max >= REPLACEMENT_THRESHOLD as int
    requires forall v: Byte :: v in Seen(s, used)
    ensures RoundAsWritten(s, used, prev) == Some(Rule(prev, BestPair(s).first, BestPair(s).second))
    ensures prev in Seen(s, used)
    ensures Round(s, used, nrules).None?
  {
  }

  /** compressBlock from the given state: add rounds until one stops. */
  function CompressFrom(s: seq<Byte>, used: set<Byte>, nrules: nat): (res: Compressed)
    ensures |res.data| <= |s|
    ensures |s| >= 1 ==> |res.data| >= 1
    ensures res.rules != [] ==> |res.data| < |s|
    decreases |s|
  {
    RoundMakesRule(s, used, nrules);
    match Round(s, used, nrules)
    case None => Compressed(s, [])
    case Some(r) =>
      ReplaceShrinks(s, r.first, r.second, r.code);
      var rest := CompressFrom(Replace(s, r.first, r.second, r.code), Seen(s, used) + {r.code}, nrules + 1);
      Compressed(rest.data, [r] + rest.rules)
  }

  /** A round that adds rule r: the rest of the compression runs on the
      replaced bytes, and r comes first in the rules. */
  lemma CompressFromSome(s: seq<Byte>, used: set<Byte>, nrules: nat, r: Rule)
    requires Round(s, used, nrules) == Some(r)
    ensures var rest := CompressFrom(Replace(s, r.first, r.second, r.code), Seen(s, used) + {r.code}, nrules + 1);
            CompressFrom(s, used, nrules) == Compressed(rest.data, [r] + rest.rules)
  {
  }

  /** The codes of a rule list. */
  function Codes(rules: seq<Rule>): set<Byte>
  {
    set i | 0 <= i < |rules| :: rules[i].code
  }

  /** Compression respects the 255-rule capacity. */
  lemma {:induction false} CompressFromCapacity(s: seq<Byte>, used: set<Byte>, nrules: nat)
    requires nrules <= MAX_RULES
    ensures nrules + |CompressFrom(s, used, nrules).rules| <= MAX_RULES
    decreases |s|
  {
    RoundMakesRule(s, used, nrules);
    match Round(s, used, nrules)
    case None =>
    case Some(r) =>
      ReplaceShrinks(s, r.first, r.second, r.code);
      CompressFromCapacity(Replace(s, r.first, r.second, r.code), Seen(s, used) + {r.code}, nrules + 1);
  }

  /** No issued code was seen in the block's bytes or issued before. */
  lemma {:induction false} CompressFromFreshCodes(s: seq<Byte>, used: set<Byte>, nrules: nat)
    ensures Codes(CompressFrom(s, used, nrules).rules) !! (used + Elems(s))
    decreases |s|
  {
    match Round(s, used, nrules)
    case None =>
      assert CompressFrom(s, used, nrules).rules == [];
    case Some(r) =>
      var next := Replace(s, r.first, r.second, r.code);
      var used' := Seen(s, used) + {r.code};
      var rest := CompressFrom(next, used', nrules + 1);
      assert |s| >= 2 && r.code !in used + Elems(s) && |next| < |s| by {
        RoundMakesRule(s, used, nrules);
        ReplaceShrinks(s, r.first, r.second, r.code);
      }
      assert Codes(rest.rules) !! (used + Elems(s)) by {
        CompressFromFreshCodes(next, used', nrules + 1);
      }
      CompressFromSome(s, used, nrules, r);
      CodesCons(r, rest.rules);
  }

  /** The codes of a rule list with one rule in front. */
  lemma CodesCons(r: Rule, rules: seq<Rule>)
    ensures Codes([r] + rules) == {r.code} + Codes(rules)
  {
    var rs := [r] + rules;
    assert rs[0] == r;
    forall c | c in Codes(rules) ensures c in Codes(rs) {
      var i :| 0 <= i < |rules| && rules[i].code == c;
      assert rs[i + 1] == rules[i];
    }
  }

  /** No two rules share a code. */
  ghost predicate DistinctCodes(rules: seq<Rule>)
  {
    forall i, j :: 0 <= i < j < |rules| ==> rules[i].code != rules[j].code
  }

  lemma ConsDistinct(r: Rule, rest: seq<Rule>, issued: set<Byte>)
    requires DistinctCodes(rest) && r.code in issued && Codes(rest) !! issued
    ensures DistinctCodes([r] + rest)
  {
    var rules := [r] + rest;
    forall i, j | 0 <= i < j < |rules| ensures rules[i].code != rules[j].code {
      assert rules[j] == rest[j - 1];
      if i == 0 {
        assert rules[j].code in Codes(rest);
      } else {
        assert rules[i] == rest[i - 1];
      }
    }
  }

  /** The issued codes are pairwise distinct. */
  lemma {:induction false} CompressFromDistinctCodes(s: seq<Byte>, used: set<Byte>, nrules: nat)
    ensures DistinctCodes(CompressFrom(s, used, nrules).rules)
    decreases |s|
  {
    RoundMakesRule(s, used, nrules);
    match Round(s, used, nrules)
    case None =>
    case Some(r) =>
      ReplaceShrinks(s, r.first, r.second, r.code);
      var next := Replace(s, r.first, r.second, r.code);
      var used' := Seen(s, used) + {r.code};
      CompressFromDistinctCodes(next, used', nrules + 1);
      CompressFromFreshCodes(next, used', nrules + 1);
      ConsDistinct(r, CompressFrom(next, used', nrules + 1).rules, used');
  }

  /** Uncompressing with one more (earliest) rule: undo the later rules,
      then expand the earliest one. */
  lemma UncompressCons(d: seq<Byte>, r: Rule, rules: seq<Rule>, t: seq<Byte>, s: seq<Byte>)
    requires |d| <= BLOCK_SIZE_LIMIT
    requires Uncompress(d, rules) == Some(t) && ExpandRule(t, r, BLOCK_SIZE_LIMIT - |t|) == Some(s)
    ensures Uncompress(d, [r] + rules) == Some(s)
  {
    var rs := [r] + rules;
    assert rs != [] && rs[0] == r && rs[1..] == rules;
  }

  /** Uncompressing with one more (earliest) rule fails when that rule's
      expansion does. */
  lemma UncompressConsFails(d: seq<Byte>, r: Rule, rules: seq<Rule>, t: seq<Byte>)
    requires |d| <= BLOCK_SIZE_LIMIT
    requires Uncompress(d, rules) == Some(t) && ExpandRule(t, r, BLOCK_SIZE_LIMIT - |t|) == None
    ensures Uncompress(d, [r] + rules) == None
  {
    var rs := [r] + rules;
    assert rs != [] && rs[0] == r && rs[1..] == rules;
  }

  /** Uncompressing a compressed block gives back the original bytes. */
  lemma {:induction false} CompressFromRoundTrip(s: seq<Byte>, used: set<Byte>, nrules: nat)
    requires |s| <= BLOCK_SIZE_LIMIT
    ensures Uncompress(CompressFrom(s, used, nrules).data, CompressFrom(s, used, nrules).rules) == Some(s)
    decreases |s|, 1
  {
    match Round(s, used, nrules)
    case None =>
    case Some(r) =>
      RoundTripStep(s, used, nrules, r);
  }

  /** The round-trip step for a round that adds rule r: the rest of the
      compression round-trips, and expanding r undoes the replacement. */
  lemma {:induction false} RoundTripStep(s: seq<Byte>, used: set<Byte>, nrules: nat, r: Rule)
    requires |s| <= BLOCK_SIZE_LIMIT && Round(s, used, nrules) == Some(r)
    ensures Uncompress(CompressFrom(s, used, nrules).data, CompressFrom(s, used, nrules).rules) == Some(s)
    decreases |s|, 0
  {
    var next := Replace(s, r.first, r.second, r.code);
    var used' := Seen(s, used) + {r.code};
    RoundShrinks(s, used, nrules, r);
    var rest := CompressFrom(next, used', nrules + 1);
    CompressFromRoundTrip(next, used', nrules + 1);
    ExpandUndoesRound(s, r, BLOCK_SIZE_LIMIT - |next|);
    UncompressCons(rest.data, r, rest.rules, next, s);
    CompressFromSome(s, used, nrules, r);
  }

  /** A round's rule occurs in the block and its code does not. */
  lemma RoundShrinks(s: seq<Byte>, used: set<Byte>, nrules: nat, r: Rule)
    requires Round(s, used, nrules) == Some(r)
    ensures |Replace(s, r.first, r.second, r.code)| < |s| && r.code !in Elems(s)
  {
    RoundMakesRule(s, used, nrules);
    ReplaceShrinks(s, r.first, r.second, r.code);
  }

  /** ExpandUndoesReplace, stated for a rule value. */
  lemma ExpandUndoesRound(s: seq<Byte>, r: Rule, room: nat)
    requires r.code !in Elems(s)
    requires |s| - |Replace(s, r.first, r.second, r.code)| <= room
    ensures ExpandRule(Replace(s, r.first, r.second, r.code), r, room) == Some(s)
  {
    ExpandUndoesReplace(s, r.first, r.second, r.code, room);
  }

  /** compressBlock applied to raw block bytes s (no rules yet, no byte
      value seen yet). */
  function CompressBlockSpec(s: seq<Byte>): Compressed
  {
    CompressFrom(s, {}, 0)
  }

  /** The block round trip: for every block of at most 16384 bytes,
      uncompress(compress(s)) == s, with at most 255 rules. */
  lemma BlockRoundTrip(s: seq<Byte>)
    requires |s| <= BLOCK_SIZE_LIMIT
    ensures |CompressBlockSpec(s).rules| <= MAX_RULES
    ensures Uncompress(CompressBlockSpec(s).data, CompressBlockSpec(s).rules) == Some(s)
  {
    CompressFromCapacity(s, {}, 0);
    CompressFromRoundTrip(s, {}, 0);
  }
}
