/** The Block of Homeworks/proj/compress.h and the compress.c operations on
    it: serializeBlock, deserializeBlock, compressBlock and uncompressBlock,
    each working in place on the block's fixed-size data array and proved
    against the specification functions of modules Bpe and BlockWire. */
module BlockCodec {
  import opened ByteBuffer
  import opened Wrappers
  import opened Bpe
  import opened BlockWire

  /** The counting rows written as one sequence of slots. */
  lemma FlattenSnoc(rows: seq<seq<Entry>>, i: nat)
    requires i < |rows|
    ensures Flatten(rows[..i + 1]) == Flatten(rows[..i]) + rows[i]
  {
    assert rows[..i + 1][..i] == rows[..i];
  }

  lemma SelectPickSnoc(es: seq<Entry>, e: Entry)
    requires PairsFit(es) && e.pair < 65536
    ensures PairsFit(es + [e])
    ensures SelectPick(es + [e]) == Consider(SelectPick(es), e)
  {
    assert (es + [e])[..|es|] == es;
  }

  /** The search for the most frequent pair in compressBlock: rows 0 to 15,
      each from its first slot, keeping the larger count and, on equal
      counts, the pair that compares below the signed short held so far. */
  method SelectPair(rows: seq<seq<Entry>>) returns (max: int, best: int)
    requires RowsFit(rows)
    ensures PairsFit(Flatten(rows))
    ensures Pick(max, best) == SelectPick(Flatten(rows))
    ensures -0x8000 <= best < 0x8000
  {
    max, best := -1, 0;
    var i := 0;
    while i < 16
      invariant 0 <= i <= 16
      invariant PairsFit(Flatten(rows[..i]))
      invariant Pick(max, best) == SelectPick(Flatten(rows[..i]))
      invariant -0x8000 <= best < 0x8000
    {
      FlattenSnoc(rows, i);
      max, best := ScanRow(Flatten(rows[..i]), rows[i], max, best);
      i := i + 1;
    }
    assert rows[..16] == rows;
  }

  /** The inner loop of that search, over the slots of one row, continuing
      the search already run over the slots `prefix` before it. */
  method ScanRow(ghost prefix: seq<Entry>, row: seq<Entry>, max0: int, best0: int) returns (max: int, best: int)
    requires PairsFit(prefix) && forall j :: 0 <= j < |row| ==> row[j].pair < 65536
    requires Pick(max0, best0) == SelectPick(prefix) && -0x8000 <= best0 < 0x8000
    ensures PairsFit(prefix + row)
    ensures Pick(max, best) == SelectPick(prefix + row)
    ensures -0x8000 <= best < 0x8000
  {
    max, best := max0, best0;
    var j := 0;
    assert prefix + row[..0] == prefix;
    while j < |row|
      invariant 0 <= j <= |row|
      invariant PairsFit(prefix + row[..j])
      invariant Pick(max, best) == SelectPick(prefix + row[..j])
      invariant -0x8000 <= best < 0x8000
    {
      var e := row[j];
      EntriesSnoc(prefix, row, j);
      SelectPickSnoc(prefix + row[..j], e);
      if e.count > max {
        max := e.count;
        best := Signed16(e.pair);
      } else if e.count == max {
        if e.pair < best {
          best := Signed16(e.pair);
        }
      }
      j := j + 1;
    }
    assert row[..|row|] == row;
  }

  lemma EntriesSnoc(prefix: seq<Entry>, row: seq<Entry>, j: nat)
    requires j < |row|
    ensures prefix + row[..j + 1] == (prefix + row[..j]) + [row[j]]
  {
    assert row[..j + 1] == row[..j] + [row[j]];
  }

  /** compressBlock's bytesUsed table: one flag per byte value, set exactly
      for the values in `usedSet`. */
  ghost predicate Marks(used: array<bool>, usedSet: set<Byte>)
    reads used
  {
    used.Length == 256 && forall v :: 0 <= v < 256 ==> (used[v] <==> v in usedSet)
  }

  /** Mark a newly issued code as used. */
  method Mark(used: array<bool>, ghost usedSet: set<Byte>, code: Byte)
    requires Marks(used, usedSet)
    modifies used
    ensures Marks(used, usedSet + {code})
  {
    used[code] := true;
  }

  /** The search for the next code in compressBlock: the lowest byte value
      not marked in `used`. */
  method FindCode(used: array<bool>, ghost usedSet: set<Byte>) returns (found: bool, code: Byte)
    requires Marks(used, usedSet)
    ensures found <==> LowestFree(usedSet).Some?
    ensures found ==> code == LowestFree(usedSet).value
  {
    var v := 0;
    while v < 256
      invariant 0 <= v <= 256
      invariant forall u :: 0 <= u < v ==> u in usedSet
    {
      if !used[v] {
        return true, v;
      }
      v := v + 1;
    }
    return false, 0;
  }

  /** The search of a pair's row in compressBlock's counting loop: bump the
      pair's slot, or open one with count 1 after the last used slot. */
  method Tally(rows: seq<seq<Entry>>, p: nat) returns (rows': seq<seq<Entry>>)
    requires |rows| == 16 && p < 65536
    ensures rows' == AddPair(rows, p)
  {
    var r := p / 4096;
    var row := rows[r];
    var j := 0;
    while j < |row| && row[j].pair != p
      invariant 0 <= j <= |row|
      invariant forall k :: 0 <= k < j ==> row[k].pair != p
    {
      j := j + 1;
    }
    assert j == FindIn(row, p);
    if j < |row| {
      rows' := rows[r := row[j := Entry(p, row[j].count + 1)]];
    } else {
      rows' := rows[r := row + [Entry(p, 1)]];
    }
  }

  /** The table after counting one more pair of s. */
  lemma CountTableStep(s: seq<Byte>, i: nat)
    requires i + 1 < |s|
    ensures CountTable(s[..i + 2]) == AddPair(CountTable(s[..i + 1]), PairValue(s[i], s[i + 1]))
  {
    assert s[..i + 2][..i + 1] == s[..i + 1];
  }

  /** One pass of compressBlock's counting loop, over the pair (b1, b2) at
      position i of s: mark both bytes as used and count the pair. */
  method CountAt(used: array<bool>, ghost usedSet: set<Byte>, ghost s: seq<Byte>, ghost i: nat,
                 rows: seq<seq<Entry>>, b1: Byte, b2: Byte) returns (rows': seq<seq<Entry>>)
    requires i + 1 < |s| && b1 == s[i] && b2 == s[i + 1]
    requires Marks(used, MarkedUpTo(s, i, usedSet)) && rows == CountTable(s[..i + 1])
    modifies used
    ensures Marks(used, MarkedUpTo(s, i + 1, usedSet))
    ensures rows' == CountTable(s[..i + 2])
  {
    Mark(used, MarkedUpTo(s, i, usedSet), b1);
    Mark(used, MarkedUpTo(s, i, usedSet) + {b1}, b2);
    MarkedStep(s, i, usedSet);
    var p: nat := b1 as int * 256 + b2 as int;
    assert p == PairValue(s[i], s[i + 1]);
    CountTableStep(s, i);
    rows' := Tally(rows, p);
  }

  /** The byte values marked once the counting loop has visited the pairs
      starting before position i. */
  ghost function MarkedUpTo(s: seq<Byte>, i: nat, usedSet: set<Byte>): set<Byte>
    requires i < |s| || i == 0
  {
    if i == 0 then usedSet else usedSet + Elems(s[..i + 1])
  }

  lemma MarkedStep(s: seq<Byte>, i: nat, usedSet: set<Byte>)
    requires i + 1 < |s|
    ensures MarkedUpTo(s, i + 1, usedSet) == MarkedUpTo(s, i, usedSet) + {s[i], s[i + 1]}
  {
    assert s[..i + 2] == s[..i + 1] + [s[i + 1]];
    ElemsSnoc(s[..i + 1], s[i + 1]);
    if i == 0 {
      assert Elems(s[..1]) == {s[0]};
    } else {
      assert s[i] in Elems(s[..i + 1]);
    }
  }

  lemma MarkedEnd(s: seq<Byte>, i: nat, usedSet: set<Byte>)
    requires (i < |s| || i == 0) && i + 1 >= |s|
    ensures MarkedUpTo(s, i, usedSet) == Seen(s, usedSet)
  {
    if |s| >= 2 {
      assert s[..i + 1] == s;
    }
  }

  /** The rule loop of serializeBlock: one (code, first, second) triple
      per rule, in order. */
  method SerializeRules(buf: ByteBuffer.Buffer, rules: seq<Rule>)
    requires buf.Valid()
    modifies buf.Repr
    ensures buf.Valid() && buf.pos == old(buf.pos)
    ensures fresh(buf.Repr - old(buf.Repr))
    ensures buf.Contents() == old(buf.Contents()) + RulesBytes(rules)
  {
    var i := 0;
    while i < |rules|
      invariant 0 <= i <= |rules|
      invariant buf.Valid() && buf.pos == old(buf.pos)
      invariant fresh(buf.Repr - old(buf.Repr))
      invariant buf.Contents() == old(buf.Contents()) + RulesBytes(rules[..i])
    {
      var r := rules[i];
      buf.AppendByte(r.code);
      buf.AppendByte(r.first);
      buf.AppendByte(r.second);
      assert rules[..i + 1][..i] == rules[..i];
      i := i + 1;
    }
    assert rules[..|rules|] == rules;
  }

  /** The first two reads of deserializeBlock: the block length, low byte
      first. */
  method ReadLength(buf: ByteBuffer.Buffer) returns (ok: bool, n: nat)
    requires buf.Valid()
    modifies buf`pos
    ensures buf.Valid()
    ensures ok <==> old(buf.pos) + 2 <= buf.len
    ensures ok ==> buf.pos == old(buf.pos) + 2
    ensures ok ==> n == buf.Contents()[old(buf.pos)] as int + 256 * buf.Contents()[old(buf.pos) + 1] as int
  {
    var ok1, lo := buf.ExtractByte();
    if !ok1 {
      return false, 0;
    }
    var ok2, hi := buf.ExtractByte();
    if !ok2 {
      return false, 0;
    }
    return true, lo as int + 256 * hi as int;
  }

  /** The rest of deserializeBlock once the length n has been read from
      the input c at position base: n bytes into dest, the rule count,
      then the rules. */
  method ReadBody(buf: ByteBuffer.Buffer, dest: array<Byte>, n: nat, ghost c: seq<Byte>, ghost base: nat)
      returns (ok: bool, rules: seq<Rule>)
    requires buf.Valid() && buf.Contents() == c && buf.pos == base + 2 <= |c|
    requires n == c[base] as int + 256 * c[base + 1] as int && n <= BLOCK_SIZE_LIMIT
    requires n <= dest.Length && dest != buf.data
    modifies buf`pos, dest
    ensures buf.Valid()
    ensures ok <==> ParseBlock(c[base..]).Some?
    ensures ok ==> dest[..n] == ParseBlock(c[base..]).value.data
    ensures ok ==> rules == ParseBlock(c[base..]).value.rules
    ensures ok ==> buf.pos == base + ParseBlock(c[base..]).value.consumed
  {
    ok := buf.ExtractBytes(dest, n);
    if !ok {
      ParseFromNone(c, base, n, 0);
      return false, [];
    }
    assert dest[..n] == c[base + 2..base + 2 + n];
    var rc;
    ok, rc := buf.ExtractByte();
    if !ok {
      ParseFromNone(c, base, n, 0);
      return false, [];
    }
    ok, rules := ReadRules(buf, rc as nat);
    if !ok {
      ParseFromNone(c, base, n, rc as nat);
    } else {
      ParseFromSome(c, base, n, rc as nat, 3 + n + 3 * (rc as nat), c[base + 2..base + 2 + n], rules);
    }
  }


  /** The rule loop of deserializeBlock: rc triples read from the buffer,
      failing when the input ends first. */
  method ReadRules(buf: ByteBuffer.Buffer, rc: nat) returns (ok: bool, rules: seq<Rule>)
    requires buf.Valid()
    modifies buf`pos
    ensures buf.Valid()
    ensures ok <==> old(buf.pos) + 3 * rc <= buf.len
    ensures ok ==> buf.pos == old(buf.pos) + 3 * rc
    ensures ok ==> rules == ParseRules(buf.Contents()[old(buf.pos)..buf.pos])
  {
    ghost var c := buf.Contents();
    ghost var p0 := buf.pos;
    rules := [];
    var i := 0;
    while i < rc
      invariant i <= rc && p0 + 3 * i <= buf.len
      invariant buf.Valid() && buf.pos == p0 + 3 * i && buf.Contents() == c
      invariant rules == ParseRules(c[p0..p0 + 3 * i])
    {
      var okc, code := buf.ExtractByte();
      if !okc {
        return false, rules;
      }
      var okf, first := buf.ExtractByte();
      if !okf {
        return false, rules;
      }
      var oks, second := buf.ExtractByte();
      if !oks {
        return false, rules;
      }
      ParseRulesStep(c, p0, i);
      rules := rules + [Rule(code, first, second)];
      i := i + 1;
    }
    return true, rules;
  }

  /** deserializeBlock fails on the input from position `base` when it
      ends before the length, the bytes, the count or the triples, or when
      the length n is above 16384. */
  lemma ParseFromNone(c: seq<Byte>, base: nat, n: nat, rc: nat)
    requires base <= |c|
    requires base + 2 <= |c| ==> n == c[base] as int + 256 * c[base + 1] as int
    requires n <= BLOCK_SIZE_LIMIT && base + 3 + n <= |c| ==> rc == c[base + 2 + n] as int
    requires base + 2 > |c| || n > BLOCK_SIZE_LIMIT || base + 3 + n > |c| || base + 3 + n + 3 * rc > |c|
    ensures ParseBlock(c[base..]) == None
  {
    var rest := c[base..];
    if |rest| >= 2 {
      assert n == rest[0] as int + 256 * rest[1] as int;
      if n <= BLOCK_SIZE_LIMIT && 3 + n <= |rest| {
        assert rc == rest[2 + n] as int;
      }
    }
  }

  /** deserializeBlock succeeds on a complete block at position `base`. */
  lemma ParseFromSome(c: seq<Byte>, base: nat, n: nat, rc: nat, m: nat, data: seq<Byte>, rules: seq<Rule>)
    requires base + 2 <= |c| && n == c[base] as int + 256 * c[base + 1] as int && n <= BLOCK_SIZE_LIMIT
    requires base + 3 + n <= |c| && rc == c[base + 2 + n] as int && m == 3 + n + 3 * rc && base + m <= |c|
    requires data == c[base + 2..base + 2 + n] && rules == ParseRules(c[base + 3 + n..base + m])
    ensures ParseBlock(c[base..]) == Some(Parsed(data, rules, m))
  {
    var rest := c[base..];
    assert rest[2..2 + n] == data;
    assert rest[3 + n..3 + n + 3 * rc] == c[base + 3 + n..base + m];
    ParseBlockOf(rest, n, rc, data, rules, m);
  }

  /** The writes of serializeBlock for a non-empty block. */
  method WriteBlock(buf: ByteBuffer.Buffer, bytes: seq<Byte>, rs: seq<Rule>)
    requires buf.Valid() && 1 <= |bytes| <= BLOCK_SIZE_LIMIT && |rs| <= MAX_RULES
    modifies buf.Repr
    ensures buf.Valid() && buf.pos == old(buf.pos)
    ensures fresh(buf.Repr - old(buf.Repr))
    ensures buf.Contents() == old(buf.Contents()) + SerializeBlock(bytes, rs)
  {
    var n := |bytes|;
    ghost var o := buf.Contents();
    ghost var header: seq<Byte> := [n % 256, n / 256];
    buf.AppendByte(n % 256);
    buf.AppendByte(n / 256);
    assert buf.Contents() == o + header;
    buf.AppendBytes(bytes, n);
    var count: Byte := |rs|;
    buf.AppendByte(count);
    SerializeRules(buf, rs);
    CatFive(o, header, bytes, [count], RulesBytes(rs));
    assert SerializeBlock(bytes, rs) == header + bytes + [count] + RulesBytes(rs);
  }

  lemma CatFive(o: seq<Byte>, a: seq<Byte>, b: seq<Byte>, c: seq<Byte>, d: seq<Byte>)
    ensures o + a + b + c + d == o + (a + b + c + d)
  {
  }

  class Block {
    /** Block bytes; only data[..len] is meaningful. */
    var data: array<Byte>
    var len: nat
    /** rlist[..rcount]: the rules in creation order. */
    var rules: seq<Rule>

    ghost predicate Valid()
      reads this
    {
      data.Length == BLOCK_SIZE_LIMIT && len <= BLOCK_SIZE_LIMIT && |rules| <= MAX_RULES
    }

    function Contents(): seq<Byte>
      reads this`data, this`len, data
      requires len <= data.Length
    {
      data[..len]
    }

    /** An empty block, as compressData and uncompressData declare one. */
    constructor ()
      ensures Valid() && fresh(data) && len == 0 && rules == []
    {
      data := new Byte[BLOCK_SIZE_LIMIT](_ => 0);
      len := 0;
      rules := [];
    }

    /** serializeBlock: append the block's wire form to buf. */
    method Serialize(buf: ByteBuffer.Buffer)
      requires Valid() && buf.Valid() && this !in buf.Repr && data !in buf.Repr
      modifies buf.Repr
      ensures buf.Valid() && buf.pos == old(buf.pos)
      ensures fresh(buf.Repr - old(buf.Repr))
      ensures buf.Contents() == old(buf.Contents()) + SerializeBlock(old(Contents()), old(rules))
    {
      if len == 0 {
        return;
      }
      WriteBlock(buf, data[..len], rules);
    }

    /** deserializeBlock: read one block from buf's remaining bytes.  Fails
        when the input ends early or declares more than 16384 bytes. */
    method Deserialize(buf: ByteBuffer.Buffer) returns (ok: bool)
      requires Valid() && buf.Valid() && buf.data != data
      modifies this, data, buf`pos
      ensures Valid() && data == old(data) && buf.Valid()
      ensures ok <==> ParseBlock(old(buf.Remaining())).Some?
      ensures ok ==> Contents() == ParseBlock(old(buf.Remaining())).value.data
      ensures ok ==> rules == ParseBlock(old(buf.Remaining())).value.rules
      ensures ok ==> buf.pos == old(buf.pos) + ParseBlock(old(buf.Remaining())).value.consumed
    {
      ghost var c := buf.Contents();
      ghost var base := buf.pos;
      assert buf.Remaining() == c[base..];
      var n;
      ok, n := ReadLength(buf);
      if !ok || n > BLOCK_SIZE_LIMIT {
        ParseFromNone(c, base, n, 0);
        return false;
      }
      len := n;
      var rs;
      ok, rs := ReadBody(buf, data, n, c, base);
      if ok {
        rules := rs;
      }
    }

    /** The pair-counting loop of compressBlock: mark both bytes of every
        adjacent pair in `used` and count the pairs into sixteen rows. */
    method CountPairs(used: array<bool>, ghost usedSet: set<Byte>) returns (rows: seq<seq<Entry>>)
      requires Valid() && Marks(used, usedSet)
      modifies used
      ensures rows == CountTable(Contents())
      ensures Marks(used, Seen(Contents(), usedSet))
    {
      ghost var s := Contents();
      rows := EmptyTable();
      var i := 0;
      while i + 1 < len
        invariant 0 <= i && (len == 0 ==> i == 0) && (len > 0 ==> i < len)
        invariant len == 0 ==> rows == EmptyTable()
        invariant len > 0 ==> rows == CountTable(s[..i + 1])
        invariant Marks(used, MarkedUpTo(s, i, usedSet))
      {
        var b1, b2 := data[i], data[i + 1];
        rows := CountAt(used, usedSet, s, i, rows, b1, b2);
        i := i + 1;
      }
      MarkedEnd(s, i, usedSet);
      if len >= 2 {
        assert s[..i + 1] == s;
      } else if len == 1 {
        assert CountTable(s[..1]) == EmptyTable();
      }
    }

    /** The replacement loop of compressBlock: scan left to right; wherever
        (first, second) starts at i, write the code at i and shift the rest
        of the block one place left. */
    method ReplacePairs(first: Byte, second: Byte, code: Byte)
      requires Valid()
      modifies this`len, data
      ensures Valid()
      ensures Contents() == Replace(old(Contents()), first, second, code)
    {
      ghost var target := Replace(Contents(), first, second, code);
      var i := 0;
      while i + 1 < len
        invariant Valid() && i <= len
        invariant Contents()[..i] + Replace(Contents()[i..], first, second, code) == target
        decreases len - i
      {
        ghost var c := Contents();
        if data[i] == first && data[i + 1] == second {
          ReplaceAt(i, code);
          ReplaceMatchStep(c, i, first, second, code);
        } else {
          ReplaceSkipStep(c, i, first, second, code);
        }
        i := i + 1;
      }
      ReplaceEnd(Contents(), i, first, second, code);
    }

    /** The shift loop of the expansion: every byte after position j moves
        one place right; the bytes up to j stay. */
    method ShiftUp(j: nat)
      requires Valid() && j < len < BLOCK_SIZE_LIMIT
      modifies data
      ensures forall t :: 0 <= t <= j ==> data[t] == old(data[t])
      ensures forall t :: j < t <= len ==> data[t] == old(data[t - 1])
    {
      var k := len;
      while k > j
        invariant j <= k <= len
        invariant forall t :: 0 <= t <= k ==> data[t] == old(data[t])
        invariant forall t :: k < t <= len ==> data[t] == old(data[t - 1])
      {
        data[k] := data[k - 1];
        k := k - 1;
      }
    }

    /** The shift loop of the replacement: every byte after position j
        moves one place left; the bytes before j stay. */
    method ShiftDown(j: nat)
      requires Valid() && 0 < j < len
      modifies data
      ensures forall t :: 0 <= t < j ==> data[t] == old(data[t])
      ensures forall t :: j <= t < len - 1 ==> data[t] == old(data[t + 1])
    {
      var k := j;
      while k < len - 1
        invariant j <= k <= len - 1
        invariant forall t :: 0 <= t < j ==> data[t] == old(data[t])
        invariant forall t :: j <= t < k ==> data[t] == old(data[t + 1])
        invariant forall t :: k <= t < len ==> data[t] == old(data[t])
      {
        data[k] := data[k + 1];
        k := k + 1;
      }
    }

    /** The body of the replacement at i: write the code at i, then move
        every byte after i + 1 one place left. */
    method ReplaceAt(i: nat, code: Byte)
      requires Valid() && i + 1 < len
      modifies this`len, data
      ensures Valid() && len == old(len) - 1
      ensures Contents() == old(Contents())[..i] + [code] + old(Contents())[i + 2..]
    {
      ghost var c := Contents();
      data[i] := code;
      ShiftDown(i + 1);
      len := len - 1;
      ghost var e := c[..i] + [code] + c[i + 2..];
      forall t | 0 <= t < len
        ensures data[t] == e[t]
      {
        if t < i {
          assert e[t] == c[t];
        } else if t > i {
          assert e[t] == c[t + 1];
        }
      }
      assert Contents() == e;
    }

    /** compressBlock: add rules until the most frequent pair occurs fewer
        than 3 times, no code is free, or the block holds 255 rules. */
    method CompressBlock()
      requires Valid()
      modifies this, data
      ensures Valid() && data == old(data)
      ensures Contents() == CompressFrom(old(Contents()), {}, |old(rules)|).data
      ensures rules == old(rules) + CompressFrom(old(Contents()), {}, |old(rules)|).rules
    {
      ghost var goal := CompressFrom(Contents(), {}, |rules|);
      var used := new bool[256](_ => false);
      ghost var cur, usedSet: set<Byte>, added: seq<Rule>, n := Contents(), {}, [], |rules|;
      assert [] + goal.rules == goal.rules;
      var found := true;
      while found
        invariant Valid() && data == old(data) && fresh(used)
        invariant found ==> Marks(used, usedSet)
        invariant Contents() == cur && rules == old(rules) + added && |rules| == n
        invariant CompressFrom(cur, usedSet, n).data == goal.data
        invariant added + CompressFrom(cur, usedSet, n).rules == goal.rules
        invariant !found ==> cur == goal.data && added == goal.rules
        decreases |cur|, found
      {
        found, cur, usedSet, added, n := CompressRound(used, old(rules), goal, cur, usedSet, added, n);
      }
    }

    /** One pass of compressBlock's loop: choose a rule and apply it, or
        find that compression is over.  The ghost parameters say where the
        loop stands: the block holds `cur` and the rules `base + added`, and
        `goal` is what the whole compression produces. */
    method CompressRound(used: array<bool>, ghost base: seq<Rule>, ghost goal: Compressed, ghost cur: seq<Byte>,
                         ghost usedSet: set<Byte>, ghost added: seq<Rule>, ghost n: nat)
        returns (found: bool, ghost cur': seq<Byte>, ghost usedSet': set<Byte>, ghost added': seq<Rule>, ghost n': nat)
      requires Valid() && Marks(used, usedSet)
      requires Contents() == cur && rules == base + added && |rules| == n
      requires CompressFrom(cur, usedSet, n).data == goal.data
      requires added + CompressFrom(cur, usedSet, n).rules == goal.rules
      modifies this`rules, this`len, data, used
      ensures Valid() && (found ==> Marks(used, usedSet'))
      ensures Contents() == cur' && rules == base + added' && |rules| == n'
      ensures CompressFrom(cur', usedSet', n').data == goal.data
      ensures added' + CompressFrom(cur', usedSet', n').rules == goal.rules
      ensures found ==> |cur'| < |cur|
      ensures !found ==> cur' == goal.data && added' == goal.rules
    {
      var rule;
      found, rule := ChooseRule(used, usedSet);
      if !found {
        CompressFromStop(cur, usedSet, n, added, goal);
        return false, cur, usedSet, added, n;
      }
      cur', usedSet', added', n' := ApplyRound(base, goal, cur, usedSet, added, n, rule);
    }

    /** The second half of a pass of compressBlock's loop: record the rule
        chosen by the round and replace its pair by its code. */
    method ApplyRound(ghost base: seq<Rule>, ghost goal: Compressed, ghost cur: seq<Byte>,
                      ghost usedSet: set<Byte>, ghost added: seq<Rule>, ghost n: nat, rule: Rule)
        returns (ghost cur': seq<Byte>, ghost usedSet': set<Byte>, ghost added': seq<Rule>, ghost n': nat)
      requires Valid() && Round(cur, usedSet, n) == Some(rule)
      requires Contents() == cur && rules == base + added && |rules| == n
      requires CompressFrom(cur, usedSet, n).data == goal.data
      requires added + CompressFrom(cur, usedSet, n).rules == goal.rules
      modifies this`rules, this`len, data
      ensures Valid() && usedSet' == Seen(cur, usedSet) + {rule.code}
      ensures Contents() == cur' && rules == base + added' && |rules| == n'
      ensures CompressFrom(cur', usedSet', n').data == goal.data
      ensures added' + CompressFrom(cur', usedSet', n').rules == goal.rules
      ensures |cur'| < |cur|
    {
      CompressFromStep(cur, usedSet, n, rule, added, goal);
      RulesAssoc(base, added, [rule]);
      AddRule(rule);
      cur', usedSet', added', n' := Replace(cur, rule.first, rule.second, rule.code), Seen(cur, usedSet) + {rule.code}, added + [rule], n + 1;
    }

    /** The rule half of one pass of compressBlock's main loop: store the
        rule after the existing ones and replace its pair throughout. */
    method AddRule(rule: Rule)
      requires Valid() && |rules| < MAX_RULES
      modifies this`rules, this`len, data
      ensures Valid()
      ensures rules == old(rules) + [rule]
      ensures Contents() == Replace(old(Contents()), rule.first, rule.second, rule.code)
    {
      rules := rules + [rule];
      ReplacePairs(rule.first, rule.second, rule.code);
    }

    /** The choice half of one pass of compressBlock's main loop: count the
        pairs, pick the most frequent one and the lowest unused code.  No
        rule when the round stops. */
    method ChooseRule(used: array<bool>, ghost usedSet: set<Byte>) returns (found: bool, rule: Rule)
      requires Valid() && Marks(used, usedSet)
      modifies used
      ensures found <==> Round(Contents(), usedSet, |rules|).Some?
      ensures found ==> rule == Round(Contents(), usedSet, |rules|).value
      ensures found ==> Marks(used, Seen(Contents(), usedSet) + {rule.code})
    {
      ghost var s := Contents();
      var rows := CountPairs(used, usedSet);
      CountTableDescribes(s);
      var max, best := SelectPair(rows);
      BestPairOfRows(s, rows, max, best);
      if max < REPLACEMENT_THRESHOLD as int {
        RoundStops(s, usedSet, |rules|, max, best, false, 0);
        return false, Rule(0, 0, 0);
      }
      var code;
      found, code := FindCode(used, Seen(s, usedSet));
      RoundStops(s, usedSet, |rules|, max, best, found, code);
      if !found || |rules| >= MAX_RULES {
        return false, Rule(0, 0, 0);
      }
      Mark(used, Seen(s, usedSet), code);
      var v := if best < 0 then best + 0x10000 else best;
      rule := Rule(code, v / 256, v % 256);
    }

    /** One rule of uncompressBlock: wherever the code occurs, shift the
        rest of the block one place right and write (first, second); fail
        if the block would exceed 16384 bytes.  Every position is scanned,
        the last one included. */
    method ExpandCode(r: Rule) returns (ok: bool)
      requires Valid()
      modifies this`len, data
      ensures Valid()
      ensures ok <==> ExpandRule(old(Contents()), r, BLOCK_SIZE_LIMIT - old(len)).Some?
      ensures ok ==> Contents() == ExpandRule(old(Contents()), r, BLOCK_SIZE_LIMIT - old(len)).value
    {
      ghost var target := ExpandRule(Contents(), r, BLOCK_SIZE_LIMIT - len);
      assert target == Pending(Contents(), 0, r) by {
        assert Contents()[..0] == [] && Contents()[0..] == Contents();
        PrependEmpty(target);
      }
      var j := 0;
      while j < len
        invariant Valid() && j <= len
        invariant target == Pending(Contents(), j, r)
        decreases BLOCK_SIZE_LIMIT - j
      {
        ok := ExpandAt(j, r);
        if !ok {
          return false;
        }
        j := j + 1;
      }
      assert Contents()[j..] == [] && Contents()[..j] == Contents();
      return true;
    }

    /** One position j of that scan: expand the code if it is there. */
    method ExpandAt(j: nat, r: Rule) returns (ok: bool)
      requires Valid() && j < len
      modifies this`len, data
      ensures Valid()
      ensures !ok ==> Pending(old(Contents()), j, r) == None
      ensures ok ==> j + 1 <= len && Pending(Contents(), j + 1, r) == Pending(old(Contents()), j, r)
    {
      ghost var c := Contents();
      if data[j] == r.code {
        if len + 1 > BLOCK_SIZE_LIMIT {
          PendingFull(c, j, r);
          return false;
        }
        InsertPair(j, r.first, r.second);
        PendingMatch(c, j, r);
      } else {
        PendingSkip(c, j, r);
      }
      return true;
    }

    /** The body of the expansion at j: move every byte after j one place
        right, then write x and y at j and j + 1. */
    method InsertPair(j: nat, x: Byte, y: Byte)
      requires Valid() && j < len < BLOCK_SIZE_LIMIT
      modifies this`len, data
      ensures Valid() && len == old(len) + 1
      ensures Contents() == old(Contents())[..j] + [x, y] + old(Contents())[j + 1..]
    {
      ghost var c := Contents();
      ShiftUp(j);
      data[j] := x;
      data[j + 1] := y;
      len := len + 1;
      ghost var e := c[..j] + [x, y] + c[j + 1..];
      forall t | 0 <= t < len
        ensures data[t] == e[t]
      {
        if t < j {
          assert e[t] == c[t];
        } else if t > j + 1 {
          assert e[t] == c[t - 1];
        }
      }
      assert Contents() == e;
    }

    /** uncompressBlock: expand the rules last-to-first; fails when an
        expansion would make the block exceed 16384 bytes. */
    method UncompressBlock() returns (ok: bool)
      requires Valid()
      modifies this`len, data
      ensures Valid()
      ensures ok <==> Uncompress(old(Contents()), rules).Some?
      ensures ok ==> Contents() == Uncompress(old(Contents()), rules).value
    {
      ghost var d0 := Contents();
      var i := |rules|;
      while i > 0
        invariant 0 <= i <= |rules| && Valid()
        invariant Uncompress(d0, rules[i..]) == Some(Contents())
      {
        ghost var t := Contents();
        ok := ExpandCode(rules[i - 1]);
        if !ok {
          UncompressStepFails(d0, rules, i, t);
          UncompressFails(d0, rules, i - 1);
          return false;
        }
        UncompressStep(d0, rules, i, t, Contents());
        i := i - 1;
      }
      assert rules[0..] == rules;
      return true;
    }
  }

  /** The pick of the search over the counting rows of s is the pick
      BestPair describes. */
  lemma BestPairOfRows(s: seq<Byte>, rows: seq<seq<Entry>>, max: int, best: int)
    requires rows == CountTable(s) && -0x8000 <= best < 0x8000
    requires PairsFit(Flatten(rows)) && Pick(max, best) == SelectPick(Flatten(rows))
    ensures BestPair(s) == ChooseFrom(Pick(max, best))
  {
  }

  /** The decision of one round from the values compressBlock computes. */
  lemma RoundStops(s: seq<Byte>, used: set<Byte>, nrules: nat, max: int, best: int, found: bool, code: Byte)
    requires -0x8000 <= best < 0x8000 && BestPair(s) == ChooseFrom(Pick(max, best))
    requires max >= REPLACEMENT_THRESHOLD as int ==> (found <==> LowestFree(Seen(s, used)).Some?)
    requires max >= REPLACEMENT_THRESHOLD as int && found ==> code == LowestFree(Seen(s, used)).value
    ensures Round(s, used, nrules)
         == if max < REPLACEMENT_THRESHOLD as int || !found || nrules >= MAX_RULES then None
            else Some(Rule(code, Unsigned16(best) / 256, Unsigned16(best) % 256))
  {
  }

  /** A round that makes a rule: the block shrinks, and what is left of
      the compression continues from the replaced bytes with one more rule
      and the code marked used. */
  lemma CompressFromStep(s: seq<Byte>, used: set<Byte>, n: nat, r: Rule, added: seq<Rule>, goal: Compressed)
    requires Round(s, used, n) == Some(r)
    requires CompressFrom(s, used, n).data == goal.data
    requires added + CompressFrom(s, used, n).rules == goal.rules
    ensures n < MAX_RULES && |Replace(s, r.first, r.second, r.code)| < |s|
    ensures CompressFrom(Replace(s, r.first, r.second, r.code), Seen(s, used) + {r.code}, n + 1).data == goal.data
    ensures (added + [r]) + CompressFrom(Replace(s, r.first, r.second, r.code), Seen(s, used) + {r.code}, n + 1).rules
            == goal.rules
  {
    RoundMakesRule(s, used, n);
    ReplaceShrinks(s, r.first, r.second, r.code);
    var rest := CompressFrom(Replace(s, r.first, r.second, r.code), Seen(s, used) + {r.code}, n + 1);
    RulesAssoc(added, [r], rest.rules);
  }

  /** A round that makes no rule ends the compression. */
  lemma CompressFromStop(s: seq<Byte>, used: set<Byte>, n: nat, added: seq<Rule>, goal: Compressed)
    requires Round(s, used, n) == None
    requires CompressFrom(s, used, n).data == goal.data
    requires added + CompressFrom(s, used, n).rules == goal.rules
    ensures s == goal.data && added == goal.rules
  {
    assert added + [] == added;
  }

  lemma RulesAssoc(a: seq<Rule>, b: seq<Rule>, c: seq<Rule>)
    ensures (a + b) + c == a + (b + c)
  {
  }

  /** out + the expansion of the rest, or failure. */
  function Prepend(out: seq<Byte>, r: Option<seq<Byte>>): Option<seq<Byte>>
  {
    match r
    case None => None
    case Some(t) => Some(out + t)
  }

  lemma ReplaceMatchStep(c: seq<Byte>, i: nat, a: Byte, b: Byte, code: Byte)
    requires i + 1 < |c| && c[i] == a && c[i + 1] == b
    ensures var e := c[..i] + [code] + c[i + 2..];
            e[..i + 1] + Replace(e[i + 1..], a, b, code) == c[..i] + Replace(c[i..], a, b, code)
  {
    var e := c[..i] + [code] + c[i + 2..];
    var rest := c[i..];
    assert Replace(rest, a, b, code) == [code] + Replace(c[i + 2..], a, b, code) by {
      assert rest[0] == a && rest[1] == b && rest[2..] == c[i + 2..];
    }
    assert e[..i + 1] == c[..i] + [code];
    assert e[i + 1..] == c[i + 2..];
    BytesAssoc(c[..i], [code], Replace(c[i + 2..], a, b, code));
  }

  lemma BytesAssoc(x: seq<Byte>, y: seq<Byte>, z: seq<Byte>)
    ensures (x + y) + z == x + (y + z)
  {
  }

  lemma ReplaceSkipStep(c: seq<Byte>, i: nat, a: Byte, b: Byte, code: Byte)
    requires i + 1 < |c| && !(c[i] == a && c[i + 1] == b)
    ensures c[..i + 1] + Replace(c[i + 1..], a, b, code) == c[..i] + Replace(c[i..], a, b, code)
  {
    var rest := c[i..];
    assert rest[0] == c[i] && rest[1..] == c[i + 1..];
    assert c[..i + 1] == c[..i] + [c[i]];
  }

  lemma ReplaceEnd(c: seq<Byte>, i: nat, a: Byte, b: Byte, code: Byte)
    requires i <= |c| && i + 1 >= |c|
    ensures c[..i] + Replace(c[i..], a, b, code) == c
  {
    assert c[..i] + c[i..] == c;
  }

  /** The expansion still to come at position j of c: c[..j] is done, and
      the rest is expanded with the room c leaves in a block. */
  ghost function Pending(c: seq<Byte>, j: nat, r: Rule): Option<seq<Byte>>
    requires j <= |c| <= BLOCK_SIZE_LIMIT
  {
    Prepend(c[..j], ExpandRule(c[j..], r, BLOCK_SIZE_LIMIT - |c|))
  }

  /** Expanding the code at j: the pair is written and the scan resumes
      after its first byte. */
  lemma PendingMatch(c: seq<Byte>, j: nat, r: Rule)
    requires j < |c| < BLOCK_SIZE_LIMIT && c[j] == r.code
    ensures Pending(c[..j] + [r.first, r.second] + c[j + 1..], j + 1, r) == Pending(c, j, r)
  {
    ExpandMatchStep(c, j, r, BLOCK_SIZE_LIMIT - |c|);
  }

  /** Any other byte is passed over. */
  lemma PendingSkip(c: seq<Byte>, j: nat, r: Rule)
    requires j < |c| <= BLOCK_SIZE_LIMIT && c[j] != r.code
    ensures Pending(c, j + 1, r) == Pending(c, j, r)
  {
    ExpandSkipStep(c, j, r, BLOCK_SIZE_LIMIT - |c|);
  }

  /** A code in a full block cannot be expanded. */
  lemma PendingFull(c: seq<Byte>, j: nat, r: Rule)
    requires j < |c| == BLOCK_SIZE_LIMIT && c[j] == r.code
    ensures Pending(c, j, r) == None
  {
    ExpandFullStep(c, j, r);
  }

  lemma ExpandMatchStep(c: seq<Byte>, j: nat, r: Rule, room: nat)
    requires j < |c| && c[j] == r.code && room >= 1
    ensures var e := c[..j] + [r.first, r.second] + c[j + 1..];
            Prepend(e[..j + 1], ExpandRule(e[j + 1..], r, room - 1)) == Prepend(c[..j], ExpandRule(c[j..], r, room))
  {
    var e := c[..j] + [r.first, r.second] + c[j + 1..];
    var rest := c[j..];
    assert rest[0] == r.code && rest[1..] == c[j + 1..];
    assert e[..j + 1] == c[..j] + [r.first];
    assert e[j + 1..] == [r.second] + rest[1..];
    match ExpandRule(e[j + 1..], r, room - 1)
    case None =>
    case Some(t) =>
      assert ExpandRule(rest, r, room) == Some([r.first] + t);
      assert c[..j] + [r.first] + t == c[..j] + ([r.first] + t);
  }

  lemma ExpandSkipStep(c: seq<Byte>, j: nat, r: Rule, room: nat)
    requires j < |c| && c[j] != r.code
    ensures Prepend(c[..j + 1], ExpandRule(c[j + 1..], r, room)) == Prepend(c[..j], ExpandRule(c[j..], r, room))
  {
    var rest := c[j..];
    assert rest[0] == c[j] && rest[1..] == c[j + 1..];
    assert c[..j + 1] == c[..j] + [c[j]];
    match ExpandRule(c[j + 1..], r, room)
    case None =>
    case Some(t) =>
      assert ExpandRule(rest, r, room) == Some([c[j]] + t);
      assert c[..j] + [c[j]] + t == c[..j] + ([c[j]] + t);
  }

  lemma PrependEmpty(r: Option<seq<Byte>>)
    ensures Prepend([], r) == r
  {
    if r.Some? {
      assert [] + r.value == r.value;
    }
  }

  lemma ExpandFullStep(c: seq<Byte>, j: nat, r: Rule)
    requires j < |c| && c[j] == r.code
    ensures Prepend(c[..j], ExpandRule(c[j..], r, 0)) == None
  {
  }

  lemma ElemsSnoc(s: seq<Byte>, x: Byte)
    ensures Elems(s + [x]) == Elems(s) + {x}
  {
    assert (s + [x])[|s|] == x;
    forall v | v in Elems(s) ensures v in Elems(s + [x]) {
      var k :| 0 <= k < |s| && s[k] == v;
      assert (s + [x])[k] == v;
    }
  }

  /** Undoing one more rule: the result of the later rules, expanded. */
  lemma UncompressStep(d: seq<Byte>, rules: seq<Rule>, i: nat, t: seq<Byte>, t': seq<Byte>)
    requires |d| <= BLOCK_SIZE_LIMIT && 0 < i <= |rules| && Uncompress(d, rules[i..]) == Some(t)
    requires ExpandRule(t, rules[i - 1], BLOCK_SIZE_LIMIT - |t|) == Some(t')
    ensures Uncompress(d, rules[i - 1..]) == Some(t')
  {
    assert rules[i - 1..] == [rules[i - 1]] + rules[i..];
    UncompressCons(d, rules[i - 1], rules[i..], t, t');
  }

  /** The same step when the expansion fails. */
  lemma UncompressStepFails(d: seq<Byte>, rules: seq<Rule>, i: nat, t: seq<Byte>)
    requires |d| <= BLOCK_SIZE_LIMIT && 0 < i <= |rules| && Uncompress(d, rules[i..]) == Some(t)
    requires ExpandRule(t, rules[i - 1], BLOCK_SIZE_LIMIT - |t|) == None
    ensures Uncompress(d, rules[i - 1..]) == None
  {
    assert rules[i - 1..] == [rules[i - 1]] + rules[i..];
    UncompressConsFails(d, rules[i - 1], rules[i..], t);
  }

  /** Once the expansion of rule k fails, the whole of uncompressBlock fails. */
  lemma {:induction false} UncompressFails(d: seq<Byte>, rules: seq<Rule>, k: nat)
    requires |d| <= BLOCK_SIZE_LIMIT && k < |rules|
    requires Uncompress(d, rules[k..]) == None
    ensures Uncompress(d, rules) == None
    decreases k
  {
    if k > 0 {
      assert rules[k - 1..][1..] == rules[k..];
      UncompressFails(d, rules, k - 1);
    } else {
      assert rules[0..] == rules;
    }
  }
}
