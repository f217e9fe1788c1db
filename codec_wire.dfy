/** The byte layout of a serialized block (Homeworks/proj/compress.c,
    serializeBlock and deserializeBlock): the length as two bytes, low byte
    first, the block's bytes, the rule count as one byte, then one
    (code, first, second) triple per rule in creation order.  An empty block
    is written as nothing at all. */
module BlockWire {
  import opened ByteBuffer
  import opened Wrappers
  import opened Bpe

  /** The rule triples, in order. */
  function RulesBytes(rules: seq<Rule>): (r: seq<Byte>)
    ensures |r| == 3 * |rules|
  {
    if rules == [] then []
    else
      var last := rules[|rules| - 1];
      RulesBytes(rules[..|rules| - 1]) + [last.code, last.first, last.second]
  }

  /** Rule i of a rule list sits at bytes 3i, 3i+1, 3i+2 of its triples. */
  lemma {:induction false} RulesBytesAt(rules: seq<Rule>, i: nat)
    requires i < |rules|
    ensures RulesBytes(rules)[3 * i] == rules[i].code
    ensures RulesBytes(rules)[3 * i + 1] == rules[i].first
    ensures RulesBytes(rules)[3 * i + 2] == rules[i].second
    decreases |rules|
  {
    if i < |rules| - 1 {
      RulesBytesAt(rules[..|rules| - 1], i);
    }
  }

  /** Read triples back as rules. */
  function ParseRules(b: seq<Byte>): (rules: seq<Rule>)
    requires |b| % 3 == 0
    ensures |rules| == |b| / 3
  {
    if b == [] then []
    else
      var n := |b|;
      ParseRules(b[..n - 3]) + [Rule(b[n - 3], b[n - 2], b[n - 1])]
  }

  /** Reading one more triple adds one rule at the end. */
  lemma ParseRulesStep(x: seq<Byte>, lo: nat, i: nat)
    requires lo + 3 * i + 3 <= |x|
    ensures ParseRules(x[lo..lo + 3 * i + 3])
            == ParseRules(x[lo..lo + 3 * i]) + [Rule(x[lo + 3 * i], x[lo + 3 * i + 1], x[lo + 3 * i + 2])]
  {
    var b := x[lo..lo + 3 * i + 3];
    assert b[..|b| - 3] == x[lo..lo + 3 * i];
  }

  lemma {:induction false} ParseRulesBytes(rules: seq<Rule>)
    ensures ParseRules(RulesBytes(rules)) == rules
    decreases |rules|
  {
    if rules != [] {
      var init := rules[..|rules| - 1];
      ParseRulesBytes(init);
      var b := RulesBytes(rules);
      assert b[..|b| - 3] == RulesBytes(init);
    }
  }

  lemma {:induction false} RulesBytesParse(b: seq<Byte>)
    requires |b| % 3 == 0
    ensures RulesBytes(ParseRules(b)) == b
    decreases |b|
  {
    if b != [] {
      var n := |b|;
      RulesBytesParse(b[..n - 3]);
      var rules := ParseRules(b);
      assert rules[..|rules| - 1] == ParseRules(b[..n - 3]);
      assert b == b[..n - 3] + [b[n - 3], b[n - 2], b[n - 1]];
    }
  }

  /** serializeBlock: nothing for an empty block; otherwise the length
      (low byte, high byte), the bytes, the rule count and the triples. */
  function SerializeBlock(data: seq<Byte>, rules: seq<Rule>): (r: seq<Byte>)
    requires |data| <= BLOCK_SIZE_LIMIT && |rules| <= MAX_RULES
    ensures |data| == 0 ==> r == []
    ensures |data| > 0 ==> |r| == 3 + |data| + 3 * |rules|
  {
    if |data| == 0 then []
    else [|data| % 256, |data| / 256] + data + [|rules|] + RulesBytes(rules)
  }

  /** What deserializeBlock takes from the remaining input: the block's
      bytes, its rules, and the number of input bytes read. */
  datatype Parsed = Parsed(data: seq<Byte>, rules: seq<Rule>, consumed: nat)

  /** deserializeBlock on the remaining input `rest`: None when the input
      ends before the length, the bytes, the rule count or a rule triple is
      complete, and when the declared length is above 16384. */
  function ParseBlock(rest: seq<Byte>): (res: Option<Parsed>)
    ensures res.Some? ==> 3 <= res.value.consumed <= |rest|
    ensures res.Some? ==> |res.value.data| <= BLOCK_SIZE_LIMIT && |res.value.rules| <= MAX_RULES
  {
    if |rest| < 2 then None
    else
      var n: nat := rest[0] as int + 256 * rest[1] as int;
      if n > BLOCK_SIZE_LIMIT || |rest| < 3 + n then None
      else
        var rc: nat := rest[2 + n] as int;
        if |rest| < 3 + n + 3 * rc then None
        else Some(Parsed(rest[2..2 + n], ParseRules(rest[3 + n..3 + n + 3 * rc]), 3 + n + 3 * rc))
  }

  /** deserializeBlock as written (compress.c:54-57): the declared length
      is taken as it is, whatever its size, and that many bytes are copied
      into the block's array of 16384. */
  function ParseBlockAsWritten(rest: seq<Byte>): Option<Parsed>
  {
    if |rest| < 2 then None
    else
      var n: nat := rest[0] as int + 256 * rest[1] as int;
      if |rest| < 3 + n then None
      else
        var rc: nat := rest[2 + n] as int;
        if |rest| < 3 + n + 3 * rc then None
        else Some(Parsed(rest[2..2 + n], ParseRules(rest[3 + n..3 + n + 3 * rc]), 3 + n + 3 * rc))
  }

  /** A block declaring 16385 bytes (length bytes 01 40), followed by them
      and a zero rule count: as written it is read whole, one byte more
      than the block's array holds; ParseBlock rejects it. */
  lemma OverlongLengthAccepted()
    ensures var x := [0x01, 0x40] + seq(BLOCK_SIZE_LIMIT + 1, _ => 0) + [0];
            && ParseBlockAsWritten(x).Some?
            && |ParseBlockAsWritten(x).value.data| == BLOCK_SIZE_LIMIT + 1
            && ParseBlock(x).None?
  {
    var x: seq<Byte> := [0x01, 0x40] + seq(BLOCK_SIZE_LIMIT + 1, _ => 0) + [0];
    assert x[0] == 1 && x[1] == 0x40 && |x| == BLOCK_SIZE_LIMIT + 4;
    assert x[2 + BLOCK_SIZE_LIMIT + 1] == 0;
  }

  /** ParseBlock on input that holds a complete block of n bytes and rc
      rules. */
  lemma ParseBlockAt(rest: seq<Byte>, n: nat, rc: nat)
    requires 2 <= |rest| && n == rest[0] as int + 256 * rest[1] as int && n <= BLOCK_SIZE_LIMIT
    requires 3 + n <= |rest| && rc == rest[2 + n] as int && 3 + n + 3 * rc <= |rest|
    ensures ParseBlock(rest) == Some(Parsed(rest[2..2 + n], ParseRules(rest[3 + n..3 + n + 3 * rc]), 3 + n + 3 * rc))
  {
  }

  /** deserialize(serialize(b)) == b for every non-empty block, whatever
      follows it in the input. */
  lemma ParseSerialize(data: seq<Byte>, rules: seq<Rule>, tail: seq<Byte>)
    requires 1 <= |data| <= BLOCK_SIZE_LIMIT && |rules| <= MAX_RULES
    ensures ParseBlock(SerializeBlock(data, rules) + tail)
            == Some(Parsed(data, rules, |SerializeBlock(data, rules)|))
  {
    var n := |data|;
    var m := 3 * |rules|;
    var lo: Byte, hi: Byte := n % 256, n / 256;
    var c: Byte := |rules|;
    var tb := RulesBytes(rules);
    var rest := SerializeBlock(data, rules) + tail;
    assert |SerializeBlock(data, rules)| == 3 + n + m;
    assert rest[0] as int + 256 * rest[1] as int == n && rest[2 + n] as int == |rules|
        && 3 + n + m <= |rest| && rest[2..2 + n] == data && rest[3 + n..3 + n + m] == tb by {
      assert rest == [lo, hi] + data + [c] + tb + tail;
      PartsAt(lo, hi, data, c, tb, tail);
    }
    assert ParseRules(tb) == rules by {
      ParseRulesBytes(rules);
    }
    ParseBlockOf(rest, n, |rules|, data, rules, |SerializeBlock(data, rules)|);
  }

  /** ParseBlock on input whose parts are known. */
  lemma ParseBlockOf(rest: seq<Byte>, n: nat, rc: nat, data: seq<Byte>, rules: seq<Rule>, total: nat)
    requires 2 <= |rest| && n == rest[0] as int + 256 * rest[1] as int && n <= BLOCK_SIZE_LIMIT
    requires 3 + n <= |rest| && rc == rest[2 + n] as int && 3 + n + 3 * rc <= |rest|
    requires rest[2..2 + n] == data && ParseRules(rest[3 + n..3 + n + 3 * rc]) == rules
    requires total == 3 + n + 3 * rc
    ensures ParseBlock(rest) == Some(Parsed(data, rules, total))
  {
    ParseBlockAt(rest, n, rc);
  }

  /** Where each part of a serialized block sits in the input. */
  lemma PartsAt(lo: Byte, hi: Byte, data: seq<Byte>, c: Byte, tb: seq<Byte>, tail: seq<Byte>)
    ensures var x := [lo, hi] + data + [c] + tb + tail;
            var n := |data|;
            |x| == 3 + n + |tb| + |tail| && x[0] == lo && x[1] == hi && x[2..2 + n] == data
            && x[2 + n] == c && x[3 + n..3 + n + |tb|] == tb
  {
    var x := [lo, hi] + data + [c] + tb + tail;
    var n := |data|;
    assert x[2..2 + n] == data by {
      forall k | 0 <= k < n ensures x[2 + k] == data[k] { }
    }
    assert x[3 + n..3 + n + |tb|] == tb by {
      forall k | 0 <= k < |tb| ensures x[3 + n + k] == tb[k] { }
    }
  }

  /** The two length bytes are the low and high byte of the length. */
  lemma LengthBytes(lo: Byte, hi: Byte)
    ensures (lo as int + 256 * hi as int) % 256 == lo
    ensures (lo as int + 256 * hi as int) / 256 == hi
  {
  }

  /** A prefix cut into the length bytes, the block, the rule count and
      the triples. */
  lemma PrefixParts(x: seq<Byte>, n: nat, m: nat)
    requires 3 + n + m <= |x|
    ensures x[..3 + n + m] == x[..2] + x[2..2 + n] + [x[2 + n]] + x[3 + n..3 + n + m]
  {
  }

  /** Conversely, a block that parses is re-serialized as exactly the
      bytes it was read from (when it is not empty). */
  lemma SerializeParse(rest: seq<Byte>)
    requires ParseBlock(rest).Some? && |ParseBlock(rest).value.data| >= 1
    ensures SerializeBlock(ParseBlock(rest).value.data, ParseBlock(rest).value.rules)
            == rest[..ParseBlock(rest).value.consumed]
  {
    var n: nat := rest[0] as int + 256 * rest[1] as int;
    var rc: nat := rest[2 + n] as int;
    var p := ParseBlock(rest).value;
    assert p.data == rest[2..2 + n] && p.rules == ParseRules(rest[3 + n..3 + n + 3 * rc])
        && p.consumed == 3 + n + 3 * rc by {
      ParseBlockAt(rest, n, rc);
    }
    assert RulesBytes(p.rules) == rest[3 + n..3 + n + 3 * rc] by {
      RulesBytesParse(rest[3 + n..3 + n + 3 * rc]);
    }
    SerializeOf(rest, n, rc, p.data, p.rules, p.consumed);
  }

  /** The bytes a block is read from, given its parts. */
  lemma SerializeOf(rest: seq<Byte>, n: nat, rc: nat, data: seq<Byte>, rules: seq<Rule>, total: nat)
    requires 2 <= |rest| && n == rest[0] as int + 256 * rest[1] as int && 1 <= n <= BLOCK_SIZE_LIMIT
    requires 3 + n <= |rest| && rc == rest[2 + n] as int && total == 3 + n + 3 * rc <= |rest|
    requires data == rest[2..2 + n] && RulesBytes(rules) == rest[3 + n..total] && |rules| == rc
    ensures SerializeBlock(data, rules) == rest[..total]
  {
    assert [n % 256, n / 256] == rest[..2] by {
      LengthBytes(rest[0], rest[1]);
    }
    assert rest[..total] == rest[..2] + data + [rest[2 + n]] + RulesBytes(rules) by {
      PrefixParts(rest, n, 3 * rc);
    }
  }
}
