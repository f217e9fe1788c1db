// The fixed outputs of compressData that the compressor's unit tests
// expect: the byte-pair example "ABABCABCD", sixteen 'A's, and a full block
// of 16384 zero bytes.  Runs of one byte value are handled once for all
// lengths, so the full block needs no step-by-step evaluation.

module CodecExamples {
  import opened ByteBuffer
  import opened Wrappers
  import opened Bpe
  import opened BlockWire
  import opened DataCodec

  /** n copies of the byte x. */
  function Run(x: Byte, n: nat): (r: seq<Byte>)
    ensures |r| == n && forall i :: 0 <= i < n ==> r[i] == x
  {
    seq(n, _ => x)
  }

  /** Every byte value below k is in used. */
  ghost predicate TakenBelow(used: set<Byte>, k: nat)
  {
    forall v: Byte :: v < k ==> v in used
  }
  /** No value in used lies above k and at or below top. */
  ghost predicate FreeUpTo(used: set<Byte>, k: nat, top: nat)
  {
    forall v :: v in used ==> v <= k || v > top
  }


  function Pow2(n: nat): (p: nat)
    ensures p >= 1
  {
    if n == 0 then 1 else 2 * Pow2(n - 1)
  }

  /** In a run of x only the pair (x, x) occurs, once per position but the
      last. */
  lemma {:induction false} RunPairs(x: Byte, n: nat, a: Byte, b: Byte)
    requires n >= 1
    ensures PairCount(Run(x, n), a, b) == if a == x && b == x then n - 1 else 0
  {
    if n >= 2 {
      assert Run(x, n)[..n - 1] == Run(x, n - 1);
      RunPairs(x, n - 1, a, b);
    }
  }

  /** Replacing (x, x) in a run of 2m copies of x gives a run of m codes. */
  lemma {:induction false} RunReplaced(x: Byte, m: nat, c: Byte)
    ensures Replace(Run(x, 2 * m), x, x, c) == Run(c, m)
  {
    if m == 1 {
      assert Run(x, 2)[2..] == [];
    } else if m > 1 {
      assert Run(x, 2 * m)[2..] == Run(x, 2 * (m - 1));
      RunReplaced(x, m - 1, c);
      assert [c] + Run(c, m - 1) == Run(c, m);
    }
  }

  lemma RunElems(x: Byte, n: nat)
    requires n >= 1
    ensures Elems(Run(x, n)) == {x}
  {
    assert Run(x, n)[0] == x;
  }

  /** When one pair occurs m times and every other pair fewer times, the
      search reports that pair and m. */
  lemma BestPairOnly(s: seq<Byte>, x: Byte, y: Byte, m: nat)
    requires |s| >= 2 && PairCount(s, x, y) == m
    requires forall a: Byte, b: Byte :: (a, b) != (x, y) ==> PairCount(s, a, b) < m
    ensures BestPair(s) == Choice(m, x, y)
  {
    BestPairIsMostFrequent(s);
  }

  /** When no pair occurs more than m times, the search reports at most m. */
  lemma BestPairAtMost(s: seq<Byte>, m: nat)
    requires forall a: Byte, b: Byte :: PairCount(s, a, b) <= m
    ensures BestPair(s).max <= m
  {
    BestPairIsMostFrequent(s);
  }

  /** The rules of a run compressed from the value k for n rounds:
      rule i turns the pair (k + i, k + i) into k + i + 1. */
  function Doublings(k: nat, n: nat): (rules: seq<Rule>)
    requires k + n <= 255
    ensures |rules| == n
    decreases n
  {
    if n == 0 then [] else [Rule(k + 1, k, k)] + Doublings(k + 1, n - 1)
  }

  lemma {:induction false} DoublingsAt(k: nat, n: nat, i: nat)
    requires k + n <= 255 && i < n
    ensures Doublings(k, n)[i] == Rule(k + i + 1, k + i, k + i)
    decreases n
  {
    if i > 0 {
      DoublingsAt(k + 1, n - 1, i - 1);
    }
  }

  /** The lowest free code once x and everything below it is taken, and
      nothing else up to x + 1. */
  lemma NextFree(used: set<Byte>, x: Byte)
    requires x < 255 && TakenBelow(used, x + 1) && x + 1 !in used
    ensures LowestFree(used) == Some(x + 1)
  {
  }

  /** A round that makes no rule ends the compression. */
  lemma RoundStops(s: seq<Byte>, used: set<Byte>, nrules: nat)
    requires Round(s, used, nrules).None?
    ensures CompressFrom(s, used, nrules) == Compressed(s, [])
  {
  }

  /** A round on a run of 2^(n+1) copies of k with the values below k
      taken and `made` rules made: for n >= 1 it halves the run with the
      code k + 1; for n == 0 (two bytes left) it stops. */
  lemma RunRound(k: Byte, n: nat, used: set<Byte>, made: nat)
    requires k + n <= 255 && made + n <= 255
    requires TakenBelow(used, k) && FreeUpTo(used, k, k + n)
    ensures n == 0 ==> Round(Run(k, Pow2(n + 1)), used, made).None?
    ensures n >= 1 ==> Round(Run(k, Pow2(n + 1)), used, made) == Some(Rule(k + 1, k, k))
    ensures n >= 1 ==> Seen(Run(k, Pow2(n + 1)), used) == used + {k}
  {
    var s := Run(k, Pow2(n + 1));
    forall a: Byte, b: Byte ensures PairCount(s, a, b) == if a == k && b == k then Pow2(n + 1) - 1 else 0 {
      RunPairs(k, Pow2(n + 1), a, b);
    }
    RunElems(k, Pow2(n + 1));
    if n == 0 {
      BestPairAtMost(s, 1);
    } else {
      BestPairOnly(s, k, k, Pow2(n + 1) - 1);
      NextFree(used + {k}, k);
    }
  }

  /** compressBlock on a run of 2^(n+1) copies of k, with the values
      below k already taken and `made` rules made: each round halves the
      run with the next free code k + 1, k + 2, ..., until two bytes are
      left.  Values taken above k lie beyond every code issued. */
  lemma {:induction false} CompressRun(k: Byte, n: nat, used: set<Byte>, made: nat, top: Byte)
    requires top == k + n && made + n <= 255
    requires TakenBelow(used, k) && FreeUpTo(used, k, top)
    ensures CompressFrom(Run(k, Pow2(n + 1)), used, made) == Compressed(Run(top, 2), Doublings(k, n))
    decreases n
  {
    RunRound(k, n, used, made);
    if n == 0 {
      assert Pow2(1) == 2;
      RoundStops(Run(k, 2), used, made);
    } else {
      var k1: Byte := k + 1;
      var s := Run(k, Pow2(n + 1));
      var t := Run(k1, Pow2(n));
      assert Pow2(n + 1) == 2 * Pow2(n);
      RunReplaced(k, Pow2(n), k1);
      var used' := used + {k} + {k1};
      assert Pow2((n - 1) + 1) == Pow2(n);
      TakenAfterRound(used, k, top, used');
      CompressRun(k1, n - 1, used', made + 1, top);
      CompressStep(s, used, made, Rule(k1, k, k), t, used', Compressed(Run(top, 2), Doublings(k1, n - 1)));
    }
  }

  /** After the round that issues k + 1 on a run of k, the values below
      k + 1 are taken and those above k + 1 still lie beyond top. */
  lemma TakenAfterRound(used: set<Byte>, k: Byte, top: Byte, next: set<Byte>)
    requires k < top && next == used + {k} + {k + 1}
    requires TakenBelow(used, k) && FreeUpTo(used, k, top)
    ensures TakenBelow(next, k + 1) && FreeUpTo(next, k + 1, top)
  {
  }

  /** A round that adds rule r and leaves t, followed by the compression
      c of t. */
  lemma CompressStep(s: seq<Byte>, used: set<Byte>, nrules: nat, r: Rule, t: seq<Byte>, next: set<Byte>, c: Compressed)
    requires Round(s, used, nrules) == Some(r)
    requires Replace(s, r.first, r.second, r.code) == t
    requires Seen(s, used) + {r.code} == next
    requires CompressFrom(t, next, nrules + 1) == c
    ensures CompressFrom(s, used, nrules) == Compressed(c.data, [r] + c.rules)
  {
    CompressFromSome(s, used, nrules, r);
  }

  /** Input of at most one block that compresses to data under rules:
      compressData writes that one block. */
  lemma OneBlockOutput(x: seq<Byte>, data: seq<Byte>, rules: seq<Rule>)
    requires 0 < |x| <= BLOCK_SIZE_LIMIT
    requires CompressBlockSpec(x) == Compressed(data, rules)
    ensures |data| > 0 && |rules| <= MAX_RULES
    ensures CompressDataSpec(x) == [|data| % 256, |data| / 256] + data + [|rules|] + RulesBytes(rules)
  {
    CompressFromCapacity(x, {}, 0);
  }

  // ---------------------------------------------------------------------
  // The unit tests' expected outputs

  /** A full block of zero bytes compresses to the two bytes 0D 0D under
      thirteen rules, (01, 00, 00) up to (0D, 0C, 0C). */
  lemma ZeroBlockCompressed()
    ensures CompressBlockSpec(Run(0, 16384)) == Compressed([0x0D, 0x0D], Doublings(0, 13))
  {
    assert Pow2(14) == 16384;
    CompressRun(0, 13, {}, 0, 13);
    assert Run(13, 2) == [13, 13];
  }

  /** The serialized rules of a run compressed from k for n rounds. */
  function DoublingBytes(k: nat, n: nat): seq<Byte>
    requires k + n <= 255
    decreases n
  {
    if n == 0 then [] else [k + 1, k, k] + DoublingBytes(k + 1, n - 1)
  }

  /** serializeBlock writes a rule list front to back. */
  lemma {:induction false} RulesBytesCons(r: Rule, rules: seq<Rule>)
    ensures RulesBytes([r] + rules) == [r.code, r.first, r.second] + RulesBytes(rules)
    decreases |rules|
  {
    if rules != [] {
      var n := |rules| - 1;
      assert ([r] + rules)[..n + 1] == [r] + rules[..n];
      RulesBytesCons(r, rules[..n]);
    }
  }

  lemma {:induction false} DoublingsSerialized(k: nat, n: nat)
    requires k + n <= 255
    ensures RulesBytes(Doublings(k, n)) == DoublingBytes(k, n)
    decreases n
  {
    if n > 0 {
      RulesBytesCons(Rule(k + 1, k, k), Doublings(k + 1, n - 1));
      DoublingsSerialized(k + 1, n - 1);
    }
  }

  /** DoublingBytes over a + b rounds is the first a rounds' bytes followed
      by the next b rounds' bytes. */
  lemma {:induction false} DoublingBytesSplit(k: nat, a: nat, b: nat)
    requires k + a + b <= 255
    ensures DoublingBytes(k, a + b) == DoublingBytes(k, a) + DoublingBytes(k + a, b)
    decreases a
  {
    if a > 0 {
      DoublingBytesSplit(k + 1, a - 1, b);
    }
  }

  lemma ZeroRulesLow()
    ensures DoublingBytes(0, 4) ==
              [0x01, 0x00, 0x00, 0x02, 0x01, 0x01, 0x03, 0x02, 0x02,
               0x04, 0x03, 0x03]
  {
  }

  lemma ZeroRulesMiddle()
    ensures DoublingBytes(4, 4) ==
              [0x05, 0x04, 0x04, 0x06, 0x05, 0x05, 0x07, 0x06, 0x06,
               0x08, 0x07, 0x07]
  {
  }

  lemma ZeroRulesHigh()
    ensures DoublingBytes(8, 5) ==
              [0x09, 0x08, 0x08, 0x0A, 0x09, 0x09, 0x0B, 0x0A, 0x0A,
               0x0C, 0x0B, 0x0B, 0x0D, 0x0C, 0x0C]
  {
  }

  lemma ZeroRulesJoined(lo: seq<Byte>, mid: seq<Byte>, hi: seq<Byte>)
    requires lo == [0x01, 0x00, 0x00, 0x02, 0x01, 0x01, 0x03, 0x02, 0x02, 0x04, 0x03, 0x03]
    requires mid == [0x05, 0x04, 0x04, 0x06, 0x05, 0x05, 0x07, 0x06, 0x06, 0x08, 0x07, 0x07]
    requires hi ==
              [0x09, 0x08, 0x08, 0x0A, 0x09, 0x09, 0x0B, 0x0A, 0x0A,
               0x0C, 0x0B, 0x0B, 0x0D, 0x0C, 0x0C]
    ensures lo + (mid + hi) ==
              [0x01, 0x00, 0x00, 0x02, 0x01, 0x01, 0x03, 0x02, 0x02,
               0x04, 0x03, 0x03, 0x05, 0x04, 0x04, 0x06, 0x05, 0x05,
               0x07, 0x06, 0x06, 0x08, 0x07, 0x07, 0x09, 0x08, 0x08,
               0x0A, 0x09, 0x09, 0x0B, 0x0A, 0x0A, 0x0C, 0x0B, 0x0B,
               0x0D, 0x0C, 0x0C]
  {
  }

  /** The thirteen rules of the full zero block, serialized. */
  lemma ZeroRulesBytes(z: nat)
    requires z == 0
    ensures RulesBytes(Doublings(z, 13)) ==
              [0x01, 0x00, 0x00, 0x02, 0x01, 0x01, 0x03, 0x02, 0x02,
               0x04, 0x03, 0x03, 0x05, 0x04, 0x04, 0x06, 0x05, 0x05,
               0x07, 0x06, 0x06, 0x08, 0x07, 0x07, 0x09, 0x08, 0x08,
               0x0A, 0x09, 0x09, 0x0B, 0x0A, 0x0A, 0x0C, 0x0B, 0x0B,
               0x0D, 0x0C, 0x0C]
  {
    DoublingsSerialized(z, 13);
    DoublingBytesSplit(z, 4, 9);
    DoublingBytesSplit(z + 4, 4, 5);
    ZeroRulesLow();
    ZeroRulesMiddle();
    ZeroRulesHigh();
    ZeroRulesJoined(DoublingBytes(0, 4), DoublingBytes(4, 4), DoublingBytes(8, 5));
  }

  lemma ZeroHeader(rb: seq<Byte>)
    ensures [0x02, 0x00] + [0x0D, 0x0D] + [0x0D] + rb == [0x02, 0x00, 0x0D, 0x0D, 0x0D] + rb
  {
  }

  /** compressTest.c's full-block case: 16384 zero bytes give the block
      0D 0D (length 2, then the bytes, then 13 rules) followed by the
      thirteen rules (01, 00, 00) up to (0D, 0C, 0C). */
  lemma ZeroBlockOutput()
    ensures CompressDataSpec(Run(0, 16384)) ==
              [0x02, 0x00, 0x0D, 0x0D, 0x0D] +
              [0x01, 0x00, 0x00, 0x02, 0x01, 0x01, 0x03, 0x02, 0x02,
               0x04, 0x03, 0x03, 0x05, 0x04, 0x04, 0x06, 0x05, 0x05,
               0x07, 0x06, 0x06, 0x08, 0x07, 0x07, 0x09, 0x08, 0x08,
               0x0A, 0x09, 0x09, 0x0B, 0x0A, 0x0A, 0x0C, 0x0B, 0x0B,
               0x0D, 0x0C, 0x0C]
  {
    ZeroBlockCompressed();
    ZeroRulesBytes(0);
    ZeroHeader(RulesBytes(Doublings(0, 13)));
  }
  /** Sixteen copies of a byte x above 02 (compressTest.c uses 'A'): the
      first round turns xx into 00, the only value seen being x; the run
      of eight 00s then halves twice, with the codes 01 and 02. */
  lemma SixteenCompressed(x: Byte)
    requires x > 2
    ensures CompressBlockSpec(Run(x, 16)) ==
              Compressed(
                [0x02, 0x02], [Rule(0x00, x, x), Rule(0x01, 0x00, 0x00), Rule(0x02, 0x01, 0x01)])
  {
    var zero: Byte, two: Byte := 0, 2;
    var none: set<Byte>, start: nat := {}, 0;
    SixteenRounds(x, zero, two, none, start);
    SixteenTail(zero, two);
  }

  /** The rounds on sixteen copies of x, with the codes left symbolic. */
  lemma SixteenRounds(x: Byte, zero: Byte, two: Byte, none: set<Byte>, start: nat)
    requires x > 2 && zero == 0 && two == 2 && none == {} && start == 0
    ensures CompressFrom(Run(x, 16), none, start) == Compressed(Run(two, 2), [Rule(zero, x, x)] + Doublings(zero, two))
  {
    SixteenFirstRound(x);
    SixteenReplaced(x, zero);
    SixteenRest(x, zero, two, start + 1);
    CompressStep(Run(x, 16), none, start, Rule(zero, x, x), Run(zero, 8), {x, zero},
                 Compressed(Run(two, 2), Doublings(zero, two)));
  }

  /** The first round's rule (00, x, x) halves the run of x into a run of
      00s. */
  lemma SixteenReplaced(x: Byte, zero: Byte)
    requires x > 2 && zero == 0
    ensures Replace(Run(x, 16), x, x, zero) == Run(zero, 8)
  {
    RunReplaced(x, 8, zero);
  }

  /** The rounds after the first: eight 00s, with x and 00 taken. */
  lemma SixteenRest(x: Byte, zero: Byte, two: Byte, made: nat)
    requires x > 2 && zero == 0 && two == 2 && made == 1
    ensures CompressFrom(Run(zero, 8), {x, zero}, made) == Compressed(Run(two, 2), Doublings(zero, two))
  {
    assert Pow2(3) == 8;
    CompressRun(zero, two, {x, zero}, made, two);
  }

  /** What the run of eight 00s leaves: the block 02 02 and two rules. */
  lemma SixteenTail(zero: Byte, two: Byte)
    requires zero == 0 && two == 2
    ensures Run(two, 2) == [0x02, 0x02]
    ensures Doublings(zero, two) == [Rule(0x01, 0x00, 0x00), Rule(0x02, 0x01, 0x01)]
  {
    assert Doublings(2, 0) == [];
  }

  /** The first round on sixteen copies of x makes the rule (00, x, x). */
  lemma SixteenFirstRound(x: Byte)
    requires x > 2
    ensures Round(Run(x, 16), {}, 0) == Some(Rule(0x00, x, x))
    ensures Seen(Run(x, 16), {}) == {x}
  {
    var s := Run(x, 16);
    forall a: Byte, b: Byte ensures PairCount(s, a, b) == if a == x && b == x then 15 else 0 {
      RunPairs(x, 16, a, b);
    }
    BestPairOnly(s, x, x, 15);
    RunElems(x, 16);
  }

  /** The bytes compressData writes for sixteen copies of x: the block
      02 02 and its three rules. */
  lemma SixteenOutput(x: Byte)
    requires x > 2
    ensures CompressDataSpec(Run(x, 16)) ==
              [0x02, 0x00, 0x02, 0x02, 0x03, 0x00, x, x, 0x01, 0x00, 0x00, 0x02, 0x01, 0x01]
  {
    var rules := [Rule(0x00, x, x), Rule(0x01, 0x00, 0x00), Rule(0x02, 0x01, 0x01)];
    SixteenCompressed(x);
    OneBlockOutput(Run(x, 16), [0x02, 0x02], rules);
    SixteenRulesBytes(x);
    SixteenJoined(x, [|[0x02, 0x02]| % 256, |[0x02, 0x02]| / 256], [0x02, 0x02], [|rules|], RulesBytes(rules));
  }

  lemma SixteenJoined(x: Byte, len: seq<Byte>, data: seq<Byte>, count: seq<Byte>, rb: seq<Byte>)
    requires len == [0x02, 0x00] && data == [0x02, 0x02] && count == [0x03]
    requires rb == [0x00, x, x, 0x01, 0x00, 0x00, 0x02, 0x01, 0x01]
    ensures len + data + count + rb == [0x02, 0x00, 0x02, 0x02, 0x03, 0x00, x, x, 0x01, 0x00, 0x00, 0x02, 0x01, 0x01]
  {
  }

  /** The three rules of sixteen copies of x, serialized. */
  lemma SixteenRulesBytes(x: Byte)
    ensures RulesBytes([Rule(0x00, x, x), Rule(0x01, 0x00, 0x00), Rule(0x02, 0x01, 0x01)]) ==
              [0x00, x, x, 0x01, 0x00, 0x00, 0x02, 0x01, 0x01]
  {
    var r0, r1, r2 := Rule(0x00, x, x), Rule(0x01, 0x00, 0x00), Rule(0x02, 0x01, 0x01);
    RulesBytesCons(r2, []);
    RulesBytesCons(r1, [r2]);
    RulesBytesCons(r0, [r1, r2]);
    assert [r1] + [r2] == [r1, r2] && [r0] + [r1, r2] == [r0, r1, r2];
  }

  /** compressTest.c's sixteen 'A's. */
  lemma SixteenAOutput()
    ensures CompressDataSpec(Run(0x41, 16)) ==
              [0x02, 0x00, 0x02, 0x02, 0x03, 0x00, 0x41, 0x41, 0x01, 0x00, 0x00, 0x02, 0x01, 0x01]
  {
    SixteenOutput(0x41);
  }

  // The byte-pair example "ABABCABCD", for any four distinct bytes a, b,
  // c, d other than 00.

  /** 1 when the pair at hand is (p, q), 0 otherwise. */
  function Hit(x: Byte, y: Byte, p: Byte, q: Byte): nat
  {
    if x == p && y == q then 1 else 0
  }

  /** PairCount of a short block, pair by pair. */
  lemma PairCountNine(s: seq<Byte>, p: Byte, q: Byte)
    requires |s| == 9
    ensures PairCount(s, p, q) ==
              Hit(s[0], s[1], p, q) + Hit(s[1], s[2], p, q) + Hit(s[2], s[3], p, q) + Hit(s[3], s[4], p, q)
              + Hit(s[4], s[5], p, q) + Hit(s[5], s[6], p, q) + Hit(s[6], s[7], p, q) + Hit(s[7], s[8], p, q)
  {
    PairCountFront(s, p, q);
    PairCountFront(s[1..], p, q);
    PairCountFront(s[2..], p, q);
    PairCountFront(s[3..], p, q);
    PairCountSix(s[3..], p, q);
    assert s[1..][1..] == s[2..] && s[2..][1..] == s[3..];
  }

  lemma PairCountSix(s: seq<Byte>, p: Byte, q: Byte)
    requires |s| == 6
    ensures PairCount(s, p, q) ==
              Hit(s[0], s[1], p, q) + Hit(s[1], s[2], p, q) + Hit(s[2], s[3], p, q) + Hit(s[3], s[4], p, q)
              + Hit(s[4], s[5], p, q)
  {
    PairCountFront(s, p, q);
    PairCountFront(s[1..], p, q);
    PairCountFront(s[2..], p, q);
    PairCountFront(s[3..], p, q);
    assert s[1..][1..] == s[2..] && s[2..][1..] == s[3..] && s[3..][1..] == s[4..];
    assert PairCount(s[4..], p, q) == Hit(s[4], s[5], p, q) by {
      assert s[4..][..1] == [s[4]];
    }
  }

  /** "ABABCABCD": (a, b) occurs three times and no other pair more than
      twice, so one rule replaces it with the lowest unseen value 00; in
      the result no pair occurs three times, and compression stops. */
  lemma GageCompressed(a: Byte, b: Byte, c: Byte, d: Byte)
    requires 0 < a && 0 < b && 0 < c && 0 < d
    requires a != b && a != c && a != d && b != c && b != d && c != d
    ensures CompressBlockSpec([a, b, a, b, c, a, b, c, d]) == Compressed([0x00, 0x00, c, 0x00, c, d], [Rule(0x00, a, b)])
  {
    var zero: Byte := 0;
    var none: set<Byte>, start: nat := {}, 0;
    GageRounds(a, b, c, d, zero, none, start);
  }

  /** The rounds on "ABABCABCD", with the code, the codes taken and the
      rule count left symbolic. */
  lemma GageRounds(a: Byte, b: Byte, c: Byte, d: Byte, zero: Byte, none: set<Byte>, start: nat)
    requires 0 < a && 0 < b && 0 < c && 0 < d
    requires a != b && a != c && a != d && b != c && b != d && c != d
    requires zero == 0 && none == {} && start == 0
    ensures CompressFrom([a, b, a, b, c, a, b, c, d], none, start) ==
              Compressed([zero, zero, c, zero, c, d], [Rule(zero, a, b)])
  {
    var s := [a, b, a, b, c, a, b, c, d];
    var t := [zero, zero, c, zero, c, d];
    GageFirstRound(a, b, c, d);
    GageReplaced(a, b, c, d, zero);
    var next := Seen(s, none) + {zero};
    GageStops(c, d, zero, next, start + 1);
    CompressStep(s, none, start, Rule(zero, a, b), t, next, Compressed(t, []));
  }

  /** (a, b) occurs three times and no other pair more than twice, and 00
      is unseen: the first round makes the rule (00, a, b). */
  lemma GageFirstRound(a: Byte, b: Byte, c: Byte, d: Byte)
    requires 0 < a && 0 < b && 0 < c && 0 < d
    requires a != b && a != c && a != d && b != c && b != d && c != d
    ensures Round([a, b, a, b, c, a, b, c, d], {}, 0) == Some(Rule(0x00, a, b))
  {
    var s := [a, b, a, b, c, a, b, c, d];
    forall p: Byte, q: Byte ensures (p, q) != (a, b) ==> PairCount(s, p, q) < 3 {
      PairCountNine(s, p, q);
    }
    PairCountNine(s, a, b);
    BestPairOnly(s, a, b, 3);
    assert 0 !in Elems(s);
  }

  /** The rule (00, a, b) applied to "ABABCABCD". */
  lemma GageReplaced(a: Byte, b: Byte, c: Byte, d: Byte, zero: Byte)
    requires 0 < a && 0 < b && 0 < c && 0 < d
    requires a != b && a != c && a != d && b != c && b != d && c != d
    requires zero == 0
    ensures Replace([a, b, a, b, c, a, b, c, d], a, b, zero) == [zero, zero, c, zero, c, d]
  {
    var s := [a, b, a, b, c, a, b, c, d];
    assert Replace([d], a, b, zero) == [d];
    assert [c, d][1..] == [d];
    assert Replace([c, d], a, b, zero) == [c, d];
    assert [a, b, c, d][2..] == [c, d];
    assert Replace([a, b, c, d], a, b, zero) == [zero, c, d];
    assert [c, a, b, c, d][1..] == [a, b, c, d];
    assert Replace([c, a, b, c, d], a, b, zero) == [c, zero, c, d];
    assert [a, b, c, a, b, c, d][2..] == [c, a, b, c, d];
    assert Replace([a, b, c, a, b, c, d], a, b, zero) == [zero, c, zero, c, d];
    assert s[2..] == [a, b, c, a, b, c, d];
  }

  /** In 00 00 c 00 c d no pair occurs three times, so compression stops
      whatever codes are taken. */
  lemma GageStops(c: Byte, d: Byte, zero: Byte, used: set<Byte>, made: nat)
    requires 0 < c && 0 < d && c != d && zero == 0
    ensures CompressFrom([zero, zero, c, zero, c, d], used, made) == Compressed([zero, zero, c, zero, c, d], [])
  {
    var t := [zero, zero, c, zero, c, d];
    forall p: Byte, q: Byte ensures PairCount(t, p, q) <= 2 {
      PairCountSix(t, p, q);
    }
    BestPairAtMost(t, 2);
    RoundStops(t, used, made);
  }

  /** The bytes compressData writes for "ABABCABCD" in general: the
      six-byte block and its one rule. */
  lemma GageOutput(a: Byte, b: Byte, c: Byte, d: Byte)
    requires 0 < a && 0 < b && 0 < c && 0 < d
    requires a != b && a != c && a != d && b != c && b != d && c != d
    ensures CompressDataSpec([a, b, a, b, c, a, b, c, d]) == [0x06, 0x00, 0x00, 0x00, c, 0x00, c, d, 0x01, 0x00, a, b]
  {
    GageCompressed(a, b, c, d);
    OneBlockOutput([a, b, a, b, c, a, b, c, d], [0x00, 0x00, c, 0x00, c, d], [Rule(0x00, a, b)]);
    RulesBytesCons(Rule(0x00, a, b), []);
    assert [Rule(0x00, a, b)] + [] == [Rule(0x00, a, b)];
  }

  /** compressTest.c's first case, from Gage's paper. */
  lemma AbabcabcdOutput()
    ensures CompressDataSpec([0x41, 0x42, 0x41, 0x42, 0x43, 0x41, 0x42, 0x43, 0x44]) ==
              [0x06, 0x00, 0x00, 0x00, 0x43, 0x00, 0x43, 0x44, 0x01, 0x00, 0x41, 0x42]
  {
    GageOutput(0x41, 0x42, 0x43, 0x44);
  }
}
