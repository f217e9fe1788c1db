/** The word counter of EX/EX15/wordlist.c: words of letters and
    apostrophes are read from a file, lowered and cut to WORD_MAX
    characters, each distinct word is kept once in a growable array of
    records with its number of occurrences, and the records are put in
    strcmp order by a stable insertion sort. */
module WordCount {
  import opened ByteBuffer
  import opened CStrings

  /** Longest word kept; longer words are truncated. */
  const WORD_MAX: nat := 8

  /** A word record: how often it occurred and the word itself. */
  datatype Word = Word(count: nat, str: seq<Byte>)

  predicate IsUpper(ch: Byte)
  {
    0x41 <= ch <= 0x5A
  }

  /** wordChar (wordlist.c:37-42): a letter of either case or an
      apostrophe. */
  predicate WordChar(ch: Byte)
  {
    0x61 <= ch <= 0x7A || IsUpper(ch) || ch == 0x27
  }

  /** toLower (wordlist.c:47-52). */
  function ToLower(ch: Byte): (r: Byte)
    ensures !IsUpper(r)
    ensures IsUpper(ch) ==> r == ch + 0x20
    ensures !IsUpper(ch) ==> r == ch
  {
    if IsUpper(ch) then ch - 0x41 + 0x61 else ch
  }

  /** Lowering keeps word characters word characters and is idempotent. */
  lemma ToLowerKeepsWords(ch: Byte)
    ensures WordChar(ToLower(ch)) <==> WordChar(ch)
    ensures ToLower(ToLower(ch)) == ToLower(ch)
  {
  }

  /** The record a word read from the file is counted under. */
  function Key(w: seq<Byte>): (r: seq<Byte>)
    ensures |r| == if |w| < WORD_MAX then |w| else WORD_MAX
    ensures forall i :: 0 <= i < |r| ==> r[i] == ToLower(w[i])
  {
    var n := if |w| < WORD_MAX then |w| else WORD_MAX;
    seq(n, i requires 0 <= i < n => ToLower(w[i]))
  }

  /** The number of word characters s starts with. */
  function Run(s: seq<Byte>): (n: nat)
    ensures n <= |s|
    ensures forall i :: 0 <= i < n ==> WordChar(s[i])
    ensures n < |s| ==> !WordChar(s[n])
  {
    if s == [] || !WordChar(s[0]) then 0 else 1 + Run(s[1..])
  }

  /** The number of other characters s starts with. */
  function Gap(s: seq<Byte>): (n: nat)
    ensures n <= |s|
    ensures forall i :: 0 <= i < n ==> !WordChar(s[i])
    ensures n < |s| ==> WordChar(s[n])
  {
    if s == [] || WordChar(s[0]) then 0 else 1 + Gap(s[1..])
  }

  /** The keys of the words of a file's contents, in order. */
  function Tokens(s: seq<Byte>): seq<seq<Byte>>
    decreases |s|
  {
    var g := Gap(s);
    if g == |s| then []
    else
      var t := s[g..];
      var n := Run(t);
      assert n > 0 by { assert WordChar(t[0]); }
      [Key(t[..n])] + Tokens(t[n..])
  }

  /** The index of the first record holding str, -1 when none does. */
  function IndexOf(ws: seq<Word>, str: seq<Byte>): (k: int)
    ensures -1 <= k < |ws|
    ensures k >= 0 ==> ws[k].str == str && forall j :: 0 <= j < k ==> ws[j].str != str
    ensures k == -1 <==> forall j :: 0 <= j < |ws| ==> ws[j].str != str
  {
    if ws == [] then -1
    else if ws[0].str == str then 0
    else
      var k := IndexOf(ws[1..], str);
      if k < 0 then -1 else k + 1
  }

  /** The records after one more occurrence of str: its record counts one
      more, or a record for it is appended (wordlist.c:117-137). */
  function Counted(ws: seq<Word>, str: seq<Byte>): seq<Word>
  {
    var i := IndexOf(ws, str);
    if i < 0 then ws + [Word(1, str)] else ws[i := Word(ws[i].count + 1, str)]
  }

  /** The records after counting every word of toks in order. */
  function Tally(toks: seq<seq<Byte>>): seq<Word>
  {
    if toks == [] then [] else Counted(Tally(toks[..|toks| - 1]), toks[|toks| - 1])
  }

  /** The records account for a multiset of words: each word once, with
      its number of occurrences, and every word has its record. */
  ghost predicate Tallies(ws: seq<Word>, m: multiset<seq<Byte>>)
  {
    && (forall i, j :: 0 <= i < j < |ws| ==> ws[i].str != ws[j].str)
    && (forall i :: 0 <= i < |ws| ==> ws[i].count == m[ws[i].str] > 0)
    && (forall w :: w in m ==> w in Strs(ws))
  }

  /** The words the records hold, in order. */
  function Strs(ws: seq<Word>): (r: seq<seq<Byte>>)
    ensures |r| == |ws|
    ensures forall i :: 0 <= i < |ws| ==> r[i] == ws[i].str
  {
    seq(|ws|, i requires 0 <= i < |ws| => ws[i].str)
  }

  /** Counting one word keeps the records accurate. */
  lemma CountedTallies(ws: seq<Word>, m: multiset<seq<Byte>>, str: seq<Byte>)
    requires Tallies(ws, m)
    ensures Tallies(Counted(ws, str), m + multiset{str})
  {
    if IndexOf(ws, str) < 0 {
      CountedNew(ws, m, str);
    } else {
      CountedSeen(ws, m, str);
    }
  }

  /** A new word gets a record with count 1. */
  lemma {:induction false} CountedNew(ws: seq<Word>, m: multiset<seq<Byte>>, str: seq<Byte>)
    requires Tallies(ws, m) && IndexOf(ws, str) < 0
    ensures Tallies(Counted(ws, str), m + multiset{str})
  {
    var r := ws + [Word(1, str)];
    var m' := m + multiset{str};
    assert m[str] == 0;
    forall k | 0 <= k < |r|
      ensures r[k].count == m'[r[k].str] > 0
    {
      if k < |ws| {
        assert r[k] == ws[k] && ws[k].str != str;
      }
    }
    assert Strs(r) == Strs(ws) + [str];
  }

  /** A word seen before counts once more in its own record. */
  lemma {:induction false} CountedSeen(ws: seq<Word>, m: multiset<seq<Byte>>, str: seq<Byte>)
    requires Tallies(ws, m) && IndexOf(ws, str) >= 0
    ensures Tallies(Counted(ws, str), m + multiset{str})
  {
    var i := IndexOf(ws, str);
    var r := ws[i := Word(ws[i].count + 1, str)];
    var m' := m + multiset{str};
    forall k | 0 <= k < |r|
      ensures r[k].count == m'[r[k].str] > 0
    {
      if k != i {
        assert r[k] == ws[k] && ws[k].str != str;
      }
    }
    assert Strs(r) == Strs(ws);
  }

  /** Every distinct word of toks has exactly one record, and its count is
      its number of occurrences. */
  lemma {:induction false} TallyCounts(toks: seq<seq<Byte>>)
    ensures Tallies(Tally(toks), multiset(toks))
  {
    if toks != [] {
      var init := toks[..|toks| - 1];
      TallyCounts(init);
      CountedTallies(Tally(init), multiset(init), toks[|toks| - 1]);
      assert toks == init + [toks[|toks| - 1]];
    }
  }

  /** Nondecreasing strcmp order of the words. */
  ghost predicate SortedWords(s: seq<Word>)
  {
    forall i, j :: 0 <= i < j < |s| ==> Strcmp(s[i].str, s[j].str) <= 0
  }

  /** One pass of sortList's outer loop (wordlist.c:153-162): w moves
      back past every record whose word is above its own. */
  function InsertWord(t: seq<Word>, w: Word): (r: seq<Word>)
    ensures |r| == |t| + 1
    decreases |t|
  {
    if t == [] || Strcmp(w.str, t[|t| - 1].str) >= 0 then t + [w]
    else InsertWord(t[..|t| - 1], w) + [t[|t| - 1]]
  }

  /** The records sortList leaves: each one inserted in turn into the
      sorted ones before it. */
  function Sort(s: seq<Word>): (r: seq<Word>)
    ensures |r| == |s|
  {
    if s == [] then [] else InsertWord(Sort(s[..|s| - 1]), s[|s| - 1])
  }

  /** The records whose word is str, in order. */
  function Filter(s: seq<Word>, str: seq<Byte>): seq<Word>
  {
    if s == [] then []
    else Filter(s[..|s| - 1], str) + (if s[|s| - 1].str == str then [s[|s| - 1]] else [])
  }

  /** strcmp order is transitive. */
  lemma StrcmpLeTrans(a: seq<Byte>, b: seq<Byte>, c: seq<Byte>)
    requires Strcmp(a, b) <= 0 && Strcmp(b, c) <= 0
    ensures Strcmp(a, c) <= 0
  {
    if Strcmp(b, c) < 0 {
      StrcmpTransLe(a, b, c);
    } else {
      StrcmpZero(b, c);
    }
  }

  /** Inserting adds exactly w. */
  lemma {:induction false} InsertWordMultiset(t: seq<Word>, w: Word)
    ensures multiset(InsertWord(t, w)) == multiset(t) + multiset{w}
    decreases |t|
  {
    if !(t == [] || Strcmp(w.str, t[|t| - 1].str) >= 0) {
      InsertWordMultiset(t[..|t| - 1], w);
      assert t == t[..|t| - 1] + [t[|t| - 1]];
    }
  }

  /** Every record's word is at most str in strcmp order. */
  ghost predicate AtMost(s: seq<Word>, str: seq<Byte>)
  {
    forall k :: 0 <= k < |s| ==> Strcmp(s[k].str, str) <= 0
  }

  /** A record no smaller than all before it extends sorted records. */
  lemma SortedSnoc(s: seq<Word>, w: Word)
    requires SortedWords(s) && AtMost(s, w.str)
    ensures SortedWords(s + [w])
  {
    var r := s + [w];
    forall i, j | 0 <= i < j < |r|
      ensures Strcmp(r[i].str, r[j].str) <= 0
    {
      if j < |s| {
        assert r[i] == s[i] && r[j] == s[j];
      } else {
        assert r[i] == s[i] && r[j] == w;
      }
    }
  }

  /** The records of InsertWord(init, w) are those of init, all at most
      last, and w, below last. */
  lemma InsertedAtMost(init: seq<Word>, w: Word, last: Word)
    requires AtMost(init, last.str) && Strcmp(w.str, last.str) < 0
    ensures AtMost(InsertWord(init, w), last.str)
  {
    var r := InsertWord(init, w);
    InsertWordMultiset(init, w);
    forall k | 0 <= k < |r|
      ensures Strcmp(r[k].str, last.str) <= 0
    {
      assert r[k] in multiset(r);
      if r[k] != w {
        var m :| 0 <= m < |init| && init[m] == r[k];
      }
    }
  }

  /** Inserting into sorted records keeps them sorted. */
  lemma {:induction false} InsertWordSorted(t: seq<Word>, w: Word)
    requires SortedWords(t)
    ensures SortedWords(InsertWord(t, w))
    decreases |t|
  {
    if t == [] {
    } else if Strcmp(w.str, t[|t| - 1].str) >= 0 {
      var last := t[|t| - 1];
      StrcmpFlip(w.str, last.str);
      forall k | 0 <= k < |t|
        ensures Strcmp(t[k].str, w.str) <= 0
      {
        if k < |t| - 1 {
          StrcmpLeTrans(t[k].str, last.str, w.str);
        }
      }
      SortedSnoc(t, w);
    } else {
      var init := t[..|t| - 1];
      var last := t[|t| - 1];
      InsertWordSorted(init, w);
      forall m | 0 <= m < |init|
        ensures Strcmp(init[m].str, last.str) <= 0
      {
        assert init[m] == t[m];
      }
      InsertedAtMost(init, w, last);
      SortedSnoc(InsertWord(init, w), last);
    }
  }

  /** w passes only records with a word above its own, so the records with
      any one word keep their order and w comes after those with its word. */
  lemma {:induction false} InsertWordStable(t: seq<Word>, w: Word, str: seq<Byte>)
    ensures Filter(InsertWord(t, w), str) == Filter(t, str) + (if w.str == str then [w] else [])
    decreases |t|
  {
    var r := InsertWord(t, w);
    if t == [] || Strcmp(w.str, t[|t| - 1].str) >= 0 {
      assert r[..|r| - 1] == t;
    } else {
      var init := t[..|t| - 1];
      var last := t[|t| - 1];
      InsertWordStable(init, w, str);
      StrcmpZero(w.str, last.str);
      assert r[..|r| - 1] == InsertWord(init, w);
    }
  }

  /** sortList leaves the records a permutation of the old ones, in
      nondecreasing strcmp order, with equal words in their old order. */
  lemma {:induction false} SortIsStable(s: seq<Word>)
    ensures SortedWords(Sort(s))
    ensures multiset(Sort(s)) == multiset(s)
    ensures forall str :: Filter(Sort(s), str) == Filter(s, str)
  {
    if s != [] {
      var init := s[..|s| - 1];
      var last := s[|s| - 1];
      SortIsStable(init);
      InsertWordSorted(Sort(init), last);
      InsertWordMultiset(Sort(init), last);
      assert s == init + [last];
      forall str
        ensures Filter(Sort(s), str) == Filter(s, str)
      {
        InsertWordStable(Sort(init), last, str);
      }
    }
  }

  /** The list of word records: `count` records in use in an array whose
      length is the capacity. */
  class WordList {
    var count: nat
    var words: array<Word>

    ghost predicate Valid()
      reads this
    {
      2 <= words.Length && count <= words.Length
    }

    /** The list readWords starts from (wordlist.c:76-87): no records in
        use and room for two blank ones. */
    constructor ()
      ensures Valid() && count == 0 && words.Length == 2 && fresh(words)
    {
      count := 0;
      words := new Word[2](_ => Word(0, []));
    }

    /** findWord (wordlist.c:57-63): the first record whose word strcmp
        finds equal to str, or -1 when there is none. */
    method FindWord(str: seq<Byte>) returns (idx: int)
      requires Valid()
      ensures -1 <= idx < count
      ensures idx >= 0 ==> words[idx].str == str && forall j :: 0 <= j < idx ==> words[j].str != str
      ensures idx == -1 <==> forall j :: 0 <= j < count ==> words[j].str != str
      ensures idx == IndexOf(words[..count], str)
    {
      for i := 0 to count
        invariant forall j :: 0 <= j < i ==> words[j].str != str
      {
        StrcmpZero(str, words[i].str);
        if Strcmp(str, words[i].str) == 0 {
          IndexOfFirst(words[..count], str, i);
          return i;
        }
      }
      IndexOfFirst(words[..count], str, -1);
      return -1;
    }

    /** realloc to twice the capacity (wordlist.c:121-124): the records
        move to a fresh array, and the new slots are blank. */
    method Grow()
      requires Valid()
      modifies this
      ensures Valid() && fresh(words) && count == old(count)
      ensures words.Length == 2 * old(words.Length)
      ensures words[..old(words.Length)] == old(words[..])
    {
      var bigger := new Word[2 * words.Length](_ => Word(0, []));
      for i := 0 to words.Length
        modifies bigger
        invariant forall j :: 0 <= j < i ==> bigger[j] == words[j]
      {
        bigger[i] := words[i];
      }
      words := bigger;
    }

    /** Counting one word read from the file (wordlist.c:117-137): find
        its record, or append a blank one, growing the array when it is
        full; then count one more occurrence. */
    method CountWord(str: seq<Byte>)
      requires Valid()
      modifies this, words
      ensures Valid() && words[..count] == Counted(old(words[..count]), str)
      ensures words == old(words) || fresh(words)
    {
      ghost var before := words[..count];
      var idx := FindWord(str);
      if idx < 0 {
        if count >= words.Length {
          Grow();
        }
        idx := count;
        words[idx] := Word(0, str);
        count := count + 1;
      }
      words[idx] := Word(words[idx].count + 1, str);
      assert words[..count] == Counted(before, str);
    }

    /** sortList (wordlist.c:149-164): insertion sort of the records in
        use; the array beyond them is untouched. */
    method SortList()
      requires Valid()
      modifies words
      ensures words[..count] == Sort(old(words[..count]))
      ensures forall j :: count <= j < words.Length ==> words[j] == old(words[j])
    {
      ghost var s := words[..count];
      if count == 0 {
        return;
      }
      assert words[..1] == Sort(s[..1]);
      var i := 1;
      while i < count
        invariant 1 <= i <= count
        invariant words[..i] == Sort(s[..i])
        invariant forall j :: i <= j < words.Length ==> words[j] == old(words[j])
      {
        assert s[..i + 1][..i] == s[..i];
        InsertPass(i);
        i := i + 1;
      }
      assert s[..count] == s;
    }

    /** One pass of the outer loop of sortList: record i goes into place
        among the sorted ones before it. */
    method InsertPass(i: nat)
      requires Valid() && i < count
      modifies words
      ensures words[..i + 1] == InsertWord(old(words[..i]), old(words[i]))
      ensures forall j :: i < j < words.Length ==> words[j] == old(words[j])
    {
      ghost var t := words[..i];
      var w := words[i];
      var pos := ShiftBack(words, i, w, (x: Word) => x.str);
      InsertWordAt(t, w, pos);
      words[pos] := w;
      Spliced(words[..i + 1], t, pos, w);
    }
  }

  /** The inner loop of sortList (wordlist.c:156-160): the records from
      i - 1 down whose word is above w's move up one place; pos is where
      the first one that is not above it, or the start, leaves room. */
  method ShiftBack<T>(a: array<T>, i: nat, w: T, key: T -> seq<Byte>) returns (pos: nat)
    requires i < a.Length
    modifies a
    ensures pos <= i
    ensures forall j :: 0 <= j < pos ==> a[j] == old(a[j])
    ensures forall j :: pos < j <= i ==> a[j] == old(a[j - 1])
    ensures forall j :: i < j < a.Length ==> a[j] == old(a[j])
    ensures forall j :: pos <= j < i ==> Strcmp(key(w), key(old(a[j]))) < 0
    ensures pos > 0 ==> Strcmp(key(w), key(old(a[pos - 1]))) >= 0
  {
    pos := i;
    while pos > 0 && Strcmp(key(w), key(a[pos - 1])) < 0
      invariant 0 <= pos <= i
      invariant forall j :: 0 <= j < pos ==> a[j] == old(a[j])
      invariant forall j :: pos < j <= i ==> a[j] == old(a[j - 1])
      invariant forall j :: i < j < a.Length ==> a[j] == old(a[j])
      invariant forall j :: pos <= j < i ==> Strcmp(key(w), key(old(a[j]))) < 0
    {
      a[pos] := a[pos - 1];
      pos := pos - 1;
    }
  }

  /** InsertWord places w after the records whose word is not above its
      own and before the run of those above it at the end. */
  lemma {:induction false} InsertWordAt(t: seq<Word>, w: Word, pos: nat)
    requires pos <= |t|
    requires forall j :: pos <= j < |t| ==> Strcmp(w.str, t[j].str) < 0
    requires pos > 0 ==> Strcmp(w.str, t[pos - 1].str) >= 0
    ensures InsertWord(t, w) == t[..pos] + [w] + t[pos..]
    decreases |t|
  {
    if pos < |t| {
      var init := t[..|t| - 1];
      InsertWordAt(init, w, pos);
      assert init[..pos] == t[..pos];
      assert init[pos..] + [t[|t| - 1]] == t[pos..];
      AppendAssoc(t[..pos] + [w], init[pos..], [t[|t| - 1]]);
    }
  }

  /** A sequence that agrees with t before pos, holds w at pos, and holds
      the rest of t after it, is t with w spliced in. */
  lemma Spliced<T>(a: seq<T>, t: seq<T>, pos: nat, w: T)
    requires pos <= |t| && |a| == |t| + 1
    requires forall j :: 0 <= j < pos ==> a[j] == t[j]
    requires a[pos] == w
    requires forall j :: pos < j < |a| ==> a[j] == t[j - 1]
    ensures a == t[..pos] + [w] + t[pos..]
  {
  }

  /** IndexOf picks the first matching record. */
  lemma {:induction false} IndexOfFirst(ws: seq<Word>, str: seq<Byte>, k: int)
    requires -1 <= k < |ws|
    requires k >= 0 ==> ws[k].str == str && forall j :: 0 <= j < k ==> ws[j].str != str
    requires k == -1 ==> forall j :: 0 <= j < |ws| ==> ws[j].str != str
    ensures IndexOf(ws, str) == k
  {
  }

  /** readWords (wordlist.c:67-146) over the contents of the file: skip
      to a word, read it lowered and cut to WORD_MAX characters, count it,
      until the end of the file. */
  method ReadWords(input: seq<Byte>) returns (list: WordList)
    ensures fresh(list) && list.Valid()
    ensures list.words[..list.count] == Tally(Tokens(input))
  {
    list := new WordList();
    ghost var all := Tokens(input);
    ghost var done: seq<seq<Byte>> := [];
    var p := 0;
    assert input[0..] == input;
    while p < |input|
      invariant p <= |input|
      invariant fresh(list) && fresh(list.words) && list.Valid()
      invariant list.words[..list.count] == Tally(done)
      invariant all == done + Tokens(input[p..])
      decreases |input| - p
    {
      ghost var p0 := p;
      var last, str;
      p, last, str := ReadStep(list, input, p);
      if last {
        assert done + [] == done;
        return;
      }
      TallyStep(done, str);
      AppendAssoc(done, [str], Tokens(input[p..]));
      done := done + [str];
    }
    assert Tokens(input[p..]) == [];
    assert done + [] == done;
  }

  lemma AppendAssoc<T>(a: seq<T>, b: seq<T>, c: seq<T>)
    ensures a + (b + c) == (a + b) + c
  {
  }

  /** One pass of the outer loop of readWords (wordlist.c:90-141): skip
      to a word and count it; `last` when the file ends first. */
  method ReadStep(list: WordList, input: seq<Byte>, p: nat) returns (p': nat, last: bool, str: seq<Byte>)
    requires list.Valid() && p <= |input|
    modifies list, list.words
    ensures list.Valid() && (list.words == old(list.words) || fresh(list.words))
    ensures last ==> p' == p
    ensures !last ==> p < p' <= |input|
    ensures last ==> Tokens(input[p..]) == [] && list.words[..list.count] == old(list.words[..list.count])
    ensures !last ==> Tokens(input[p..]) == [str] + Tokens(input[p'..])
    ensures !last ==> list.words[..list.count] == Counted(old(list.words[..list.count]), str)
  {
    var start := SkipGap(input, p);
    var q;
    str, q := ReadWord(input, start);
    if |str| == 0 {
      assert input[start..] == [];
      return p, true, str;
    }
    TokensAt(input, start, q);
    list.CountWord(str);
    return q, false, str;
  }

  /** Counting one more word extends the tally by that word. */
  lemma TallyStep(done: seq<seq<Byte>>, str: seq<Byte>)
    ensures Tally(done + [str]) == Counted(Tally(done), str)
  {
    assert (done + [str])[..|done|] == done;
  }

  /** Skipping the characters before a word leaves the words to come as
      they were (wordlist.c:92-93). */
  method SkipGap(input: seq<Byte>, p: nat) returns (p': nat)
    requires p <= |input|
    ensures p <= p' <= |input| && p' == p + Gap(input[p..])
    ensures Tokens(input[p'..]) == Tokens(input[p..])
  {
    p' := p;
    while p' < |input| && !WordChar(input[p'])
      invariant p <= p' <= |input|
      invariant forall i :: p <= i < p' ==> !WordChar(input[i])
    {
      p' := p' + 1;
    }
    GapIs(input[p..], p' - p);
    TokensSkip(input[p..]);
    assert input[p..][p' - p..] == input[p'..];
  }

  /** Reading one word (wordlist.c:99-108): its word characters, lowered,
      keeping the first WORD_MAX. */
  method ReadWord(input: seq<Byte>, p: nat) returns (str: seq<Byte>, q: nat)
    requires p <= |input|
    ensures q == p + Run(input[p..])
    ensures str == Key(input[p..q])
  {
    str := [];
    q := p;
    while q < |input| && WordChar(input[q])
      invariant p <= q <= |input|
      invariant forall i :: p <= i < q ==> WordChar(input[i])
      invariant str == Key(input[p..q])
    {
      if |str| < WORD_MAX {
        str := str + [ToLower(input[q])];
      }
      q := q + 1;
    }
    RunIs(input[p..], q - p);
  }

  lemma {:induction false} GapIs(s: seq<Byte>, n: nat)
    requires n <= |s|
    requires forall i :: 0 <= i < n ==> !WordChar(s[i])
    requires n < |s| ==> WordChar(s[n])
    ensures Gap(s) == n
  {
    if n > 0 {
      GapIs(s[1..], n - 1);
    }
  }

  lemma {:induction false} RunIs(s: seq<Byte>, n: nat)
    requires n <= |s|
    requires forall i :: 0 <= i < n ==> WordChar(s[i])
    requires n < |s| ==> !WordChar(s[n])
    ensures Run(s) == n
  {
    if n > 0 {
      RunIs(s[1..], n - 1);
    }
  }

  /** Tokens skip what stands before the first word. */
  lemma {:induction false} TokensSkip(s: seq<Byte>)
    ensures Tokens(s) == Tokens(s[Gap(s)..])
  {
    var g := Gap(s);
    var t := s[g..];
    GapIs(t, 0);
  }

  /** A word starting at p is the next token. */
  lemma TokensAt(input: seq<Byte>, p: nat, q: nat)
    requires p < q <= |input|
    requires q == p + Run(input[p..])
    ensures Tokens(input[p..]) == [Key(input[p..q])] + Tokens(input[q..])
  {
    var t := input[p..];
    GapIs(t, 0);
    assert t[..q - p] == input[p..q];
    assert t[q - p..] == input[q..];
  }
}
