/** The spelling-correction table of Homeworks/hw2/correction.c: target
    words kept in strictly ascending strcmp order next to their
    replacements, searched by binary search, and the capitalisation a
    replacement takes from the word it replaces. */
module Corrections {
  import opened Wrappers
  import opened ByteBuffer
  import opened CStrings
  import opened StringEdit

  /** Longest target or replacement, and longest word looked up. */
  const WORD_LIMIT: nat := 20

  /** Longest line, before and after correction. */
  const LINE_LIMIT: nat := 80

  /** Room in the working copy of a line, not counting its NUL. */
  const ARBITRARY_LINE_LENGTH: nat := 200

  /** Most entries the table holds. */
  const CORRECTION_LIMIT: nat := 50000

  const APOSTROPHE: Byte := 0x27

  /** The C locale's isupper, islower, isalpha and isalnum. */
  predicate IsUpper(b: Byte)
  {
    0x41 <= b <= 0x5A
  }

  predicate IsLower(b: Byte)
  {
    0x61 <= b <= 0x7A
  }

  predicate IsAlpha(b: Byte)
  {
    IsUpper(b) || IsLower(b)
  }

  predicate IsAlnum(b: Byte)
  {
    IsAlpha(b) || 0x30 <= b <= 0x39
  }

  /** tolower: upper-case letters to their lower-case partners. */
  function ToLower(b: Byte): (r: Byte)
    ensures !IsUpper(r)
    ensures IsAlpha(r) <==> IsAlpha(b)
    ensures !IsUpper(b) ==> r == b
  {
    if IsUpper(b) then b + 0x20 else b
  }

  /** toupper: lower-case letters to their upper-case partners. */
  function ToUpper(b: Byte): (r: Byte)
    ensures !IsLower(r)
    ensures ToLower(r) == ToLower(b)
  {
    if IsLower(b) then b - 0x20 else b
  }

  /** A word with every letter lowered, as checkCorrections prepares it. */
  function Lower(w: seq<Byte>): (r: seq<Byte>)
    ensures |r| == |w|
    ensures forall i :: 0 <= i < |r| ==> !IsUpper(r[i])
  {
    seq(|w|, i requires 0 <= i < |w| => ToLower(w[i]))
  }

  /** A word without upper-case letters is its own lower-case form. */
  lemma LowerOfLower(w: seq<Byte>)
    requires forall i :: 0 <= i < |w| ==> !IsUpper(w[i])
    ensures Lower(w) == w
  {
  }

  ghost predicate StrictlySorted(ws: seq<seq<Byte>>)
  {
    forall i, j :: 0 <= i < j < |ws| ==> Strcmp(ws[i], ws[j]) < 0
  }

  /** What isValidCorrection accepts (correction.c:157-184), stated over
      the table of targets: both words short enough, different, the target
      of lower-case letters and apostrophes, the replacement of letters,
      digits and apostrophes, neither (lowered) already a target, and the
      target not below the last one stored. */
  predicate ValidCorrection(targets: seq<seq<Byte>>, target: seq<Byte>, replacement: seq<Byte>)
  {
    && |target| <= WORD_LIMIT && |replacement| <= WORD_LIMIT
    && target != replacement
    && (forall i :: 0 <= i < |target| ==> IsLower(target[i]) || target[i] == APOSTROPHE)
    && (forall i :: 0 <= i < |replacement| ==> IsAlnum(replacement[i]) || replacement[i] == APOSTROPHE)
    && Lower(replacement) !in targets
    && Lower(target) !in targets
    && (targets == [] || Strcmp(target, targets[|targets| - 1]) >= 0)
  }

  /** An accepted target goes strictly after every stored one, so the
      table stays strictly sorted. */
  lemma AcceptedKeepsOrder(targets: seq<seq<Byte>>, target: seq<Byte>, replacement: seq<Byte>)
    requires StrictlySorted(targets)
    requires ValidCorrection(targets, target, replacement)
    ensures StrictlySorted(targets + [target])
  {
    LowerOfLower(target);
    if targets != [] {
      var last := targets[|targets| - 1];
      StrcmpZero(target, last);
      forall i | 0 <= i < |targets|
        ensures Strcmp(targets[i], target) < 0
      {
        StrcmpFlip(target, last);
        if i < |targets| - 1 {
          StrcmpTrans(targets[i], last, target);
        }
      }
    }
    var ws := targets + [target];
    forall i, j | 0 <= i < j < |ws|
      ensures Strcmp(ws[i], ws[j]) < 0
    {
      if j < |targets| {
        assert ws[i] == targets[i] && ws[j] == targets[j];
      }
    }
  }

  /** The index of w among the targets, -1 when it is not one. */
  function Lookup(targets: seq<seq<Byte>>, w: seq<Byte>): (k: int)
    ensures -1 <= k < |targets|
    ensures k == -1 <==> w !in targets
    ensures k >= 0 ==> targets[k] == w
  {
    if targets == [] then -1
    else if targets[|targets| - 1] == w then |targets| - 1
    else Lookup(targets[..|targets| - 1], w)
  }

  /** In a strictly sorted table a target sits at one index only. */
  lemma LookupFinds(targets: seq<seq<Byte>>, k: nat)
    requires StrictlySorted(targets) && k < |targets|
    ensures Lookup(targets, targets[k]) == k
  {
    var j := Lookup(targets, targets[k]);
    if j < k {
      StrcmpZero(targets[j], targets[k]);
    } else if k < j {
      StrcmpZero(targets[k], targets[j]);
    }
  }

  /** The characters scanWords gathers into words. */
  predicate WordChar(b: Byte)
  {
    IsAlpha(b) || b == APOSTROPHE
  }

  /** What a finished word turns into: a word of more than WORD_LIMIT
      letters is left alone; otherwise a word whose lowered form is a
      target becomes that target's replacement, cased after the word. */
  function Fixed(targets: seq<seq<Byte>>, corrs: seq<seq<Byte>>, word: seq<Byte>): seq<Byte>
    requires |targets| == |corrs|
  {
    if |word| > WORD_LIMIT then word
    else
      var k := Lookup(targets, Lower(word));
      if k < 0 then word else Cased(word, corrs[k])
  }

  /** The corrected rest of a line, given the letters of the word in
      progress: word characters extend the word; any other character, and
      the end of the line, finish it. */
  function Scan(targets: seq<seq<Byte>>, corrs: seq<seq<Byte>>, rest: seq<Byte>, word: seq<Byte>): seq<Byte>
    requires |targets| == |corrs|
    decreases |rest|
  {
    if rest == [] then Fixed(targets, corrs, word)
    else if WordChar(rest[0]) then Scan(targets, corrs, rest[1..], word + [rest[0]])
    else Fixed(targets, corrs, word) + [rest[0]] + Scan(targets, corrs, rest[1..], [])
  }

  /** The line with every listed word corrected. */
  function CorrectLine(targets: seq<seq<Byte>>, corrs: seq<seq<Byte>>, line: seq<Byte>): seq<Byte>
    requires |targets| == |corrs|
  {
    Scan(targets, corrs, line, [])
  }

  /** With no corrections listed every line comes back unchanged. */
  lemma {:induction false} NothingListed(rest: seq<Byte>, word: seq<Byte>)
    ensures Scan([], [], rest, word) == word + rest
    decreases |rest|
  {
    if rest != [] {
      if WordChar(rest[0]) {
        NothingListed(rest[1..], word + [rest[0]]);
        assert word + [rest[0]] + rest[1..] == word + rest;
      } else {
        NothingListed(rest[1..], []);
        assert word + [rest[0]] + rest[1..] == word + rest;
      }
    }
  }

  /** A corrected line starts with the correction of its first word. */
  lemma ScanStartsWithWord(targets: seq<seq<Byte>>, corrs: seq<seq<Byte>>, rest: seq<Byte>, word: seq<Byte>)
    requires |targets| == |corrs|
    requires rest == [] || !WordChar(rest[0])
    ensures |Scan(targets, corrs, rest, word)| >= |Fixed(targets, corrs, word)|
  {
  }

  /** The correction table: misspell and corrections side by side. */
  class CorrectionTable {
    var misspell: seq<seq<Byte>>
    var corrections: seq<seq<Byte>>

    ghost predicate Valid()
      reads this
    {
      && |misspell| == |corrections| <= CORRECTION_LIMIT
      && StrictlySorted(misspell)
      && forall i :: 0 <= i < |corrections| ==> |corrections[i]| <= WORD_LIMIT && 0 !in corrections[i]
    }

    /** The empty table the program starts with. */
    constructor ()
      ensures Valid() && misspell == [] && corrections == []
    {
      misspell, corrections := [], [];
    }

    /** checkCorrections (correction.c:186-210): binary search for the
        lowered word; its index, or -1 when no target equals it.  The
        search narrows [low, high] and stops when it empties. */
    method CheckCorrections(word: seq<Byte>) returns (r: int)
      requires Valid() && |word| <= WORD_LIMIT
      ensures -1 <= r < |misspell|
      ensures r >= 0 ==> misspell[r] == Lower(word)
      ensures r == -1 <==> Lower(word) !in misspell
    {
      var temp := Lower(word);
      if |misspell| == 0 {
        return -1;
      }
      var low, high := 0, |misspell| - 1;
      while true
        invariant 0 <= low <= high < |misspell|
        invariant forall k :: 0 <= k < low ==> Strcmp(misspell[k], temp) < 0
        invariant forall k :: high < k < |misspell| ==> Strcmp(temp, misspell[k]) < 0
        decreases high - low
      {
        var index := low + (high - low) / 2;
        var comparison := Strcmp(temp, misspell[index]);
        if comparison == 0 {
          StrcmpZero(temp, misspell[index]);
          return index;
        }
        if comparison < 0 {
          forall k | index < k < |misspell|
            ensures Strcmp(temp, misspell[k]) < 0
          {
            StrcmpTrans(temp, misspell[index], misspell[k]);
          }
          high := index - 1;
        } else {
          StrcmpFlip(temp, misspell[index]);
          forall k | 0 <= k < index
            ensures Strcmp(misspell[k], temp) < 0
          {
            StrcmpTrans(misspell[k], misspell[index], temp);
          }
          low := index + 1;
        }
        if low > high {
          forall k | 0 <= k < |misspell|
            ensures misspell[k] != temp
          {
            if k < low {
              StrcmpZero(misspell[k], temp);
            } else {
              StrcmpZero(temp, misspell[k]);
            }
          }
          return -1;
        }
      }
    }

    /** isValidCorrection (correction.c:157-184), in the source's order of
        checks.  For the first entry there is no previous target to
        compare with, and the order check is skipped. */
    method IsValidCorrection(target: seq<Byte>, replacement: seq<Byte>) returns (ok: bool)
      requires Valid()
      ensures ok <==> ValidCorrection(misspell, target, replacement)
    {
      if |target| > WORD_LIMIT || |replacement| > WORD_LIMIT {
        return false;
      }
      StrcmpZero(target, replacement);
      if Strcmp(target, replacement) == 0 {
        return false;
      }
      var i := 0;
      while i < |target|
        invariant i <= |target|
        invariant forall k :: 0 <= k < i ==> IsLower(target[k]) || target[k] == APOSTROPHE
      {
        if IsUpper(target[i]) {
          return false;
        }
        if !(IsAlpha(target[i]) || target[i] == APOSTROPHE) {
          return false;
        }
        i := i + 1;
      }
      i := 0;
      while i < |replacement|
        invariant i <= |replacement|
        invariant forall k :: 0 <= k < i ==> IsAlnum(replacement[k]) || replacement[k] == APOSTROPHE
      {
        if !(IsAlnum(replacement[i]) || replacement[i] == APOSTROPHE) {
          return false;
        }
        i := i + 1;
      }
      var byReplacement := CheckCorrections(replacement);
      var byTarget := CheckCorrections(target);
      if byReplacement >= 0 || byTarget >= 0 {
        return false;
      }
      if |misspell| > 0 && Strcmp(target, misspell[|misspell| - 1]) < 0 {
        return false;
      }
      return true;
    }

    /** findCorrection (correction.c:141-155), with the count increment
        its caller readCorrections makes (correction.c:137): a valid pair
        is stored after the others while there is room; otherwise nothing
        changes. */
    method FindCorrection(target: seq<Byte>, replacement: seq<Byte>) returns (ok: bool)
      requires Valid()
      modifies this
      ensures Valid()
      ensures ok <==> ValidCorrection(old(misspell), target, replacement) && |old(misspell)| < CORRECTION_LIMIT
      ensures ok ==> misspell == old(misspell) + [target] && corrections == old(corrections) + [replacement]
      ensures !ok ==> misspell == old(misspell) && corrections == old(corrections)
    {
      ok := IsValidCorrection(target, replacement);
      if !ok {
        return;
      }
      if |misspell| >= CORRECTION_LIMIT {
        return false;
      }
      AcceptedKeepsOrder(misspell, target, replacement);
      misspell := misspell + [target];
      corrections := corrections + [replacement];
    }

    /** The word-by-word pass of scanWords (correction.c:45-91) over a
        line of at most LINE_LIMIT characters: a working copy of the line
        is walked character by character, letters and apostrophes gather
        into a word, and at any other character (the final NUL included)
        a listed word of at most WORD_LIMIT letters is replaced in the copy
        by its cased replacement.  The corrected line, or None where the
        program exits with status 102 because the result is longer than
        LINE_LIMIT. */
    method ScanWords(line: array<Byte>) returns (r: Option<seq<Byte>>)
      requires Valid()
      requires 0 in line[..] && StrLen(line[..]) <= LINE_LIMIT
      ensures r == (var fixed := CorrectLine(misspell, corrections, Content(line[..]));
                    if |fixed| > LINE_LIMIT then None else Some(fixed))
    {
      ghost var L := Content(line[..]);
      var tempLine := CopyLine(line);
      ghost var out: seq<Byte> := [];
      ghost var p := 0;
      ghost var finished := false;
      var word: seq<Byte> := [];
      var i: nat := 0;
      var len := Strlen(tempLine, 0);
      assert tempLine[0..] == tempLine[..];
      while i <= len
        invariant tempLine.Length == ARBITRARY_LINE_LENGTH + 1 && 0 in tempLine[..]
        invariant len == StrLen(tempLine[..])
        invariant Scanning(L, Content(tempLine[..]), i, p, out, word, finished)
        invariant i <= len <==> !finished
        decreases |L| - p + (if finished then 0 else 1)
      {
        var stop;
        stop, i, p, out, word, finished := ScanStep(tempLine, L, i, p, out, word);
        if stop {
          return None;
        }
        len := Strlen(tempLine, 0);
        assert tempLine[0..] == tempLine[..];
      }
      if len > LINE_LIMIT {
        return None;
      }
      return Some(tempLine[..len]);
    }

    /** Where scanWords stands in the line L: the working copy holds `out`,
        the part already corrected, then the word in progress and the rest
        of L from `p`, and the index `i` sits after the word; once the NUL
        has been handled the copy is the whole corrected line. */
    ghost predicate Scanning(L: seq<Byte>, s: seq<Byte>, i: nat, p: nat, out: seq<Byte>, word: seq<Byte>,
                             finished: bool)
      reads this
      requires Valid()
    {
      && p <= |L| <= LINE_LIMIT
      && if finished then
           i == |out| + 1 && s == out && p == |L| && CorrectLine(misspell, corrections, L) == out
         else
           i == |out| + |word| && s == out + word + L[p..]
           && CorrectLine(misspell, corrections, L) == out + Scan(misspell, corrections, L[p..], word)
    }

    /** One pass of the loop of scanWords (correction.c:57-88) at index i:
        a word character joins the word, any other character ends it.
        `stop` is the exit for a replacement that does not fit. */
    method ScanStep(tempLine: array<Byte>, ghost L: seq<Byte>, i: nat, ghost p: nat, ghost out: seq<Byte>,
                    word: seq<Byte>)
      returns (stop: bool, i': nat, ghost p': nat, ghost out': seq<Byte>, word': seq<Byte>, ghost finished': bool)
      requires Valid()
      requires tempLine.Length == ARBITRARY_LINE_LENGTH + 1 && 0 in tempLine[..]
      requires Scanning(L, Content(tempLine[..]), i, p, out, word, false)
      modifies tempLine
      ensures stop ==> |CorrectLine(misspell, corrections, L)| > LINE_LIMIT
      ensures !stop ==> 0 in tempLine[..] && Scanning(L, Content(tempLine[..]), i', p', out', word', finished')
      ensures !stop ==> (i' <= StrLen(tempLine[..]) <==> !finished')
      ensures !stop ==> |L| - p' + (if finished' then 0 else 1) < |L| - p + 1
    {
      ghost var s := Content(tempLine[..]);
      var c := tempLine[i];
      assert s[..|out|] == out && s[i..] == L[p..];
      if p < |L| {
        assert c == s[i] == L[p];
      } else {
        assert c == 0;
      }
      stop, p', out', word', finished' := false, p, out, word, false;
      if WordChar(c) {
        ScanWordStep(misspell, corrections, L, p, out, word);
        word' := word + [c];
        p' := p + 1;
        i' := i + 1;
      } else {
        var fits;
        fits, i' := FixWord(tempLine, i, word);
        if !fits {
          TooLongToFit(misspell, corrections, L, p, out, word);
          return true, i, p, out, word, false;
        }
        if p < |L| {
          ScanSeparatorStep(misspell, corrections, L, p, out, word);
          out' := out + Fixed(misspell, corrections, word) + [c];
          p' := p + 1;
        } else {
          out' := out + Fixed(misspell, corrections, word);
          finished' := true;
        }
        word' := [];
        i' := i' + 1;
      }
    }

    /** The end of a word in the working copy (correction.c:64-84): a word
        of at most WORD_LIMIT letters found in the table is replaced by its
        cased replacement, and the index moves by the change in length.
        `fits` is false, changing nothing, when the replacement would
        overflow the working copy. */
    method FixWord(tempLine: array<Byte>, i: nat, word: seq<Byte>) returns (fits: bool, i': nat)
      requires Valid()
      requires tempLine.Length == ARBITRARY_LINE_LENGTH + 1 && 0 in tempLine[..]
      requires |word| <= i <= StrLen(tempLine[..])
      requires Content(tempLine[..])[i - |word|..i] == word
      modifies tempLine
      ensures fits <==> StrLen(old(tempLine[..])) - |word| + |Fixed(misspell, corrections, word)| <= ARBITRARY_LINE_LENGTH
      ensures fits ==> 0 in tempLine[..] && i' == i - |word| + |Fixed(misspell, corrections, word)|
      ensures fits ==> Content(tempLine[..]) == old(Content(tempLine[..]))[..i - |word|]
                         + Fixed(misspell, corrections, word) + old(Content(tempLine[..]))[i..]
    {
      var cIndex := FindListed(word);
      if cIndex < 0 {
        Rejoin(Content(tempLine[..]), i - |word|, word, i);
        return true, i;
      }
      fits, i' := ReplaceEnding(tempLine, i, word, corrections[cIndex]);
    }

    /** The table entry a finished word is corrected by (correction.c:64-72):
        none for a word longer than WORD_LIMIT or not listed. */
    method FindListed(word: seq<Byte>) returns (k: int)
      requires Valid()
      ensures -1 <= k < |corrections|
      ensures k < 0 ==> Fixed(misspell, corrections, word) == word
      ensures k >= 0 ==> Fixed(misspell, corrections, word) == Cased(word, corrections[k])
    {
      if |word| > WORD_LIMIT {
        return -1;
      }
      k := CheckCorrections(word);
      if k >= 0 {
        LookupFinds(misspell, k);
      }
    }
  }

  /** The replacement as it should be written into the line: wherever the
      replaced word has an upper-case letter, the replacement's letter at
      that position is raised. */
  function Cased(word: seq<Byte>, corr: seq<Byte>): (r: seq<Byte>)
    ensures |r| == |corr|
  {
    seq(|corr|, j requires 0 <= j < |corr| =>
      if j < |word| && IsUpper(word[j]) then ToUpper(corr[j]) else corr[j])
  }

  /** Casing changes letter case only: lowered, the written replacement is
      the lowered replacement; and a word without capitals leaves the
      replacement as it is. */
  lemma CasedOnlyChangesCase(word: seq<Byte>, corr: seq<Byte>)
    ensures Lower(Cased(word, corr)) == Lower(corr)
    ensures (forall i :: 0 <= i < |word| ==> !IsUpper(word[i])) ==> Cased(word, corr) == corr
  {
  }

  /** The capitals follow the replaced word: position j of the result is
      upper case when word[j] is and corr[j] is a letter. */
  lemma CasedFollowsWord(word: seq<Byte>, corr: seq<Byte>, j: nat)
    requires j < |word| && j < |corr| && IsUpper(word[j]) && IsAlpha(corr[j])
    ensures IsUpper(Cased(word, corr)[j])
  {
  }

  /** The copy loop as written (correction.c:75-81): at a position where
      the word is upper case it stores the word's own letter (toupper of
      an upper-case letter is itself), and it runs over the terminating
      NUL too, so when the word is longer than the replacement and has a
      capital just past the replacement's end, the NUL is overwritten and
      the result has no end inside the buffer (None). */
  function CasedAsWritten(word: seq<Byte>, corr: seq<Byte>): Option<seq<Byte>>
  {
    if |corr| < |word| && IsUpper(word[|corr|]) then None
    else Some(seq(|corr|, j requires 0 <= j < |corr| =>
      if j < |word| && IsUpper(word[j]) then ToUpper(word[j]) else corr[j]))
  }

  /** With the correction teh -> the, the line word "TEH" is written back
      as "TEH" instead of "THE". */
  lemma CapitalsCopyTheWord()
    ensures CasedAsWritten([0x54, 0x45, 0x48], [0x74, 0x68, 0x65]) == Some([0x54, 0x45, 0x48])
    ensures Cased([0x54, 0x45, 0x48], [0x74, 0x68, 0x65]) == [0x54, 0x48, 0x45]
  {
    var r := CasedAsWritten([0x54, 0x45, 0x48], [0x74, 0x68, 0x65]);
    assert r.Some? && |r.value| == 3;
    assert r.value[0] == 0x54 && r.value[1] == 0x45 && r.value[2] == 0x48;
    assert r.value == [0x54, 0x45, 0x48];
  }

  /** With the correction abc -> x, the line word "ABC" loses the
      replacement's terminator. */
  lemma TerminatorOverwritten()
    ensures CasedAsWritten([0x41, 0x42, 0x43], [0x78]).None?
    ensures Cased([0x41, 0x42, 0x43], [0x78]) == [0x58]
  {
  }

  /** The line "a a a ... " of n words. */
  function Spaced(n: nat): (r: seq<Byte>)
    ensures |r| == 2 * n
  {
    if n == 0 then [] else [0x61, 0x20] + Spaced(n - 1)
  }

  /** With the single correction a -> corr, each "a " of the line becomes
      the replacement and its space. */
  lemma {:induction false} SpacedCorrected(corr: seq<Byte>, n: nat)
    ensures |CorrectLine([[0x61]], [corr], Spaced(n))| == n * (|corr| + 1)
  {
    if n > 0 {
      var L := Spaced(n);
      assert L[1..][1..] == Spaced(n - 1);
      assert Lower([0x61]) == [0x61];
      assert Scan([[0x61]], [corr], L, []) == Scan([[0x61]], [corr], L[1..], [0x61]);
      SpacedCorrected(corr, n - 1);
    }
  }

  /** Twenty b's: a replacement of the greatest length accepted. */
  const LONG_REPLACEMENT: seq<Byte> := seq(WORD_LIMIT, i => 0x62)

  /** The working copy of a line holds ARBITRARY_LINE_LENGTH bytes, yet a
      line of 20 bytes under one valid correction grows to 210 before the
      final length check; the code as written has no check of its own and
      stores past the end of the copy. */
  lemma WorkingCopyOverflows()
    ensures ValidCorrection([], [0x61], LONG_REPLACEMENT)
    ensures |Spaced(10)| <= LINE_LIMIT
    ensures |CorrectLine([[0x61]], [LONG_REPLACEMENT], Spaced(10))| == 210 > ARBITRARY_LINE_LENGTH
  {
    SpacedCorrected(LONG_REPLACEMENT, 10);
  }

  /** The copy of the line scanWords works on (correction.c:48-53): a
      buffer of ARBITRARY_LINE_LENGTH bytes plus its NUL holding the line. */
  method CopyLine(line: array<Byte>) returns (tempLine: array<Byte>)
    requires 0 in line[..] && StrLen(line[..]) <= LINE_LIMIT
    ensures fresh(tempLine) && tempLine.Length == ARBITRARY_LINE_LENGTH + 1
    ensures 0 in tempLine[..] && Content(tempLine[..]) == Content(line[..])
  {
    tempLine := new Byte[ARBITRARY_LINE_LENGTH + 1];
    var n := Strlen(line, 0);
    assert line[0..] == line[..];
    for k := 0 to n + 1
      invariant forall m :: 0 <= m < k ==> tempLine[m] == line[m]
    {
      tempLine[k] := line[k];
    }
    var c := Content(line[..]);
    assert forall m :: 0 <= m < n ==> tempLine[m] == c[m];
    assert tempLine[n] == line[n] == 0;
    assert tempLine[..] == c + [0] + tempLine[n + 1..];
    ContentOf(c, tempLine[n + 1..]);
  }

  /** One replacement (correction.c:74-83): cut the word out, build the
      cased replacement in a WORD_LIMIT-byte buffer, insert it where the
      word was.  False, changing nothing, when the result would not fit in
      the working copy. */
  method ReplaceWord(tempLine: array<Byte>, at: nat, word: seq<Byte>, corr: seq<Byte>) returns (fits: bool)
    requires tempLine.Length == ARBITRARY_LINE_LENGTH + 1 && 0 in tempLine[..]
    requires at + |word| <= StrLen(tempLine[..])
    requires |corr| <= WORD_LIMIT && 0 !in corr
    modifies tempLine
    ensures fits <==> StrLen(old(tempLine[..])) - |word| + |corr| <= ARBITRARY_LINE_LENGTH
    ensures fits ==> 0 in tempLine[..]
    ensures fits ==> Content(tempLine[..]) == old(Content(tempLine[..]))[..at] + Cased(word, corr)
                       + old(Content(tempLine[..]))[at + |word|..]
  {
    ghost var s := Content(tempLine[..]);
    var n := Strlen(tempLine, 0);
    assert tempLine[0..] == tempLine[..];
    if n - |word| + |corr| > ARBITRARY_LINE_LENGTH {
      return false;
    }
    RemoveSubstr(tempLine, at, |word|);
    ghost var cut := tempLine[..];
    var temp := CasedCopy(word, corr);
    assert tempLine[..] == cut;
    InsertSubstr(tempLine, at, temp);
    fits := true;
  }

  /** ReplaceWord for the word that ends at index i, with the index
      moved past the replacement. */
  method ReplaceEnding(tempLine: array<Byte>, i: nat, word: seq<Byte>, corr: seq<Byte>) returns (fits: bool, i': nat)
    requires tempLine.Length == ARBITRARY_LINE_LENGTH + 1 && 0 in tempLine[..]
    requires |word| <= i <= StrLen(tempLine[..])
    requires |corr| <= WORD_LIMIT && 0 !in corr
    modifies tempLine
    ensures fits <==> StrLen(old(tempLine[..])) - |word| + |corr| <= ARBITRARY_LINE_LENGTH
    ensures fits ==> 0 in tempLine[..] && i' == i - |word| + |corr|
    ensures fits ==> Content(tempLine[..]) == old(Content(tempLine[..]))[..i - |word|] + Cased(word, corr)
                       + old(Content(tempLine[..]))[i..]
  {
    var at := i - |word|;
    assert at + |word| == i;
    fits := ReplaceWord(tempLine, at, word, corr);
    i' := at + |corr|;
  }

  /** The replacement with its casing applied, built in a fresh buffer of
      WORD_LIMIT bytes and its NUL (correction.c:74-81, as intended). */
  method CasedCopy(word: seq<Byte>, corr: seq<Byte>) returns (temp: array<Byte>)
    requires |corr| <= WORD_LIMIT && 0 !in corr
    ensures fresh(temp) && temp.Length == WORD_LIMIT + 1
    ensures 0 in temp[..] && Content(temp[..]) == Cased(word, corr)
  {
    temp := new Byte[WORD_LIMIT + 1];
    ghost var cased := Cased(word, corr);
    for j := 0 to |corr|
      invariant forall m :: 0 <= m < j ==> temp[m] == cased[m]
    {
      temp[j] := corr[j];
      if j < |word| && IsUpper(word[j]) {
        temp[j] := ToUpper(temp[j]);
      }
    }
    temp[|corr|] := 0;
    assert temp[..] == cased + [0] + temp[|corr| + 1..];
    ContentOf(cased, temp[|corr| + 1..]);
  }

  /** A sequence is its three slices joined. */
  lemma Rejoin<T>(s: seq<T>, a: nat, mid: seq<T>, b: nat)
    requires a <= b <= |s| && s[a..b] == mid
    ensures s == s[..a] + mid + s[b..]
  {
  }

  /** When a replacement cannot fit in the working copy of a line of at
      most LINE_LIMIT characters, the corrected line is longer than
      LINE_LIMIT anyway: the program's two exits agree. */
  lemma TooLongToFit(targets: seq<seq<Byte>>, corrs: seq<seq<Byte>>, L: seq<Byte>, p: nat,
                     out: seq<Byte>, word: seq<Byte>)
    requires |targets| == |corrs|
    requires |L| <= LINE_LIMIT && p <= |L|
    requires p < |L| ==> !WordChar(L[p])
    requires CorrectLine(targets, corrs, L) == out + Scan(targets, corrs, L[p..], word)
    requires |out| + (|L| - p) + |Fixed(targets, corrs, word)| > ARBITRARY_LINE_LENGTH
    ensures |CorrectLine(targets, corrs, L)| > LINE_LIMIT
  {
    ScanStartsWithWord(targets, corrs, L[p..], word);
  }

  /** A word character extends the word in progress. */
  lemma ScanWordStep(targets: seq<seq<Byte>>, corrs: seq<seq<Byte>>, L: seq<Byte>, p: nat,
                     out: seq<Byte>, word: seq<Byte>)
    requires |targets| == |corrs|
    requires p < |L| && WordChar(L[p])
    requires CorrectLine(targets, corrs, L) == out + Scan(targets, corrs, L[p..], word)
    ensures CorrectLine(targets, corrs, L) == out + Scan(targets, corrs, L[p + 1..], word + [L[p]])
    ensures out + word + L[p..] == out + (word + [L[p]]) + L[p + 1..]
  {
    assert L[p..][1..] == L[p + 1..];
    assert L[p..] == [L[p]] + L[p + 1..];
  }

  /** Any other character finishes the word and is kept. */
  lemma ScanSeparatorStep(targets: seq<seq<Byte>>, corrs: seq<seq<Byte>>, L: seq<Byte>, p: nat,
                          out: seq<Byte>, word: seq<Byte>)
    requires |targets| == |corrs|
    requires p < |L| && !WordChar(L[p])
    requires CorrectLine(targets, corrs, L) == out + Scan(targets, corrs, L[p..], word)
    ensures CorrectLine(targets, corrs, L)
            == (out + Fixed(targets, corrs, word) + [L[p]]) + Scan(targets, corrs, L[p + 1..], [])
    ensures out + Fixed(targets, corrs, word) + L[p..]
            == (out + Fixed(targets, corrs, word) + [L[p]]) + [] + L[p + 1..]
  {
    assert L[p..][1..] == L[p + 1..];
    assert L[p..] == [L[p]] + L[p + 1..];
  }
}
