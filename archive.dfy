/** The archive of the archiver (Homeworks/proj/archive.c): file records
    kept in strictly ascending strcmp order of their names, each holding the
    file's bytes and their compressed form, and the byte format an archive
    is saved in and loaded from.  Reading and writing files is left to the
    caller: a file's contents arrive as an Option (None when it cannot be
    read), and saving yields the bytes to be written. */
module Archiver {
  import opened Wrappers
  import opened ByteBuffer
  import opened CStrings
  import DataCodec

  /** Narrowest name column of the listing. */
  const MIN_NAME_LEN: nat := 20

  /** A file of the archive: its name, its bytes, and their compressed form. */
  datatype FileRec = FileRec(name: seq<Byte>, raw: seq<Byte>, comp: seq<Byte>)

  /** comp is a compressed form of raw: uncompressing it gives raw back. */
  ghost predicate Sound(r: FileRec)
  {
    DataCodec.UncompressDataSpec(r.comp) == Some(r.raw)
  }

  ghost predicate AllSound(es: seq<FileRec>)
  {
    forall i :: 0 <= i < |es| ==> Sound(es[i])
  }

  /** Names in strictly ascending strcmp order (so no name twice). */
  predicate Sorted(es: seq<FileRec>)
  {
    forall i, j :: 0 <= i < j < |es| ==> Strcmp(es[i].name, es[j].name) < 0
  }

  // ---------------------------------------------------------------------
  // Positions in the list

  /** The first entry called name, or |es| when there is none. */
  function Find(es: seq<FileRec>, name: seq<Byte>): (k: nat)
    ensures k <= |es|
    ensures k < |es| ==> es[k].name == name
    ensures forall i :: 0 <= i < k ==> es[i].name != name
  {
    if es == [] then 0
    else if es[0].name == name then 0
    else 1 + Find(es[1..], name)
  }

  /** Where addArchive's walk stops: the first entry whose name is not
      below name, or |es|. */
  function InsertPos(es: seq<FileRec>, name: seq<Byte>): (k: nat)
    ensures k <= |es|
    ensures forall i :: 0 <= i < k ==> Strcmp(name, es[i].name) > 0
    ensures k < |es| ==> Strcmp(name, es[k].name) <= 0
  {
    if es == [] then 0
    else if Strcmp(name, es[0].name) <= 0 then 0
    else 1 + InsertPos(es[1..], name)
  }

  /** addArchive's duplicate test: the walk stops on a record called name. */
  predicate StopsOnName(es: seq<FileRec>, name: seq<Byte>)
  {
    InsertPos(es, name) < |es| && es[InsertPos(es, name)].name == name
  }

  /** The walk's stopping point is the only index with those two facts. */
  lemma InsertPosUnique(es: seq<FileRec>, name: seq<Byte>, k: nat)
    requires k <= |es| && forall i :: 0 <= i < k ==> Strcmp(name, es[i].name) > 0
    requires k < |es| ==> Strcmp(name, es[k].name) <= 0
    ensures InsertPos(es, name) == k
  {
  }

  /** The same for a name's first occurrence. */
  lemma FindUnique(es: seq<FileRec>, name: seq<Byte>, k: nat)
    requires k <= |es| && forall i :: 0 <= i < k ==> es[i].name != name
    requires k < |es| ==> es[k].name == name
    ensures Find(es, name) == k
  {
  }

  /** In a sorted list a name is present exactly when the walk stops on it. */
  lemma InsertPosFinds(es: seq<FileRec>, name: seq<Byte>)
    requires Sorted(es)
    ensures var k := InsertPos(es, name);
            Find(es, name) < |es| <==> k < |es| && es[k].name == name
  {
    var k, f := InsertPos(es, name), Find(es, name);
    if f < |es| {
      if f < k {
        assert Strcmp(name, es[f].name) > 0;
        StrcmpZero(name, es[f].name);
      } else if k < f {
        assert Strcmp(es[k].name, es[f].name) < 0;
        StrcmpTransLe(name, es[k].name, es[f].name);
        StrcmpZero(name, es[f].name);
      }
    }
  }

  // ---------------------------------------------------------------------
  // The list after an add or a remove

  /** The list with r put where addArchive's walk stops. */
  function Added(es: seq<FileRec>, r: FileRec): (es': seq<FileRec>)
    ensures |es'| == |es| + 1
    ensures forall i :: 0 <= i < |es'| ==>
              es'[i] == if i < InsertPos(es, r.name) then es[i] else if i == InsertPos(es, r.name) then r else es[i - 1]
  {
    var k := InsertPos(es, r.name);
    es[..k] + [r] + es[k..]
  }

  /** The list addArchive leaves as written: when the walk stops at the
      second node, the previous node is still the head, so the head pointer
      is moved to the new node and the first record is lost. */
  function AddedAsWritten(es: seq<FileRec>, r: FileRec): seq<FileRec>
  {
    if InsertPos(es, r.name) == 1 && 1 < |es| then [r] + es[1..] else Added(es, r)
  }

  /** Archive "a", "c"; adding "b" as written leaves "b", "c" where the
      sorted insertion gives "a", "b", "c". */
  lemma SecondSlotLost(a: FileRec, b: FileRec, c: FileRec)
    requires a.name == [0x61] && b.name == [0x62] && c.name == [0x63]
    ensures Sorted([a, c]) && Find([a, c], b.name) == 2
    ensures AddedAsWritten([a, c], b) == [b, c]
    ensures Added([a, c], b) == [a, b, c]
  {
    var es := [a, c];
    assert Strcmp(b.name, a.name) == 1 && Strcmp(b.name, c.name) == -1;
    assert Strcmp(a.name, c.name) == -1;
    assert InsertPos(es[1..], b.name) == 0;
    assert InsertPos(es, b.name) == 1;
    assert es[1..] == [c];
  }

  /** Adding a new name keeps the list sorted. */
  lemma AddedSorted(es: seq<FileRec>, r: FileRec)
    requires Sorted(es) && Find(es, r.name) == |es|
    ensures Sorted(Added(es, r))
  {
    var es' := Added(es, r);
    forall i, j | 0 <= i < j < |es'| ensures Strcmp(es'[i].name, es'[j].name) < 0 {
      AddedPair(es, r, i, j);
    }
  }

  lemma AddedPair(es: seq<FileRec>, r: FileRec, i: nat, j: nat)
    requires Sorted(es) && Find(es, r.name) == |es|
    requires i < j < |es| + 1
    ensures Strcmp(Added(es, r)[i].name, Added(es, r)[j].name) < 0
  {
    var k := InsertPos(es, r.name);
    var es' := Added(es, r);
    if j < k {
      assert es'[i] == es[i] && es'[j] == es[j];
      assert Strcmp(es[i].name, es[j].name) < 0;
    } else if j == k {
      assert es'[i] == es[i] && es'[j] == r;
      StrcmpFlip(r.name, es[i].name);
    } else if i == k {
      assert es'[i] == r && es'[j] == es[j - 1];
      StrcmpZero(r.name, es[k].name);
      if j - 1 > k {
        assert Strcmp(es[k].name, es[j - 1].name) < 0;
        StrcmpTransLe(r.name, es[k].name, es[j - 1].name);
      }
    } else if i < k {
      assert es'[i] == es[i] && es'[j] == es[j - 1];
      assert Strcmp(es[i].name, es[j - 1].name) < 0;
    } else {
      assert es'[i] == es[i - 1] && es'[j] == es[j - 1];
      assert Strcmp(es[i - 1].name, es[j - 1].name) < 0;
    }
  }

  /** Adding r keeps every old entry and gains r alone. */
  lemma AddedContents(es: seq<FileRec>, r: FileRec)
    ensures multiset(Added(es, r)) == multiset(es) + multiset{r}
    ensures |Added(es, r)| == |es| + 1
  {
    var k := InsertPos(es, r.name);
    assert es == es[..k] + es[k..];
  }

  lemma AddedSound(es: seq<FileRec>, r: FileRec)
    requires AllSound(es) && Sound(r)
    ensures AllSound(Added(es, r))
  {
    var k := InsertPos(es, r.name);
    var es' := Added(es, r);
    forall i | 0 <= i < |es'| ensures Sound(es'[i]) {
      if i < k {
        assert es'[i] == es[i];
      } else if k < i {
        assert es'[i] == es[i - 1];
      }
    }
  }

  /** The list without entry k. */
  function Removed(es: seq<FileRec>, k: nat): (es': seq<FileRec>)
    requires k < |es|
    ensures |es'| == |es| - 1
    ensures forall i :: 0 <= i < |es'| ==> es'[i] == if i < k then es[i] else es[i + 1]
  {
    es[..k] + es[k + 1..]
  }

  /** Removing the entry of a name from a sorted list leaves a sorted list
      with no entry of that name, and every other entry kept. */
  lemma RemovedFacts(es: seq<FileRec>, k: nat)
    requires Sorted(es) && k < |es|
    ensures Sorted(Removed(es, k))
    ensures Find(Removed(es, k), es[k].name) == |es| - 1
    ensures multiset(Removed(es, k)) + multiset{es[k]} == multiset(es)
  {
    var es' := Removed(es, k);
    var name := es[k].name;
    forall i | 0 <= i < |es'| ensures es'[i].name != name {
      if i < k {
        StrcmpZero(es[i].name, name);
      } else {
        StrcmpZero(name, es[i + 1].name);
      }
    }
    assert es == es[..k] + [es[k]] + es[k + 1..];
  }

  lemma RemovedSound(es: seq<FileRec>, k: nat)
    requires AllSound(es) && k < |es|
    ensures AllSound(Removed(es, k))
  {
  }

  // ---------------------------------------------------------------------
  // The saved form: per record, the name, a NUL, the compressed length in
  // four little-endian bytes, then the compressed bytes

  /** The four bytes of n, least significant first. */
  function LE32(n: nat): (b: seq<Byte>)
    ensures |b| == 4
  {
    [LowByte(n), LowByte(n / 0x100), LowByte(n / 0x1_0000), LowByte(n / 0x100_0000)]
  }

  /** The low eight bits of n. */
  function LowByte(n: nat): Byte
  {
    n % 256
  }

  /** The number four little-endian bytes stand for. */
  function Decode32(b: seq<Byte>): nat
    requires |b| == 4
  {
    b[0] as nat + 0x100 * b[1] as nat + 0x1_0000 * b[2] as nat + 0x100_0000 * b[3] as nat
  }

  lemma Decode32LE32(n: nat)
    requires n < 0x1_0000_0000
    ensures Decode32(LE32(n)) == n
  {
    var q0 := n / 0x100;
    var q1 := q0 / 0x100;
    var q2 := q1 / 0x100;
    assert n / 0x1_0000 == q1;
    assert n / 0x100_0000 == q2;
    assert q2 < 256;
  }

  function RecordBytes(r: FileRec): seq<Byte>
  {
    r.name + [0] + LE32(|r.comp|) + r.comp
  }

  /** saveArchive's output: the records in list order. */
  function SaveBytes(es: seq<FileRec>): seq<Byte>
  {
    if es == [] then [] else RecordBytes(es[0]) + SaveBytes(es[1..])
  }

  /** The index of the first NUL of x, or |x|. */
  function NameEnd(x: seq<Byte>): (k: nat)
    ensures k <= |x| && (k < |x| ==> x[k] == 0)
    ensures forall i :: 0 <= i < k ==> x[i] != 0
  {
    if x == [] || x[0] == 0 then 0 else 1 + NameEnd(x[1..])
  }

  datatype RecordRead = RecordRead(rec: FileRec, consumed: nat)

  /** One record at the front of x, with the number of bytes it takes;
      None when x ends inside the record or its compressed bytes do not
      uncompress. */
  function ParseRecord(x: seq<Byte>): (res: Option<RecordRead>)
    ensures res.Some? ==> 5 <= res.value.consumed <= |x|
  {
    var k := NameEnd(x);
    if k + 5 > |x| then None
    else
      var n := Decode32(x[k + 1..k + 5]);
      if k + 5 + n > |x| then None
      else
        var comp := x[k + 5..k + 5 + n];
        match DataCodec.UncompressDataSpec(comp)
        case None => None
        case Some(raw) => Some(RecordRead(FileRec(x[..k], raw, comp), k + 5 + n))
  }

  /** loadArchive's reading of a whole saved archive. */
  function ParseArchive(x: seq<Byte>): Option<seq<FileRec>>
    decreases |x|
  {
    if x == [] then Some([])
    else match ParseRecord(x)
      case None => None
      case Some(rr) => PrependRecs([rr.rec], ParseArchive(x[rr.consumed..]))
  }

  function PrependRecs(rs: seq<FileRec>, r: Option<seq<FileRec>>): Option<seq<FileRec>>
  {
    match r
    case None => None
    case Some(t) => Some(rs + t)
  }

  lemma PrependNone(r: Option<seq<FileRec>>)
    ensures PrependRecs([], r) == r
  {
    if r.Some? {
      assert [] + r.value == r.value;
    }
  }

  /** A record parses back from its saved bytes, whatever follows them. */
  lemma ParseRecordBytes(r: FileRec, tail: seq<Byte>)
    requires IsCString(r.name) && Sound(r) && |r.comp| < 0x1_0000_0000
    ensures ParseRecord(RecordBytes(r) + tail) == Some(RecordRead(r, |RecordBytes(r)|))
  {
    var x := RecordBytes(r) + tail;
    var k := |r.name|;
    assert x[..k] == r.name;
    assert x[k] == 0;
    NameEndAt(x, k);
    assert x[k + 1..k + 5] == LE32(|r.comp|);
    Decode32LE32(|r.comp|);
    assert x[k + 5..k + 5 + |r.comp|] == r.comp;
  }

  lemma NameEndAt(x: seq<Byte>, k: nat)
    requires k < |x| && x[k] == 0 && forall i :: 0 <= i < k ==> x[i] != 0
    ensures NameEnd(x) == k
  {
  }

  /** Loading what was saved gives the same records in the same order. */
  lemma {:induction false} ParseSave(es: seq<FileRec>)
    requires AllSound(es)
    requires forall i :: 0 <= i < |es| ==> IsCString(es[i].name) && |es[i].comp| < 0x1_0000_0000
    ensures ParseArchive(SaveBytes(es)) == Some(es)
  {
    if es != [] {
      var x := SaveBytes(es);
      ParseRecordBytes(es[0], SaveBytes(es[1..]));
      assert x[|RecordBytes(es[0])|..] == SaveBytes(es[1..]);
      ParseSave(es[1..]);
      assert [es[0]] + es[1..] == es;
    }
  }

  /** Every record a load yields is sound. */
  lemma {:induction false} ParsedSound(x: seq<Byte>)
    requires ParseArchive(x).Some?
    ensures AllSound(ParseArchive(x).value)
    decreases |x|
  {
    if x != [] {
      var rr := ParseRecord(x).value;
      ParsedSound(x[rr.consumed..]);
      var rest := ParseArchive(x[rr.consumed..]).value;
      assert ParseArchive(x).value == [rr.rec] + rest;
    }
  }

  // ---------------------------------------------------------------------
  // loadArchive and removeArchive as written, where they depart from the
  // model above

  /** isspace in the C locale: blank, \t, \n, \v, \f and \r. */
  predicate IsSpace(b: Byte)
  {
    b == 0x20 || 0x09 <= b <= 0x0D
  }

  /** The number of white-space bytes x starts with. */
  function SpaceRun(x: seq<Byte>): (k: nat)
    ensures k <= |x|
    ensures forall i :: 0 <= i < k ==> IsSpace(x[i])
    ensures k < |x| ==> !IsSpace(x[k])
  {
    if x != [] && IsSpace(x[0]) then 1 + SpaceRun(x[1..]) else 0
  }

  /** `fscanf(fp, "%c %c %c %c", ...)` as loadArchive reads a length: the
      first byte verbatim, then before each further byte any run of white
      space skipped.  The bytes read and the number consumed; None when the
      input ends first. */
  function ScanLengthBytes(x: seq<Byte>): Option<(seq<Byte>, nat)>
  {
    if x == [] then None else ScanMore(x, [x[0]], 1)
  }

  function ScanMore(x: seq<Byte>, got: seq<Byte>, at: nat): (r: Option<(seq<Byte>, nat)>)
    requires at <= |x| && |got| <= 4
    ensures r.Some? ==> |r.value.0| == 4 && r.value.1 <= |x|
    decreases 4 - |got|
  {
    if |got| == 4 then Some((got, at))
    else
      var k := at + SpaceRun(x[at..]);
      if k == |x| then None else ScanMore(x, got + [x[k]], k + 1)
  }

  /** A record whose compressed form is 8192 bytes long is saved with the
      length bytes 00 20 00 00.  Read as written, the blank 0x20 is skipped
      and the first compressed byte taken as the top byte of the length. */
  lemma LengthMisread()
    ensures LE32(8192) == [0x00, 0x20, 0x00, 0x00]
    ensures ScanLengthBytes(LE32(8192) + [0x41]) == Some(([0x00, 0x00, 0x00, 0x41], 5))
    ensures Decode32([0x00, 0x00, 0x00, 0x41]) == 0x4100_0000
    ensures Decode32((LE32(8192) + [0x41])[..4]) == 8192
  {
    var x := LE32(8192) + [0x41];
    assert x == [0x00, 0x20, 0x00, 0x00, 0x41];
    BlankSkipped();
  }

  /** The scan of 00 20 00 00 41. */
  lemma BlankSkipped()
    ensures ScanLengthBytes([0x00, 0x20, 0x00, 0x00, 0x41]) == Some(([0x00, 0x00, 0x00, 0x41], 5))
  {
    var x: seq<Byte> := [0x00, 0x20, 0x00, 0x00, 0x41];
    assert x[1..] == [0x20, 0x00, 0x00, 0x41] && x[2..] == [0x00, 0x00, 0x41];
    assert x[3..] == [0x00, 0x41] && x[4..] == [0x41];
    assert SpaceRun(x[2..]) == 0 && SpaceRun(x[1..]) == 1;
    assert SpaceRun(x[3..]) == 0 && SpaceRun(x[4..]) == 0;
    var g1, g2, g3, g4: seq<Byte> := [0x00], [0x00, 0x00], [0x00, 0x00, 0x00], [0x00, 0x00, 0x00, 0x41];
    assert g1 + [x[2]] == g2 && g2 + [x[3]] == g3 && g3 + [x[4]] == g4;
    ScanStep(x, g1, 1, 2);
    ScanStep(x, g2, 3, 3);
    ScanStep(x, g3, 4, 4);
  }

  /** One byte of the scan: white space skipped up to index k, then x[k] read. */
  lemma ScanStep(x: seq<Byte>, got: seq<Byte>, at: nat, k: nat)
    requires at <= k < |x| && |got| < 4 && k == at + SpaceRun(x[at..])
    ensures ScanMore(x, got, at) == ScanMore(x, got + [x[k]], k + 1)
  {
  }

  /** The name a loaded record keeps, as written: makeFileRec is first run
      on the archive's own path, which allocates the name |path| + 1 bytes,
      and strncpy then copies the |name| + 1 bytes of the stored name into
      them; None when that overruns the allocation. */
  function LoadedNameAsWritten(path: seq<Byte>, name: seq<Byte>): Option<seq<Byte>>
  {
    if |name| > |path| then None else Some(name)
  }

  /** Loading a record named "bb" from an archive saved at path "a"
      overruns the name; the model keeps the stored name whatever the
      archive's path. */
  lemma NameOverrun()
    ensures LoadedNameAsWritten([0x61], [0x62, 0x62]).None?
    ensures ParseRecord([0x62, 0x62, 0, 0, 0, 0, 0]) == Some(RecordRead(FileRec([0x62, 0x62], [], []), 7))
  {
    var x: seq<Byte> := [0x62, 0x62, 0, 0, 0, 0, 0];
    NameEndAt(x, 2);
    assert x[3..7] == [0, 0, 0, 0] && Decode32(x[3..7]) == 0;
    assert x[7..7] == [] && x[..2] == [0x62, 0x62];
    assert DataCodec.UncompressDataSpec([]) == Some([]);
  }

  /** removeArchive as written: it compares the name with the head's
      before looking at anything else, so on an empty archive it follows a
      null head (None); otherwise it removes as the model does. */
  function RemoveAsWritten(es: seq<FileRec>, name: seq<Byte>): Option<seq<FileRec>>
  {
    if es == [] then None
    else if Find(es, name) < |es| then Some(Removed(es, Find(es, name)))
    else Some(es)
  }

  /** Removing from an empty archive follows a null head as written; in
      the model the name is not found, so Remove answers false. */
  lemma EmptyRemoveFollowsNull(name: seq<Byte>)
    ensures RemoveAsWritten([], name).None?
    ensures Find([], name) == 0
  {
  }

  /** The listing's name column: None for "Archive is empty" (no name
      longer than 0), otherwise the longest name length, widened to 20. */
  function ListingWidth(longest: nat): (w: Option<nat>)
    ensures w.None? <==> longest == 0
    ensures w.Some? ==> w.value >= longest && w.value >= MIN_NAME_LEN
    ensures w.Some? ==> w.value == longest || w.value == MIN_NAME_LEN
  {
    if longest == 0 then None
    else if longest < MIN_NAME_LEN then Some(MIN_NAME_LEN)
    else Some(longest)
  }

  /** addArchive's walk: past every record whose name is below name. */
  method InsertWalk(es: seq<FileRec>, name: seq<Byte>) returns (i: nat)
    ensures i == InsertPos(es, name)
  {
    i := 0;
    while i < |es| && Strcmp(name, es[i].name) > 0
      invariant i <= |es|
      invariant forall j :: 0 <= j < i ==> Strcmp(name, es[j].name) > 0
    {
      i := i + 1;
    }
    InsertPosUnique(es, name, i);
  }

  /** What Add needs about the walk's stop: in a sorted list its duplicate
      test finds every duplicate, and the insertion keeps the list sorted
      and sound. */
  lemma AddFacts(es: seq<FileRec>, r: FileRec)
    requires AllSound(es) && Sound(r)
    ensures Sorted(es) ==> (StopsOnName(es, r.name) <==> Find(es, r.name) < |es|)
    ensures Sorted(es) && !StopsOnName(es, r.name) ==> Sorted(Added(es, r))
    ensures AllSound(Added(es, r))
  {
    if Sorted(es) {
      InsertPosFinds(es, r.name);
      if !StopsOnName(es, r.name) {
        AddedSorted(es, r);
      }
    }
    AddedSound(es, r);
  }

  /** makeFileRec: a record of the file's bytes and their compressed form;
      None when the file cannot be read. */
  method MakeFileRec(name: seq<Byte>, file: Option<seq<Byte>>) returns (rec: Option<FileRec>)
    ensures rec.Some? <==> file.Some?
    ensures rec.Some? ==> rec.value.name == name && rec.value.raw == file.value
    ensures rec.Some? ==> rec.value.comp == DataCodec.CompressDataSpec(file.value) && Sound(rec.value)
  {
    if file.None? {
      return None;
    }
    var raw := new Buffer();
    raw.AppendBytes(file.value, |file.value|);
    assert raw.Remaining() == file.value;
    var comp := DataCodec.CompressData(raw);
    DataCodec.DataRoundTrip(file.value);
    return Some(FileRec(name, file.value, comp.Contents()));
  }

  class Archive {
    var entries: seq<FileRec>

    /** Every record's compressed form uncompresses to its bytes.  Sorted
        order is not part of it: loadArchive takes records in file order. */
    ghost predicate Valid()
      reads this
    {
      AllSound(entries)
    }

    /** makeArchive: no records. */
    constructor ()
      ensures Valid() && Sorted(entries) && entries == []
    {
      entries := [];
    }

    /** addArchive: read the file and put its record where the ascending
        walk stops.  Fails, changing nothing, when the file cannot be read
        or the walk stops on a record of that name; in a sorted archive
        that is exactly when a record of that name exists. */
    method Add(name: seq<Byte>, file: Option<seq<Byte>>) returns (ok: bool)
      requires Valid()
      modifies this
      ensures Valid()
      ensures Sorted(old(entries)) ==> Sorted(entries)
      ensures ok <==> file.Some? && !StopsOnName(old(entries), name)
      ensures Sorted(old(entries)) ==> (ok <==> file.Some? && Find(old(entries), name) == |old(entries)|)
      ensures ok ==> entries == Added(old(entries), FileRec(name, file.value, DataCodec.CompressDataSpec(file.value)))
      ensures !ok ==> entries == old(entries)
    {
      var rec := MakeFileRec(name, file);
      if rec.None? {
        return false;
      }
      var es := entries;
      var i := InsertWalk(es, name);
      if i < |es| {
        StrcmpZero(es[i].name, name);
      }
      if i < |es| && Strcmp(es[i].name, name) == 0 {
        return false;
      }
      AddFacts(es, rec.value);
      entries := Added(es, rec.value);
      ok := true;
    }

    /** removeArchive: drop the record of that name; false, changing
        nothing, when there is none. */
    method Remove(name: seq<Byte>) returns (ok: bool)
      requires Valid()
      modifies this
      ensures Valid()
      ensures Sorted(old(entries)) ==> Sorted(entries)
      ensures ok <==> Find(old(entries), name) < |old(entries)|
      ensures ok ==> entries == Removed(old(entries), Find(old(entries), name))
      ensures !ok ==> entries == old(entries)
    {
      var es := entries;
      var i := 0;
      while i < |es| && Strcmp(name, es[i].name) != 0
        invariant i <= |es| && entries == es
        invariant forall j :: 0 <= j < i ==> es[j].name != name
      {
        StrcmpZero(name, es[i].name);
        i := i + 1;
      }
      if i < |es| {
        StrcmpZero(name, es[i].name);
      }
      FindUnique(es, name, i);
      if i == |es| {
        return false;
      }
      if Sorted(es) {
        RemovedFacts(es, i);
      }
      RemovedSound(es, i);
      entries := es[..i] + es[i + 1..];
      ok := true;
    }

    /** extractArchive: the bytes of the record of that name, which are
        also what its compressed form uncompresses to; not found when there
        is none. */
    method Extract(name: seq<Byte>) returns (found: bool, raw: seq<Byte>)
      requires Valid()
      ensures found <==> Find(entries, name) < |entries|
      ensures found ==> raw == entries[Find(entries, name)].raw
      ensures found ==> DataCodec.UncompressDataSpec(entries[Find(entries, name)].comp) == Some(raw)
    {
      var i := 0;
      while i < |entries|
        invariant i <= |entries|
        invariant forall j :: 0 <= j < i ==> entries[j].name != name
      {
        if Strcmp(entries[i].name, name) == 0 {
          StrcmpZero(entries[i].name, name);
          FindUnique(entries, name, i);
          return true, entries[i].raw;
        }
        StrcmpZero(entries[i].name, name);
        i := i + 1;
      }
      FindUnique(entries, name, i);
      return false, [];
    }

    /** saveArchive: the bytes written, record after record. */
    method Save() returns (out: seq<Byte>)
      ensures out == SaveBytes(entries)
    {
      out := [];
      var i := 0;
      while i < |entries|
        invariant i <= |entries|
        invariant out + SaveBytes(entries[i..]) == SaveBytes(entries)
      {
        assert entries[i..][1..] == entries[i + 1..];
        out := out + RecordBytes(entries[i]);
        i := i + 1;
      }
    }

    /** traverseArchive with biggestFilename: the length of the longest
        name, 0 for an empty archive. */
    method LongestName() returns (n: nat)
      ensures forall i :: 0 <= i < |entries| ==> |entries[i].name| <= n
      ensures n == 0 || exists i :: 0 <= i < |entries| && |entries[i].name| == n
    {
      n := 0;
      for i := 0 to |entries|
        invariant forall j :: 0 <= j < i ==> |entries[j].name| <= n
        invariant n == 0 || exists j :: 0 <= j < i && |entries[j].name| == n
      {
        if |entries[i].name| > n {
          n := |entries[i].name|;
        }
      }
    }
  }

  /** loadArchive: the records of a saved archive in file order; null when
      the bytes do not hold a whole number of records. */
  method Load(x: seq<Byte>) returns (a: Archive?)
    ensures a == null <==> ParseArchive(x).None?
    ensures a != null ==> fresh(a) && a.entries == ParseArchive(x).value && a.Valid()
  {
    var recs: seq<FileRec> := [];
    var rest := x;
    PrependNone(ParseArchive(x));
    while rest != []
      invariant PrependRecs(recs, ParseArchive(rest)) == ParseArchive(x)
      decreases |rest|
    {
      var rr := ParseRecord(rest);
      if rr.None? {
        return null;
      }
      LoadStep(rest, recs, rr.value, ParseArchive(x));
      recs := recs + [rr.value.rec];
      rest := rest[rr.value.consumed..];
    }
    assert recs + [] == recs;
    ParsedSound(x);
    a := new Archive();
    a.entries := recs;
  }

  /** One record read: it joins the records, and reading resumes after it. */
  lemma LoadStep(rest: seq<Byte>, recs: seq<FileRec>, rr: RecordRead, goal: Option<seq<FileRec>>)
    requires rest != [] && ParseRecord(rest) == Some(rr)
    requires PrependRecs(recs, ParseArchive(rest)) == goal
    ensures PrependRecs(recs + [rr.rec], ParseArchive(rest[rr.consumed..])) == goal
  {
    var tail := ParseArchive(rest[rr.consumed..]);
    if tail.Some? {
      assert recs + ([rr.rec] + tail.value) == recs + [rr.rec] + tail.value;
    }
  }
}
