/** In-place substring removal and insertion on NUL-terminated strings
    (Homeworks/hw2/util.c), built from the C library's strlen, strcpy and
    strcat as the source uses them: the tail is saved in a temporary array,
    the string is cut at `pos`, and the pieces are appended back. */
module StringEdit {
  import opened ByteBuffer

  /** strlen: the index of the first NUL. */
  function StrLen(s: seq<Byte>): (n: nat)
    requires 0 in s
    ensures n < |s| && s[n] == 0
    ensures forall i :: 0 <= i < n ==> s[i] != 0
  {
    if s[0] == 0 then 0 else 1 + StrLen(s[1..])
  }

  /** The string a NUL-terminated array holds: the bytes before the NUL. */
  function Content(s: seq<Byte>): (c: seq<Byte>)
    requires 0 in s
    ensures 0 !in c
  {
    s[..StrLen(s)]
  }

  /** The first NUL is the one with no NUL before it. */
  lemma {:induction false} StrLenAt(s: seq<Byte>, n: nat)
    requires n < |s| && s[n] == 0
    requires forall i :: 0 <= i < n ==> s[i] != 0
    ensures StrLen(s) == n
  {
    if n > 0 {
      assert s[0] != 0;
      StrLenAt(s[1..], n - 1);
    }
  }

  /** A string followed by its NUL and anything at all holds that string. */
  lemma {:induction false} ContentOf(c: seq<Byte>, rest: seq<Byte>)
    requires 0 !in c
    ensures 0 in c + [0] + rest
    ensures Content(c + [0] + rest) == c
  {
    var s := c + [0] + rest;
    assert s[|c|] == 0;
    StrLenAt(s, |c|);
    assert s[..|c|] == c;
  }

  /** The string starting inside another is its suffix. */
  lemma {:induction false} ContentFrom(s: seq<Byte>, m: nat)
    requires 0 in s && m <= StrLen(s)
    ensures 0 in s[m..]
    ensures Content(s[m..]) == Content(s)[m..]
  {
    var n := StrLen(s);
    var t := s[m..];
    assert t[n - m] == s[n];
    forall i | 0 <= i < n - m
      ensures t[i] != 0
    {
      assert t[i] == s[m + i];
    }
    StrLenAt(t, n - m);
    assert t[..n - m] == s[..n][m..];
  }

  /** strlen on the string stored from index `from` of an array. */
  method Strlen(a: array<Byte>, from: nat) returns (n: nat)
    requires from <= a.Length && 0 in a[from..]
    ensures n == StrLen(a[from..])
  {
    n := 0;
    ghost var s := a[from..];
    ghost var last := StrLen(s);
    while a[from + n] != 0
      invariant n <= last
      invariant forall i :: 0 <= i < n ==> s[i] != 0
      decreases last - n
    {
      assert s[n] == a[from + n];
      n := n + 1;
    }
    assert s[n] == 0;
    StrLenAt(s, n);
  }

  /** strcpy(dst + di, src + si): the string at src[si..] and its NUL land
      at dst[di..]; every other byte of dst is kept. */
  method Strcpy(dst: array<Byte>, di: nat, src: array<Byte>, si: nat)
    requires dst != src
    requires si <= src.Length && 0 in src[si..]
    requires di + StrLen(src[si..]) < dst.Length
    modifies dst
    ensures forall j :: 0 <= j < di ==> dst[j] == old(dst[j])
    ensures forall j :: di <= j < di + StrLen(src[si..]) ==> dst[j] == Content(src[si..])[j - di]
    ensures dst[di + StrLen(src[si..])] == 0
    ensures forall j :: di + StrLen(src[si..]) < j < dst.Length ==> dst[j] == old(dst[j])
  {
    ghost var c := Content(src[si..]);
    ghost var before := dst[..];
    var k := 0;
    while src[si + k] != 0
      invariant k <= |c|
      invariant forall j :: 0 <= j < di ==> dst[j] == before[j]
      invariant forall j :: di <= j < di + k ==> dst[j] == c[j - di]
      invariant forall j :: di + k <= j < dst.Length ==> dst[j] == before[j]
      decreases |c| - k
    {
      assert src[si..][k] == src[si + k];
      dst[di + k] := src[si + k];
      k := k + 1;
    }
    assert src[si..][k] == 0;
    dst[di + k] := 0;
  }

  /** strcat(dst, src): the string in src appended to the one in dst;
      the bytes after the new NUL are kept. */
  method Strcat(dst: array<Byte>, src: array<Byte>)
    requires dst != src
    requires 0 in dst[..] && 0 in src[..]
    requires StrLen(dst[..]) + StrLen(src[..]) < dst.Length
    modifies dst
    ensures 0 in dst[..]
    ensures Content(dst[..]) == old(Content(dst[..])) + Content(src[..])
    ensures forall j :: StrLen(dst[..]) < j < dst.Length ==> dst[j] == old(dst[j])
  {
    ghost var before := dst[..];
    var n := Strlen(dst, 0);
    assert dst[0..] == dst[..];
    assert src[0..] == src[..];
    ghost var c := Content(before) + Content(src[..]);
    Strcpy(dst, n, src, 0);
    assert forall j :: 0 <= j < |c| ==> dst[j] == c[j];
    assert dst[..] == c + [0] + dst[|c| + 1..];
    ContentOf(c, dst[|c| + 1..]);
  }

  /** The string with `len` bytes cut out at `pos`. */
  function Removed(s: seq<Byte>, pos: nat, len: nat): (r: seq<Byte>)
    requires pos + len <= |s|
    ensures |r| == |s| - len
    ensures r[..pos] == s[..pos]
    ensures r[pos..] == s[pos + len..]
  {
    s[..pos] + s[pos + len..]
  }

  /** The string with t spliced in at `pos`. */
  function Inserted(s: seq<Byte>, pos: nat, t: seq<Byte>): (r: seq<Byte>)
    requires pos <= |s|
    ensures |r| == |s| + |t|
    ensures r[..pos] == s[..pos]
    ensures r[pos..pos + |t|] == t
    ensures r[pos + |t|..] == s[pos..]
  {
    s[..pos] + t + s[pos..]
  }

  /** Cutting out what was just inserted gives the string back. */
  lemma RemoveInserted(s: seq<Byte>, pos: nat, t: seq<Byte>)
    requires pos <= |s|
    ensures Removed(Inserted(s, pos, t), pos, |t|) == s
  {
    var r := Removed(Inserted(s, pos, t), pos, |t|);
    assert r == r[..pos] + r[pos..];
    assert s == s[..pos] + s[pos..];
  }

  /** Inserting what was just cut out gives the string back. */
  lemma InsertRemoved(s: seq<Byte>, pos: nat, len: nat)
    requires pos + len <= |s|
    ensures Inserted(Removed(s, pos, len), pos, s[pos..pos + len]) == s
  {
    var r := Inserted(Removed(s, pos, len), pos, s[pos..pos + len]);
    assert r == r[..pos] + r[pos..pos + len] + r[pos + len..];
    assert s == s[..pos] + s[pos..pos + len] + s[pos + len..];
  }

  /** The temporary copy both functions make: a fresh array of `size`
      bytes holding the string's tail from `from`. */
  method SaveTail(str: array<Byte>, from: nat, size: nat) returns (temp: array<Byte>)
    requires 0 in str[..] && from <= StrLen(str[..]) < size
    ensures fresh(temp) && temp.Length == size
    ensures 0 in temp[..] && Content(temp[..]) == Content(str[..])[from..]
  {
    temp := new Byte[size];
    ContentFrom(str[..], from);
    Strcpy(temp, 0, str, from);
    var c := Content(str[..])[from..];
    assert temp[..] == c + [0] + temp[|c| + 1..];
    ContentOf(c, temp[|c| + 1..]);
  }

  /** str[pos] = '\0': the string now ends at `pos`. */
  method Cut(str: array<Byte>, pos: nat)
    requires 0 in str[..] && pos <= StrLen(str[..])
    modifies str
    ensures 0 in str[..]
    ensures Content(str[..]) == old(Content(str[..]))[..pos]
    ensures forall j :: pos < j < str.Length ==> str[j] == old(str[j])
  {
    ghost var s := str[..];
    str[pos] := 0;
    assert str[..] == s[..pos] + [0] + s[pos + 1..];
    ContentOf(s[..pos], s[pos + 1..]);
  }

  /** removeSubstr (util.c:11-20): save the tail after the cut, end the
      string at `pos`, append the tail. */
  method RemoveSubstr(str: array<Byte>, pos: nat, len: nat)
    requires 0 in str[..] && pos + len <= StrLen(str[..])
    modifies str
    ensures 0 in str[..]
    ensures Content(str[..]) == Removed(old(Content(str[..])), pos, len)
    ensures forall j :: StrLen(old(str[..])) - len < j < str.Length ==> str[j] == old(str[j])
  {
    ghost var s := str[..];
    ghost var c := Content(s);
    var n := Strlen(str, 0);
    assert str[0..] == s;
    var temp := SaveTail(str, pos + len, n + 1);
    assert Content(temp[..]) == c[pos + len..];
    Cut(str, pos);
    assert Content(str[..]) == c[..pos];
    Strcat(str, temp);
    assert Content(str[..]) == c[..pos] + c[pos + len..];
    assert StrLen(str[..]) == n - len;
  }

  /** insertSubstr (util.c:22-33): save the tail from `pos`, end the string
      at `pos`, append the inserted string and then the tail. */
  method InsertSubstr(str: array<Byte>, pos: nat, sub: array<Byte>)
    requires str != sub
    requires 0 in str[..] && 0 in sub[..]
    requires pos <= StrLen(str[..])
    requires StrLen(str[..]) + StrLen(sub[..]) < str.Length
    modifies str
    ensures 0 in str[..]
    ensures Content(str[..]) == Inserted(old(Content(str[..])), pos, Content(sub[..]))
    ensures forall j :: StrLen(old(str[..])) + StrLen(sub[..]) < j < str.Length ==> str[j] == old(str[j])
  {
    ghost var s := str[..];
    ghost var c := Content(s);
    ghost var t := Content(sub[..]);
    var n := Strlen(str, 0);
    assert str[0..] == s;
    var m := Strlen(sub, 0);
    assert sub[0..] == sub[..];
    var temp := SaveTail(str, pos, (n + 1) + (m + 1));
    Cut(str, pos);
    Strcat(str, sub);
    Strcat(str, temp);
  }
}
