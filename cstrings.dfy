/** C strings as byte sequences (without the terminating NUL) and the
    order `strcmp` puts them in: bytes compared as unsigned char, a proper
    prefix first. */
module CStrings {
  import opened ByteBuffer

  /** A byte string a C string can hold: no NUL inside. */
  predicate IsCString(s: seq<Byte>)
  {
    forall i :: 0 <= i < |s| ==> s[i] != 0
  }

  /** The sign of strcmp(a, b). */
  function Strcmp(a: seq<Byte>, b: seq<Byte>): (r: int)
    ensures -1 <= r <= 1
  {
    if a == [] && b == [] then 0
    else if a == [] then -1
    else if b == [] then 1
    else if a[0] < b[0] then -1
    else if a[0] > b[0] then 1
    else Strcmp(a[1..], b[1..])
  }

  /** strcmp reports equality exactly for equal strings. */
  lemma {:induction false} StrcmpZero(a: seq<Byte>, b: seq<Byte>)
    ensures Strcmp(a, b) == 0 <==> a == b
    decreases |a|
  {
    if a != [] && b != [] && a[0] == b[0] {
      StrcmpZero(a[1..], b[1..]);
      if a[1..] == b[1..] {
        assert a == [a[0]] + a[1..] && b == [b[0]] + b[1..];
      }
    }
  }

  /** Swapping the arguments flips the sign. */
  lemma {:induction false} StrcmpFlip(a: seq<Byte>, b: seq<Byte>)
    ensures Strcmp(b, a) == -Strcmp(a, b)
    decreases |a|
  {
    if a != [] && b != [] && a[0] == b[0] {
      StrcmpFlip(a[1..], b[1..]);
    }
  }

  /** The order is transitive. */
  lemma {:induction false} StrcmpTrans(a: seq<Byte>, b: seq<Byte>, c: seq<Byte>)
    requires Strcmp(a, b) < 0 && Strcmp(b, c) < 0
    ensures Strcmp(a, c) < 0
    decreases |a|
  {
    if a != [] && b != [] && c != [] && a[0] == b[0] && b[0] == c[0] {
      StrcmpTrans(a[1..], b[1..], c[1..]);
    }
  }

  /** Not after b and below c: below c. */
  lemma StrcmpTransLe(a: seq<Byte>, b: seq<Byte>, c: seq<Byte>)
    requires Strcmp(a, b) <= 0 && Strcmp(b, c) < 0
    ensures Strcmp(a, c) < 0
  {
    if Strcmp(a, b) == 0 {
      StrcmpZero(a, b);
    } else {
      StrcmpTrans(a, b, c);
    }
  }
}
