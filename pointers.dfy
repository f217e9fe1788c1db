/** The three pointer helpers of EX/EX08/passByReference.c.  The ints the
    pointers refer to are cells of one memory array and a pointer is an
    index into it, so two pointers may name the same cell, as in C. */
module PassByReference {

  /** incrementAll (passByReference.c:5-8): each pointer adds d to the
      cell it names, so a cell gets d once for every pointer naming it. */
  method IncrementAll(mem: array<int>, pa: nat, pb: nat, pc: nat, d: int)
    requires pa < mem.Length && pb < mem.Length && pc < mem.Length
    modifies mem
    ensures forall i :: 0 <= i < mem.Length ==> mem[i] == old(mem[i]) + d * Hits(i, pa, pb, pc)
  {
    mem[pa] := mem[pa] + d;
    mem[pb] := mem[pb] + d;
    mem[pc] := mem[pc] + d;
  }

  /** How many of the three pointers name cell i. */
  function Hits(i: nat, pa: nat, pb: nat, pc: nat): (n: nat)
    ensures n <= 3
    ensures n == 0 <==> i != pa && i != pb && i != pc
  {
    (if i == pa then 1 else 0) + (if i == pb then 1 else 0) + (if i == pc then 1 else 0)
  }

  /** With distinct pointers each target grows by exactly d and nothing
      else changes. */
  lemma HitsDistinct(pa: nat, pb: nat, pc: nat, i: nat)
    requires pa != pb && pb != pc && pa != pc
    ensures Hits(i, pa, pb, pc) == if i in {pa, pb, pc} then 1 else 0
  {
  }

  /** The memory after rotate: the three assignments through the pointers,
      in the source's order, each seeing the ones before it. */
  function Rotated(m: seq<int>, pa: nat, pb: nat, pc: nat): (r: seq<int>)
    requires pa < |m| && pb < |m| && pc < |m|
    ensures |r| == |m|
  {
    var temp := m[pa];
    var m1 := m[pa := m[pb]];
    var m2 := m1[pb := m1[pc]];
    m2[pc := temp]
  }

  /** rotate (passByReference.c:10-16). */
  method Rotate(mem: array<int>, pa: nat, pb: nat, pc: nat)
    requires pa < mem.Length && pb < mem.Length && pc < mem.Length
    modifies mem
    ensures mem[..] == Rotated(old(mem[..]), pa, pb, pc)
  {
    var temp := mem[pa];
    mem[pa] := mem[pb];
    mem[pb] := mem[pc];
    mem[pc] := temp;
  }

  /** With distinct pointers rotate maps (a, b, c) to (b, c, a) and leaves
      every other cell alone. */
  lemma RotatedDistinct(m: seq<int>, pa: nat, pb: nat, pc: nat)
    requires pa < |m| && pb < |m| && pc < |m|
    requires pa != pb && pb != pc && pa != pc
    ensures Rotated(m, pa, pb, pc)[pa] == m[pb]
    ensures Rotated(m, pa, pb, pc)[pb] == m[pc]
    ensures Rotated(m, pa, pb, pc)[pc] == m[pa]
    ensures forall i :: 0 <= i < |m| && i != pa && i != pb && i != pc ==> Rotated(m, pa, pb, pc)[i] == m[i]
  {
  }

  /** Three rotations through distinct pointers restore every cell. */
  lemma {:induction false} RotateThrice(m: seq<int>, pa: nat, pb: nat, pc: nat)
    requires pa < |m| && pb < |m| && pc < |m|
    requires pa != pb && pb != pc && pa != pc
    ensures Rotated(Rotated(Rotated(m, pa, pb, pc), pa, pb, pc), pa, pb, pc) == m
  {
    var m1 := Rotated(m, pa, pb, pc);
    var m2 := Rotated(m1, pa, pb, pc);
    var m3 := Rotated(m2, pa, pb, pc);
    RotatedDistinct(m, pa, pb, pc);
    RotatedDistinct(m1, pa, pb, pc);
    RotatedDistinct(m2, pa, pb, pc);
    assert forall i :: 0 <= i < |m| ==> m3[i] == m[i];
  }

  /** getLargest (passByReference.c:18-26): a pointer to a largest of the
      three values, the earliest of pa, pb, pc among equals; only reads. */
  method GetLargest(mem: array<int>, pa: nat, pb: nat, pc: nat) returns (high: nat)
    requires pa < mem.Length && pb < mem.Length && pc < mem.Length
    ensures high == pa || high == pb || high == pc
    ensures mem[high] >= mem[pa] && mem[high] >= mem[pb] && mem[high] >= mem[pc]
    ensures high != pa ==> mem[pa] < mem[high]
    ensures high != pa && high != pb ==> mem[pb] < mem[high]
  {
    high := pa;
    if mem[pb] > mem[high] {
      high := pb;
    }
    if mem[pc] > mem[high] {
      high := pc;
    }
  }
}
