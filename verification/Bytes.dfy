/** Bytes, sectors, the little-endian fields of the on-disk structures, and facts about products. */
module Bytes {

  type byte = x: int | 0 <= x < 256

  const SECTOR_SIZE := 512

  type Sector = s: seq<byte> | |s| == SECTOR_SIZE witness seq(SECTOR_SIZE, i => 0)

  const ZERO_SECTOR: Sector := seq(SECTOR_SIZE, i => 0)

  function Le16(b: seq<byte>, o: nat): (r: nat)
    requires o + 2 <= |b|
    ensures r < 0x1_0000
  {
    var b0: int, b1: int := b[o], b[o + 1];
    b0 + 0x100 * b1
  }

  function Le32(b: seq<byte>, o: nat): (r: nat)
    requires o + 4 <= |b|
    ensures r < 0x1_0000_0000
  {
    Le16(b, o) + 0x1_0000 * Le16(b, o + 2)
  }

  function PutLe16(b: seq<byte>, o: nat, v: nat): (r: seq<byte>)
    requires o + 2 <= |b|
    ensures |r| == |b|
    ensures forall j :: 0 <= j < |b| && !(o <= j < o + 2) ==> r[j] == b[j]
    ensures Le16(r, o) == v % 0x1_0000
  {
    assert v / 0x100 % 0x100 * 0x100 + v % 0x100 == v % 0x1_0000;
    b[o := v % 0x100][o + 1 := v / 0x100 % 0x100]
  }

  function PutLe32(b: seq<byte>, o: nat, v: nat): (r: seq<byte>)
    requires o + 4 <= |b|
    ensures |r| == |b|
    ensures forall j :: 0 <= j < |b| && !(o <= j < o + 4) ==> r[j] == b[j]
    ensures Le32(r, o) == v % 0x1_0000_0000
  {
    PutLe16(PutLe16(b, o, v), o + 2, v / 0x1_0000)
  }

  // ------------------------------------------------------------- fields byte by byte

  /** A number as `width` bytes, the least significant first. */
  ghost function Field(v: nat, width: nat): (r: seq<byte>)
    ensures |r| == width
  {
    if width == 0 then [] else [v % 0x100] + Field(v / 0x100, width - 1)
  }

  lemma FieldOf16(b: seq<byte>, o: nat, v: nat)
    requires o + 2 <= |b| && b[o..o + 2] == Field(v, 2) && v < 0x1_0000
    ensures Le16(b, o) == v
  {
    assert b[o] == b[o..o + 2][0] && b[o + 1] == b[o..o + 2][1];
    assert Field(v, 2) == [v % 0x100] + Field(v / 0x100, 1);
    assert Field(v / 0x100, 1) == [v / 0x100 % 0x100] + Field(v / 0x100 / 0x100, 0);
  }

  lemma FieldOf32(b: seq<byte>, o: nat, v: nat)
    requires o + 4 <= |b| && b[o..o + 4] == Field(v, 4) && v < 0x1_0000_0000
    ensures Le32(b, o) == v
  {
    var w := v / 0x1_0000;
    assert v / 0x100 / 0x100 == w;
    assert Field(v, 4) == [v % 0x100] + Field(v / 0x100, 3);
    assert Field(v / 0x100, 3) == [v / 0x100 % 0x100] + Field(w, 2);
    assert Field(v % 0x1_0000, 2) == [v % 0x100] + Field(v % 0x1_0000 / 0x100, 1);
    assert Field(v % 0x1_0000 / 0x100, 1) == [v / 0x100 % 0x100] + Field(v % 0x1_0000 / 0x100 / 0x100, 0);
    assert b[o..o + 2] == b[o..o + 4][..2] == Field(v % 0x1_0000, 2);
    assert b[o + 2..o + 4] == b[o..o + 4][2..] == Field(w, 2);
    FieldOf16(b, o, v % 0x1_0000);
    FieldOf16(b, o + 2, w);
  }

  lemma FieldFrom16(b: seq<byte>, o: nat, v: nat)
    requires o + 2 <= |b| && Le16(b, o) == v
    ensures b[o..o + 2] == Field(v, 2)
  {
    assert Field(v, 2) == [v % 0x100] + Field(v / 0x100, 1);
    assert Field(v / 0x100, 1) == [v / 0x100 % 0x100] + Field(v / 0x100 / 0x100, 0);
  }

  lemma FieldFrom32(b: seq<byte>, o: nat, v: nat)
    requires o + 4 <= |b| && Le32(b, o) == v
    ensures b[o..o + 4] == Field(v, 4)
  {
    var low, high := Le16(b, o), Le16(b, o + 2);
    FieldFrom16(b, o, low);
    FieldFrom16(b, o + 2, high);
    hide Le16;
    assert Field(v, 4) == [v % 0x100] + Field(v / 0x100, 3);
    assert Field(v / 0x100, 3) == [v / 0x100 % 0x100] + Field(v / 0x100 / 0x100, 2);
    assert Field(low, 2) == [low % 0x100] + Field(low / 0x100, 1);
    assert Field(low / 0x100, 1) == [low / 0x100 % 0x100] + Field(low / 0x100 / 0x100, 0);
    assert v / 0x100 / 0x100 == high;
    assert b[o..o + 4] == b[o..o + 2] + b[o + 2..o + 4];
  }

  // ------------------------------------------------------------------ products

  lemma MulMono(a: nat, b: nat, c: nat)
    requires a <= b
    ensures a * c <= b * c
  {
  }

  lemma DivMul(a: nat, b: nat)
    requires 0 < b
    ensures a / b * b <= a
  {
  }

  lemma MulNext(a: nat, b: nat)
    ensures (a + 1) * b == a * b + b
  {
  }

  // -------------------------------------------------------------- parts in a row

  ghost function Joined<T>(parts: seq<seq<T>>): seq<T> {
    if parts == [] then [] else Joined(parts[..|parts| - 1]) + parts[|parts| - 1]
  }

  ghost predicate Wide<T>(parts: seq<seq<T>>, width: nat) {
    forall i :: 0 <= i < |parts| ==> |parts[i]| == width
  }

  /** Parts of one width follow each other at multiples of it. */
  lemma {:induction false} JoinedAt<T>(parts: seq<seq<T>>, width: nat, i: nat, j: nat)
    requires i < |parts| && Wide(parts, width) && j < width
    ensures i * width + j < |Joined(parts)| && Joined(parts)[i * width + j] == parts[i][j]
  {
    var init, last := parts[..|parts| - 1], parts[|parts| - 1];
    JoinedLength(init, width);
    assert Joined(parts) == Joined(init) + last;
    hide Joined;
    if i < |parts| - 1 {
      JoinedAt(init, width, i, j);
    }
  }

  lemma {:induction false} JoinedLength<T>(parts: seq<seq<T>>, width: nat)
    requires Wide(parts, width)
    ensures |Joined(parts)| == |parts| * width
  {
    if parts != [] {
      JoinedLength(parts[..|parts| - 1], width);
      MulNext(|parts| - 1, width);
    }
  }
}
