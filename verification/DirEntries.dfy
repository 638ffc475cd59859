/**
 Directory entries (Microsoft FAT32 File System Specification v1.03, "FAT Directory Structure")
 and 8.3 names.
 */
module DirEntries {
  import opened Bytes

  const SLOT_SIZE := 32
  const SLOTS_PER_SECTOR := 16
  const NAME_LENGTH := 11
  const ATTR_DIRECTORY: byte := 0x10
  const ATTR_ARCHIVE: byte := 0x20
  const DELETED: byte := 0xE5
  const SPACE: byte := 0x20
  const DOT: byte := 0x2E

  type Slot = s: seq<byte> | |s| == SLOT_SIZE witness seq(SLOT_SIZE, i => 0)
  type FatName = s: seq<byte> | |s| == NAME_LENGTH witness seq(NAME_LENGTH, i => 0)

  function NameOf(e: Slot): FatName { e[..NAME_LENGTH] }

  function AttrOf(e: Slot): byte { e[11] }

  predicate IsDir(e: Slot) { e[11] / 0x10 % 2 == 1 }

  function ClusterOf(e: Slot): nat { Le16(e, 20) * 0x1_0000 + Le16(e, 26) }

  function SizeOf(e: Slot): nat { Le32(e, 28) }

  /** An unused slot that no live one follows. */
  predicate IsEnd(e: Slot) { e[0] == 0 }

  predicate IsDeleted(e: Slot) { e[0] == DELETED }

  predicate IsFree(e: Slot) { IsEnd(e) || IsDeleted(e) }

  /** Slots that lookups and listings see: not free, and none of the low four attribute bits set. */
  predicate IsVisible(e: Slot) { !IsFree(e) && e[11] % 0x10 == 0 }

  predicate IsDot(e: Slot) { e[0] == DOT && e[1] == SPACE }

  predicate IsDotDot(e: Slot) { e[0] == DOT && e[1] == DOT && e[2] == SPACE }

  /** Visible and neither "." nor "..": the slots that own what they point to. */
  predicate IsNamed(e: Slot) { IsVisible(e) && !IsDot(e) && !IsDotDot(e) }

  predicate Matches(e: Slot, name: FatName) { IsVisible(e) && NameOf(e) == name }

  /** Slot i of a directory sector. */
  function SlotAt(buf: Sector, i: nat): Slot
    requires i < SLOTS_PER_SECTOR
  {
    buf[i * SLOT_SIZE..i * SLOT_SIZE + SLOT_SIZE]
  }

  function PutSlot(buf: Sector, i: nat, e: Slot): (r: Sector)
    requires i < SLOTS_PER_SECTOR
    ensures forall j :: 0 <= j < SLOTS_PER_SECTOR ==> SlotAt(r, j) == if j == i then e else SlotAt(buf, j)
  {
    var r := buf[..i * SLOT_SIZE] + e + buf[i * SLOT_SIZE + SLOT_SIZE..];
    assert forall x :: 0 <= x < SECTOR_SIZE && !(i * SLOT_SIZE <= x < i * SLOT_SIZE + SLOT_SIZE) ==> r[x] == buf[x];
    assert forall j :: 0 <= j < SLOTS_PER_SECTOR && j != i ==> SlotAt(r, j) == SlotAt(buf, j);
    assert SlotAt(r, i) == e;
    r
  }

  /** A slot with every field set: the name, the attributes, the first cluster, and zeros. */
  function NewSlot(name: FatName, attr: byte, cluster: nat): (e: Slot)
    ensures NameOf(e) == name && AttrOf(e) == attr && SizeOf(e) == 0
    ensures cluster < 0x1_0000_0000 ==> ClusterOf(e) == cluster
  {
    var blank: Slot := name + [attr] + seq(20, i => 0);
    WithCluster(blank, cluster)
  }

  function WithCluster(e: Slot, cluster: nat): (r: Slot)
    ensures forall j :: 0 <= j < SLOT_SIZE && j !in {20, 21, 26, 27} ==> r[j] == e[j]
    ensures cluster < 0x1_0000_0000 ==> ClusterOf(r) == cluster
    ensures NameOf(r) == NameOf(e) && AttrOf(r) == AttrOf(e) && SizeOf(r) == SizeOf(e)
  {
    var high: Slot := PutLe16(e, 20, cluster / 0x1_0000);
    var r: Slot := PutLe16(high, 26, cluster);
    assert Le16(r, 20) == Le16(high, 20);
    r
  }

  function WithSize(e: Slot, size: nat): (r: Slot)
    ensures NameOf(r) == NameOf(e) && AttrOf(r) == AttrOf(e) && ClusterOf(r) == ClusterOf(e)
    ensures size < 0x1_0000_0000 ==> SizeOf(r) == size
  {
    PutLe32(e, 28, size)
  }

  /** A slot pointed at another chain. */
  function Retargeted(e: Slot, cluster: nat, size: nat): Slot {
    WithSize(WithCluster(e, cluster), size)
  }

  /** A slot given a name, attributes and a cluster, its other fields but the size left as they were. */
  function Stamped(e: Slot, name: FatName, attr: byte, cluster: nat): (r: Slot)
    ensures NameOf(r) == name && AttrOf(r) == attr
    ensures cluster < 0x1_0000_0000 ==> ClusterOf(r) == cluster
  {
    var labelled: Slot := name + [attr] + e[12..];
    Retargeted(labelled, cluster, 0)
  }

  const DOT_NAME: FatName := [DOT] + seq(10, i => SPACE)
  const DOT_DOT_NAME: FatName := [DOT, DOT] + seq(9, i => SPACE)

  function AsDeleted(e: Slot): (r: Slot)
    ensures IsDeleted(r)
  {
    e[0 := DELETED]
  }

  // ---------------------------------------------------------- a directory's slots

  /** The slots of a directory, in scan order. */
  ghost function Slots(secs: seq<Sector>): (r: seq<Slot>)
    ensures |r| == |secs| * SLOTS_PER_SECTOR
  {
    seq(|secs| * SLOTS_PER_SECTOR,
        p requires 0 <= p < |secs| * SLOTS_PER_SECTOR => SlotAt(secs[p / SLOTS_PER_SECTOR], p % SLOTS_PER_SECTOR))
  }

  lemma SlotsAt(secs: seq<Sector>, n: nat, i: nat)
    requires n < |secs| && i < SLOTS_PER_SECTOR
    ensures n * SLOTS_PER_SECTOR + i < |Slots(secs)|
    ensures Slots(secs)[n * SLOTS_PER_SECTOR + i] == SlotAt(secs[n], i)
  {
  }

  lemma SlotsPut(secs: seq<Sector>, n: nat, i: nat, e: Slot)
    requires n < |secs| && i < SLOTS_PER_SECTOR
    ensures n * SLOTS_PER_SECTOR + i < |Slots(secs)|
    ensures Slots(secs[n := PutSlot(secs[n], i, e)]) == Slots(secs)[n * SLOTS_PER_SECTOR + i := e]
  {
    hide PutSlot, SlotAt;
    var secs' := secs[n := PutSlot(secs[n], i, e)];
    forall p | 0 <= p < |Slots(secs)|
      ensures Slots(secs')[p] == Slots(secs)[n * SLOTS_PER_SECTOR + i := e][p]
    {
      assert p == p / SLOTS_PER_SECTOR * SLOTS_PER_SECTOR + p % SLOTS_PER_SECTOR;
    }
  }

  lemma SlotsAppend(a: seq<Sector>, b: seq<Sector>)
    ensures Slots(a + b) == Slots(a) + Slots(b)
  {
    hide SlotAt;
    forall p | 0 <= p < |a + b| * SLOTS_PER_SECTOR
      ensures Slots(a + b)[p] == (Slots(a) + Slots(b))[p]
    {
      if p >= |a| * SLOTS_PER_SECTOR {
        var q := p - |a| * SLOTS_PER_SECTOR;
        assert p / SLOTS_PER_SECTOR == |a| + q / SLOTS_PER_SECTOR && p % SLOTS_PER_SECTOR == q % SLOTS_PER_SECTOR;
      }
    }
  }

  // ------------------------------------------------------------ what a slot means

  /** A slot's meaning: an unused one ends the directory, a hidden one is passed over. */
  datatype Ent =
    | Unused
    | Erased
    | Hidden
    | Dot(isDir: bool, cluster: nat)
    | DotDot(isDir: bool, cluster: nat)
    | Entry(name: FatName, isDir: bool, cluster: nat, size: nat)
  {
    predicate Free() { Unused? || Erased? }
  }

  function View(e: Slot): Ent {
    if IsEnd(e) then Unused
    else if IsDeleted(e) then Erased
    else if !IsVisible(e) then Hidden
    else if IsDot(e) then Dot(IsDir(e), ClusterOf(e))
    else if IsDotDot(e) then DotDot(IsDir(e), ClusterOf(e))
    else Entry(NameOf(e), IsDir(e), ClusterOf(e), SizeOf(e))
  }

  /** A typed name never starts with a dot once converted, so it can only match an Entry. */
  lemma ViewMatch(e: Slot, name: FatName)
    requires name[0] != DOT
    ensures Matches(e, name) <==> View(e).Entry? && View(e).name == name
  {
  }

  lemma DotViews(e: Slot, cluster: nat)
    requires cluster < 0x1_0000_0000
    ensures View(Stamped(e, DOT_NAME, ATTR_DIRECTORY, cluster)) == Dot(true, cluster)
    ensures View(Stamped(e, DOT_DOT_NAME, ATTR_DIRECTORY, cluster)) == DotDot(true, cluster)
  {
    var a, b := Stamped(e, DOT_NAME, ATTR_DIRECTORY, cluster), Stamped(e, DOT_DOT_NAME, ATTR_DIRECTORY, cluster);
    hide Stamped, ClusterOf;
    assert a[0] == NameOf(a)[0] && a[1] == NameOf(a)[1] && a[11] == AttrOf(a);
    assert b[0] == NameOf(b)[0] && b[1] == NameOf(b)[1] && b[2] == NameOf(b)[2] && b[11] == AttrOf(b);
  }

  ghost function Ents(slots: seq<Slot>): (r: seq<Ent>)
    ensures |r| == |slots|
  {
    seq(|slots|, p requires 0 <= p < |slots| => View(slots[p]))
  }
}
