/**
 The on-disk format, written out as the C structures' fields in order, each of its own width and little
 endian. The offsets and bit patterns used elsewhere are proved to be those of these layouts.
 */
module OnDisk {
  import opened Bytes
  import opened FatLayout
  import Volumes
  import opened DirEntries

  // -------------------------------------------------------------------- the boot sector

  /** The BIOS parameter block, field by field, and the rest of its sector. */
  datatype BootSector = BootSector(
    jump: seq<byte>, oem: seq<byte>, bytesPerSector: nat, sectorsPerCluster: nat, reservedSectors: nat,
    fatCount: nat, rootEntryCount: nat, totalSectors16: nat, mediaType: nat, sectorsPerFat16: nat,
    sectorsPerTrack: nat, headCount: nat, hiddenSectors: nat, totalSectors32: nat, sectorsPerFat32: nat,
    flags: nat, version: nat, rootCluster: nat, rest: seq<byte>)
  {
    ghost predicate Fits() {
      && |jump| == 3 && |oem| == 8 && bytesPerSector < 0x1_0000 && sectorsPerCluster < 0x100
      && reservedSectors < 0x1_0000 && fatCount < 0x100 && rootEntryCount < 0x1_0000
      && totalSectors16 < 0x1_0000 && mediaType < 0x100 && sectorsPerFat16 < 0x1_0000
      && sectorsPerTrack < 0x1_0000 && headCount < 0x1_0000 && hiddenSectors < 0x1_0000_0000
      && totalSectors32 < 0x1_0000_0000 && sectorsPerFat32 < 0x1_0000_0000 && flags < 0x1_0000
      && version < 0x1_0000 && rootCluster < 0x1_0000_0000 && |rest| == 464
    }

    ghost function Bytes(): (r: Sector)
      requires Fits()
    {
      jump + oem + Field(bytesPerSector, 2) + Field(sectorsPerCluster, 1) + Field(reservedSectors, 2)
      + Field(fatCount, 1) + Field(rootEntryCount, 2) + Field(totalSectors16, 2) + Field(mediaType, 1)
      + Field(sectorsPerFat16, 2) + Field(sectorsPerTrack, 2) + Field(headCount, 2) + Field(hiddenSectors, 4)
      + Field(totalSectors32, 4) + Field(sectorsPerFat32, 4) + Field(flags, 2) + Field(version, 2)
      + Field(rootCluster, 4) + rest
    }

    /** The fields the driver goes by. */
    ghost function Geometry(): FatLayout.Geometry {
      FatLayout.Geometry(fatStart := reservedSectors, fatCount := fatCount, sectorsPerFat := sectorsPerFat32,
                         sectorsPerCluster := sectorsPerCluster, totalSectors := totalSectors32, root := rootCluster)
    }
  }

  /** The driver reads each field of a boot sector at its place. */
  lemma BootParsed(b: BootSector)
    requires b.Fits()
    ensures Volumes.ParseBpb(b.Bytes()) == b.Geometry()
  {
    hide Le16, Le32;
    var s := b.Bytes();
    FieldOf16(s, 14, b.reservedSectors);
    FieldOf32(s, 36, b.sectorsPerFat32);
    FieldOf32(s, 32, b.totalSectors32);
    FieldOf32(s, 44, b.rootCluster);
    assert s[13..14] == Field(b.sectorsPerCluster, 1) && s[16..17] == Field(b.fatCount, 1);
  }

  // ----------------------------------------------------------------------- whole volumes

  /** A volume's sectors: boot sector, reserved sectors, equal FATs, clusters, and what fills no cluster. */
  datatype StoredVolume = StoredVolume(boot: BootSector, reserved: seq<Sector>, fat: seq<Sector>,
                                       clusters: seq<Cluster>, tail: seq<Sector>)
  {
    ghost function Fats(): seq<seq<Sector>>
      requires boot.fatCount >= 0
    {
      seq(boot.fatCount, k => fat)
    }

    ghost function Sectors(): seq<Sector>
      requires boot.Fits()
    {
      [boot.Bytes()] + reserved + Joined(Fats()) + Joined(clusters) + tail
    }

    /** One past the last cluster that has both a FAT entry and sectors. */
    ghost function Limit(): nat {
      if |clusters| + 2 <= |fat| * 128 then |clusters| + 2 else |fat| * 128
    }

    /** The sizes agree with the boot sector's fields, and the root is a cluster of the volume. */
    ghost predicate Sized() {
      && boot.Fits() && 1 + |reserved| == boot.reservedSectors
      && 0 < boot.fatCount && 0 < |fat| == boot.sectorsPerFat32
      && |tail| < boot.sectorsPerCluster && Wide(clusters, boot.sectorsPerCluster)
      && |Sectors()| == boot.totalSectors32
      && 2 <= boot.rootCluster < Limit() <= 0x0FFF_FFF7
    }

    /** The FAT's bytes are the entries, four bytes each. */
    ghost predicate Links(links: seq<nat>) {
      && (forall i :: 0 <= i < |links| ==> links[i] < 0x1_0000_0000)
      && Joined(fat) == Joined(Words(links))
    }
  }

  ghost function Words(links: seq<nat>): (r: seq<seq<byte>>)
    ensures |r| == |links|
  {
    seq(|links|, i requires 0 <= i < |links| => Field(links[i], 4))
  }

  lemma SectorsSplit(v: StoredVolume)
    requires v.Sized()
    ensures var b, d := v.boot, v.Sectors();
      var fats, data := Joined(v.Fats()), Joined(v.clusters);
      && |fats| == b.fatCount * b.sectorsPerFat32 && |data| == |v.clusters| * b.sectorsPerCluster
      && |d| == b.reservedSectors + |fats| + |data| + |v.tail| && d[0] == b.Bytes()
  {
    hide Joined, BootSector.Bytes;
    JoinedLength(v.Fats(), |v.fat|);
    JoinedLength(v.clusters, v.boot.sectorsPerCluster);
  }

  lemma SectorsAt(v: StoredVolume, x: nat)
    requires v.Sized()
    ensures var from, fats, data := v.boot.reservedSectors, Joined(v.Fats()), Joined(v.clusters);
      && (x < |fats| ==> from + x < |v.Sectors()| && v.Sectors()[from + x] == fats[x])
      && (x < |data| ==> from + |fats| + x < |v.Sectors()| && v.Sectors()[from + |fats| + x] == data[x])
  {
    hide Joined, BootSector.Bytes, StoredVolume.Fats, Wide;
  }

  lemma SizedGeometry(v: StoredVolume)
    requires v.Sized()
    ensures var g := v.boot.Geometry();
      && g.Valid() && g.Limit() == v.Limit() && g.FatEntries() == |v.fat| * 128
      && g.DataStart() == v.boot.reservedSectors + v.boot.fatCount * v.boot.sectorsPerFat32
      && g.TotalClusters() == |v.clusters|
  {
    SectorsSplit(v);
    hide Joined, StoredVolume.Sectors, BootSector.Fits, Wide;
    DivExact(|v.clusters|, v.boot.sectorsPerCluster, |v.tail|);
    assert v.boot.Geometry().DataStart() + (|v.clusters| * v.boot.sectorsPerCluster + |v.tail|) == |v.Sectors()|;
  }

  lemma DivExact(q: nat, b: nat, r: nat)
    requires r < b
    ensures (q * b + r) / b == q
  {
    var p := (q * b + r) / b;
    MulNext(p, b);
    MulNext(q, b);
    if p < q {
      MulMono(p + 1, q, b);
    } else if q < p {
      MulMono(q + 1, p, b);
    }
  }

  /** Every FAT sector is where the driver looks for it, in each copy. */
  lemma FatSectorAt(v: StoredVolume, k: nat, i: nat)
    requires v.Sized() && k < v.boot.fatCount && i < |v.fat|
    ensures var g := v.boot.Geometry();
      g.FatLba(k, i) < |v.Sectors()| && v.Sectors()[g.FatLba(k, i)] == v.fat[i]
  {
    FatAt(v, k, i);
    assert |v.fat| == v.boot.sectorsPerFat32;
    hide Joined, StoredVolume.Sectors, StoredVolume.Sized, StoredVolume.Fats, Wide;
    var at := k * |v.fat| + i;
    SectorsAt(v, at);
    LbaOf(v.boot.Geometry(), k, i, |v.fat|);
    hide Geometry.FatLba;
  }

  lemma LbaOf(g: Geometry, k: nat, i: nat, n: nat)
    requires n == g.sectorsPerFat
    ensures g.FatLba(k, i) == g.fatStart + (k * n + i)
  {
  }

  lemma FatAt(v: StoredVolume, k: nat, i: nat)
    requires k < v.boot.fatCount && i < |v.fat|
    ensures k * |v.fat| + i < |Joined(v.Fats())| && Joined(v.Fats())[k * |v.fat| + i] == v.fat[i]
  {
    JoinedAt(v.Fats(), |v.fat|, k, i);
  }

  lemma WordAt(fat: seq<Sector>, links: seq<nat>, c: nat)
    requires forall i :: 0 <= i < |links| ==> links[i] < 0x1_0000_0000
    requires Joined(fat) == Joined(Words(links)) && c < |fat| * 128
    ensures c < |links| && Le32(fat[c * 4 / 512], c * 4 % 512) == links[c]
  {
    InSector(c);
    JoinedLength(fat, 512);
    JoinedLength(Words(links), 4);
    hide Field, Le32, Joined;
    WordIn(fat, links, c, c / 128, c % 128 * 4);
  }

  lemma WordIn(fat: seq<Sector>, links: seq<nat>, c: nat, s: nat, o: nat)
    requires Joined(fat) == Joined(Words(links)) && c < |links| && s < |fat|
    requires s * 512 + o == c * 4 && o + 4 <= 512 && links[c] < 0x1_0000_0000
    ensures Le32(fat[s], o) == links[c]
  {
    hide Field, Le32, Joined;
    forall j | 0 <= j < 4
      ensures fat[s][o + j] == Field(links[c], 4)[j]
    {
      ByteAt(fat, links, c, s, o, j);
    }
    assert fat[s][o..o + 4] == Field(links[c], 4);
    FieldOf32(fat[s], o, links[c]);
  }

  lemma InSector(c: nat)
    ensures c * 4 / 512 == c / 128 && c * 4 % 512 == c % 128 * 4
  {
    assert c == c / 128 * 128 + c % 128;
  }

  lemma ByteAt(fat: seq<Sector>, links: seq<nat>, c: nat, s: nat, o: nat, j: nat)
    requires Joined(fat) == Joined(Words(links)) && c < |links| && s < |fat|
    requires s * 512 + o == c * 4 && o + 4 <= 512 && j < 4
    ensures fat[s][o + j] == Field(links[c], 4)[j]
  {
    hide Field, Joined;
    assert Words(links)[c] == Field(links[c], 4) && Wide(Words(links), 4) && Wide(fat, 512);
    hide Words, Wide;
    JoinedAt(fat, 512, s, o + j);
    JoinedAt(Words(links), 4, c, j);
    assert s * 512 + (o + j) == c * 4 + j;
  }

  /** So is every entry in it, as 28 bits of link and 4 reserved ones. */
  lemma LinkAt(v: StoredVolume, links: seq<nat>, c: nat)
    requires v.Sized() && v.Links(links) && c < |v.fat| * 128
    ensures v.boot.Geometry().Valid() && |v.Sectors()| == v.boot.Geometry().totalSectors
    ensures c < |links| && RawEntry(v.boot.Geometry(), v.Sectors(), c) == links[c]
  {
    SizedGeometry(v);
    WordAt(v.fat, links, c);
    FatSectorAt(v, 0, c * 4 / 512);
  }

  lemma ClusterHere(v: StoredVolume, c: nat)
    requires v.Sized() && 2 <= c < v.Limit()
    ensures v.boot.Geometry().Valid() && |v.Sectors()| == v.boot.Geometry().totalSectors
    ensures v.boot.Geometry().Limit() == v.Limit()
    ensures ClusterAt(v.boot.Geometry(), v.Sectors(), c) == v.clusters[c - 2]
  {
    SizedGeometry(v);
    SectorsSplit(v);
    var g, n := v.boot.Geometry(), v.boot.sectorsPerCluster;
    ClusterInside(g, c);
    assert |v.clusters[c - 2]| == n && Wide(v.clusters, n);
    hide Joined, StoredVolume.Sectors, StoredVolume.Sized, StoredVolume.Fats, Wide;
    var at := (c - 2) * n;
    forall j | 0 <= j < n
      ensures ClusterAt(g, v.Sectors(), c)[j] == v.clusters[c - 2][j]
    {
      JoinedAt(v.clusters, n, c - 2, j);
      SectorsAt(v, at + j);
      assert g.ClusterToLba(c) + j == g.DataStart() + (at + j);
    }
  }

  /**
   What the driver makes of a volume: each entry's low 28 bits are the cluster's link, its high 4 are
   kept beside it, and the clusters are numbered from 2 in the order they are stored.
   */
  lemma VolumeImage(v: StoredVolume, links: seq<nat>)
    requires v.Sized() && v.Links(links)
    ensures var g := v.boot.Geometry();
      && Layout(g, v.Sectors()) && g.Limit() == v.Limit()
      && var img := ImageOf(g, v.Sectors());
      && |img.fat| == |links| == |v.fat| * 128
      && (forall c :: 0 <= c < |links| ==> img.fat[c] == links[c] % 0x1000_0000 && img.top[c] == links[c] / 0x1000_0000)
      && (forall c :: 2 <= c < v.Limit() ==> img.clus[c] == v.clusters[c - 2])
  {
    var g := v.boot.Geometry();
    SizedGeometry(v);
    forall k, i | 0 <= k < g.fatCount && 0 <= i < g.sectorsPerFat
      ensures g.FatLba(k, i) < |v.Sectors()| && v.Sectors()[g.FatLba(k, i)] == v.Sectors()[g.fatStart + i]
    {
      FatSectorAt(v, k, i);
      FatSectorAt(v, 0, i);
    }
    JoinedLength(v.fat, 512);
    JoinedLength(Words(links), 4);
    forall c | 0 <= c < |links|
      ensures RawEntry(g, v.Sectors(), c) == links[c]
    {
      LinkAt(v, links, c);
    }
    forall c | 2 <= c < v.Limit()
      ensures ClusterAt(g, v.Sectors(), c) == v.clusters[c - 2]
    {
      ClusterHere(v, c);
    }
  }

  // ------------------------------------------------------------------- directory entries

  /** A directory entry, field by field. */
  datatype DirEntry = DirEntry(
    name: FatName, attributes: nat, reserved: nat, createdTenths: nat, createdTime: nat, createdDate: nat,
    accessedDate: nat, clusterHigh: nat, modifiedTime: nat, modifiedDate: nat, clusterLow: nat, size: nat)
  {
    ghost predicate Fits() {
      && attributes < 0x100 && reserved < 0x100 && createdTenths < 0x100 && createdTime < 0x1_0000
      && createdDate < 0x1_0000 && accessedDate < 0x1_0000 && clusterHigh < 0x1_0000 && modifiedTime < 0x1_0000
      && modifiedDate < 0x1_0000 && clusterLow < 0x1_0000 && size < 0x1_0000_0000
    }

    ghost function Bytes(): Slot {
      name + Field(attributes, 1) + Rest()
    }

    /** What follows the attributes. */
    ghost function Rest(): (r: seq<byte>)
      ensures |r| == 20
    {
      Field(reserved, 1) + Field(createdTenths, 1) + Field(createdTime, 2) + Field(createdDate, 2)
      + Field(accessedDate, 2) + Field(clusterHigh, 2) + Field(modifiedTime, 2) + Field(modifiedDate, 2)
      + Field(clusterLow, 2) + Field(size, 4)
    }

    ghost function Cluster(): nat { clusterHigh * 0x1_0000 + clusterLow }

    ghost predicate Directory() { attributes / 16 % 2 == 1 }
  }

  lemma EntryFields(e: DirEntry)
    requires e.Fits()
    ensures NameOf(e.Bytes()) == e.name && AttrOf(e.Bytes()) == e.attributes
    ensures ClusterOf(e.Bytes()) == e.Cluster() && SizeOf(e.Bytes()) == e.size
  {
    hide Le16, Le32;
    var s := e.Bytes();
    FieldOf16(s, 20, e.clusterHigh);
    FieldOf16(s, 26, e.clusterLow);
    FieldOf32(s, 28, e.size);
    assert s[11..12] == Field(e.attributes, 1);
    assert s[..11] == e.name;
  }

  /**
   What the driver makes of an entry: a first byte of 0 ends the directory, 0xE5 marks a deleted entry,
   any of the low four attribute bits hides one, 0x10 is the directory bit.
   */
  lemma EntryMeaning(e: DirEntry)
    requires e.Fits()
    ensures View(e.Bytes()) ==
            if e.name[0] == 0 then Unused
            else if e.name[0] == 0xE5 then Erased
            else if e.attributes % 16 != 0 then Hidden
            else if e.name[0] == '.' as int && e.name[1] == ' ' as int then Dot(e.Directory(), e.Cluster())
            else if e.name[0] == '.' as int && e.name[1] == '.' as int && e.name[2] == ' ' as int then
              DotDot(e.Directory(), e.Cluster())
            else Entry(e.name, e.Directory(), e.Cluster(), e.size)
  {
    EntryFields(e);
    hide ClusterOf, SizeOf, Field, DirEntry.Bytes, DirEntry.Cluster;
    var s := e.Bytes();
    assert s[0] == NameOf(s)[0] && s[1] == NameOf(s)[1] && s[2] == NameOf(s)[2] && s[11] == AttrOf(s);
  }

  /** A new file's entry and a new directory's: name, attributes, first cluster, and zeros. */
  lemma NewEntries(name: FatName, cluster: nat)
    requires cluster < 0x1_0000_0000
    ensures NewSlot(name, ATTR_ARCHIVE, 0) == DirEntry(name, 0x20, 0, 0, 0, 0, 0, 0, 0, 0, 0, 0).Bytes()
    ensures NewSlot(name, ATTR_DIRECTORY, cluster)
         == DirEntry(name, 0x10, 0, 0, 0, 0, 0, cluster / 0x1_0000, 0, 0, cluster % 0x1_0000, 0).Bytes()
  {
    NewBytes(name, ATTR_ARCHIVE, 0);
    NewBytes(name, ATTR_DIRECTORY, cluster);
  }

  lemma NewBytes(name: FatName, attr: byte, cluster: nat)
    requires cluster < 0x1_0000_0000
    ensures NewSlot(name, attr, cluster)
         == DirEntry(name, attr, 0, 0, 0, 0, 0, cluster / 0x1_0000, 0, 0, cluster % 0x1_0000, 0).Bytes()
  {
    var e := DirEntry(name, attr, 0, 0, 0, 0, 0, 0, 0, 0, 0, 0);
    BlankBytes(name, attr);
    hide DirEntry.Bytes, WithCluster, Field;
    ClusterSet(e, cluster);
  }

  lemma BlankBytes(name: FatName, attr: byte)
    ensures DirEntry(name, attr, 0, 0, 0, 0, 0, 0, 0, 0, 0, 0).Bytes() == name + [attr] + seq(20, i => 0)
  {
    assert Field(0, 2) == [0, 0] && Field(0, 4) == [0, 0, 0, 0] && Field(0, 1) == [0];
    assert Field(attr, 1) == [attr];
  }

  lemma ClusterSet(e: DirEntry, cluster: nat)
    requires e.Fits() && cluster < 0x1_0000_0000
    ensures WithCluster(e.Bytes(), cluster)
         == e.(clusterHigh := cluster / 0x1_0000, clusterLow := cluster % 0x1_0000).Bytes()
  {
    var high := PutLe16(e.Bytes(), 20, cluster / 0x1_0000);
    var r := PutLe16(high, 26, cluster);
    FieldFrom16(high, 20, cluster / 0x1_0000);
    FieldFrom16(r, 26, cluster % 0x1_0000);
    hide Field, PutLe16;
    assert r[20..22] == high[20..22];
    SameParts(e, e.(clusterHigh := cluster / 0x1_0000, clusterLow := cluster % 0x1_0000), r);
  }

  /** Bytes that hold an entry's cluster and size, and otherwise another's, are that entry's. */
  lemma SameParts(e: DirEntry, e': DirEntry, r: Slot)
    requires e' == e.(clusterHigh := e'.clusterHigh, clusterLow := e'.clusterLow, size := e'.size)
    requires r[..20] == e.Bytes()[..20] && r[22..26] == e.Bytes()[22..26]
    requires r[20..22] == Field(e'.clusterHigh, 2) && r[26..28] == Field(e'.clusterLow, 2)
    requires r[28..] == Field(e'.size, 4)
    ensures r == e'.Bytes()
  {
    hide Field;
    assert r == r[..20] + r[20..22] + r[22..26] + r[26..28] + r[28..];
    assert e'.Bytes()[..20] == e.Bytes()[..20] && e'.Bytes()[22..26] == e.Bytes()[22..26];
    assert e'.Bytes()[20..22] == Field(e'.clusterHigh, 2) && e'.Bytes()[26..28] == Field(e'.clusterLow, 2);
    assert e'.Bytes()[28..] == Field(e'.size, 4);
  }

  /** Rewriting a file changes its entry's first cluster and size. */
  lemma ChangedEntry(e: DirEntry, cluster: nat, size: nat)
    requires e.Fits() && cluster < 0x1_0000_0000 && size < 0x1_0000_0000
    ensures Retargeted(e.Bytes(), cluster, size)
         == e.(clusterHigh := cluster / 0x1_0000, clusterLow := cluster % 0x1_0000, size := size).Bytes()
  {
    ClusterSet(e, cluster);
    hide WithCluster, DirEntry.Bytes;
    var e1 := e.(clusterHigh := cluster / 0x1_0000, clusterLow := cluster % 0x1_0000);
    var r := PutLe32(e1.Bytes(), 28, size);
    FieldFrom32(r, 28, size);
    hide PutLe32;
    assert r[28..] == r[28..32];
    SizeSet(e1, size, r);
  }

  /** Deleting one changes its first byte. */
  lemma DeletedEntry(e: DirEntry)
    requires e.Fits()
    ensures AsDeleted(e.Bytes()) == e.(name := [0xE5] + e.name[1..]).Bytes()
  {
    hide Field;
    var gone := e.(name := [0xE5] + e.name[1..]);
    assert gone.Bytes()[11..] == e.Bytes()[11..];
    assert gone.Bytes()[..11] == gone.name && e.Bytes()[..11] == e.name;
    assert AsDeleted(e.Bytes()) == [0xE5] + e.Bytes()[1..11] + e.Bytes()[11..];
    assert gone.Bytes() == gone.Bytes()[..11] + gone.Bytes()[11..];
  }

  /** The entries "." and ".." that a new directory starts with. */
  lemma DotEntries(e: DirEntry, cluster: nat)
    requires e.Fits() && cluster < 0x1_0000_0000
    ensures var e' := e.(attributes := 0x10, clusterHigh := cluster / 0x1_0000, clusterLow := cluster % 0x1_0000,
                         size := 0);
      var dot: byte, blank: byte := '.' as int, ' ' as int;
      && Stamped(e.Bytes(), DOT_NAME, ATTR_DIRECTORY, cluster) == e'.(name := [dot] + seq(10, i => blank)).Bytes()
      && Stamped(e.Bytes(), DOT_DOT_NAME, ATTR_DIRECTORY, cluster)
      == e'.(name := [dot, dot] + seq(9, i => blank)).Bytes()
  {
    StampedEntry(e, DOT_NAME, cluster);
    StampedEntry(e, DOT_DOT_NAME, cluster);
    hide Stamped, DirEntry.Bytes;
  }

  lemma StampedEntry(e: DirEntry, name: FatName, cluster: nat)
    requires e.Fits() && cluster < 0x1_0000_0000
    ensures Stamped(e.Bytes(), name, ATTR_DIRECTORY, cluster)
         == e.(name := name, attributes := 0x10, clusterHigh := cluster / 0x1_0000,
               clusterLow := cluster % 0x1_0000, size := 0).Bytes()
  {
    var e1 := e.(name := name, attributes := 0x10);
    assert Field(0x10, 1) == [0x10];
    hide Field;
    assert e1.Rest() == e.Rest() && e.Bytes()[12..] == e.Rest();
    hide DirEntry.Rest;
    assert e1.Bytes() == name + [0x10] + e.Bytes()[12..];
    hide DirEntry.Bytes, Retargeted;
    ChangedEntry(e1, cluster, 0);
  }

  lemma SizeSet(e: DirEntry, size: nat, r: Slot)
    requires r[..28] == e.Bytes()[..28] && r[28..] == Field(size, 4)
    ensures r == e.(size := size).Bytes()
  {
    hide Field;
    assert r == r[..28] + r[28..];
    assert e.(size := size).Bytes()[..28] == e.Bytes()[..28];
    assert e.(size := size).Bytes()[28..] == Field(size, 4);
  }

  /** A directory's sectors are its entries, 32 bytes each, one after the other. */
  lemma DirectorySlots(secs: seq<Sector>, entries: seq<Slot>)
    requires Joined(secs) == Joined(entries)
    ensures Slots(secs) == entries
  {
    JoinedLength(secs, 512);
    JoinedLength(entries, 32);
    hide Joined, SlotAt;
    forall p | 0 <= p < |entries|
      ensures Slots(secs)[p] == entries[p]
    {
      SlotHere(secs, entries, p, p / 16, p % 16);
    }
  }

  lemma SlotHere(secs: seq<Sector>, entries: seq<Slot>, p: nat, n: nat, i: nat)
    requires Joined(secs) == Joined(entries) && p < |entries| && n < |secs| && p == n * 16 + i && i < 16
    ensures SlotAt(secs[n], i) == entries[p]
  {
    hide Joined;
    assert Wide(secs, 512) && Wide(entries, 32);
    hide Wide;
    forall j | 0 <= j < 32
      ensures SlotAt(secs[n], i)[j] == entries[p][j]
    {
      JoinedAt(secs, 512, n, i * 32 + j);
      JoinedAt(entries, 32, p, j);
      assert n * 512 + (i * 32 + j) == p * 32 + j && SlotAt(secs[n], i)[j] == secs[n][i * 32 + j];
    }
  }
}
