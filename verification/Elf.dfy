/**
 The ELF loader (System V ABI, chapter 5, "Program Loading"): copies the loadable segments of a 32-bit
 image to their addresses. File offsets are added in 32-bit arithmetic, as the loader does.
 */
module ElfLoader {
  import opened Bytes

  const USER_MIN := 0x40_0000
  const USER_MAX := 0x80_0000
  const WORD_SPAN := 0x1_0000_0000
  const HEADER_SIZE := 52  // sizeof(Elf32_Ehdr)
  const SEGMENT_SIZE := 32 // sizeof(Elf32_Phdr)
  const PT_LOAD := 1
  const ET_EXEC := 2
  const EM_386 := 3

  // ---------------------------------------------------------------------- the headers

  predicate Validated(file: seq<byte>)
    requires HEADER_SIZE <= |file|
  {
    && file[0] == 0x7F && file[1] == 0x45 && file[2] == 0x4C && file[3] == 0x46
    && file[4] == 1 && file[5] == 1
    && Le16(file, 16) == ET_EXEC && Le16(file, 18) == EM_386
  }

  function EntryPoint(file: seq<byte>): nat
    requires HEADER_SIZE <= |file|
  {
    Le32(file, 24)
  }

  function TableStart(file: seq<byte>): nat
    requires HEADER_SIZE <= |file|
  {
    Le32(file, 28)
  }

  function TableCount(file: seq<byte>): nat
    requires HEADER_SIZE <= |file|
  {
    Le16(file, 44)
  }

  datatype Segment = Segment(kind: nat, offset: nat, vaddr: nat, filesz: nat, memsz: nat) {
    predicate Loads() { kind == PT_LOAD && memsz != 0 }

    /** The loader's checks, sums wrapping at 2^32. */
    predicate Accepted(size: nat) {
      var end := (vaddr + memsz) % WORD_SPAN;
      && (offset + filesz) % WORD_SPAN <= size
      && filesz <= memsz
      && USER_MIN <= vaddr && end <= USER_MAX && vaddr <= end
    }

    ghost predicate Words() {
      offset < WORD_SPAN && vaddr < WORD_SPAN && filesz < WORD_SPAN && memsz < WORD_SPAN
    }

    /** The segment's file bytes lie where its header says, with no wrap-around. */
    ghost predicate InFile(size: nat) {
      offset + filesz <= size
    }

    ghost predicate InUser() {
      USER_MIN <= vaddr && vaddr + memsz <= USER_MAX && filesz <= memsz
    }
  }

  /**
   What the checks let through: memory inside the user range, in full, and file bytes that end inside the
   file or wrap round past 2^32. Only segments of type 1 that take up memory are looked at.
   */
  lemma AcceptedExactly(s: Segment, size: nat)
    requires s.offset < 0x1_0000_0000 && s.filesz < 0x1_0000_0000
    requires s.vaddr < 0x1_0000_0000 && s.memsz < 0x1_0000_0000
    ensures s.Accepted(size) <==>
              && (s.offset + s.filesz <= size || 0 <= s.offset + s.filesz - 0x1_0000_0000 <= size)
              && s.filesz <= s.memsz && 0x40_0000 <= s.vaddr && s.vaddr + s.memsz <= 0x80_0000
    ensures s.Loads() <==> s.kind == 1 && s.memsz > 0
  {
  }

  lemma AcceptedInUser(s: Segment, size: nat)
    requires s.Words() && s.Accepted(size) && s.Loads()
    ensures s.InUser()
    ensures s.offset + s.filesz < WORD_SPAN ==> s.InFile(size)
  {
  }

  ghost function SegmentAt(file: seq<byte>, at: nat): (s: Segment)
    requires at + SEGMENT_SIZE <= |file|
    ensures s.Words()
  {
    Segment(Le32(file, at), Le32(file, at + 4), Le32(file, at + 8), Le32(file, at + 16), Le32(file, at + 20))
  }

  ghost function Segments(file: seq<byte>, at: nat, n: nat): (r: seq<Segment>)
    requires at + n * SEGMENT_SIZE <= |file|
    ensures |r| == n && forall i :: 0 <= i < n ==> r[i] == SegmentAt(file, at + i * SEGMENT_SIZE)
  {
    seq(n, i requires 0 <= i < n => SegmentAt(file, at + i * SEGMENT_SIZE))
  }

  /** The header of an image, field by field. */
  datatype ElfHeader = ElfHeader(
    magic: seq<byte>, fileClass: nat, encoding: nat, padding: seq<byte>, fileType: nat, machine: nat, version: nat,
    entry: nat, phoff: nat, shoff: nat, flags: nat, ehsize: nat, phentsize: nat, phnum: nat, shentsize: nat,
    shnum: nat, shstrndx: nat)
  {
    ghost predicate Fits() {
      && |magic| == 4 && fileClass < 0x100 && encoding < 0x100 && |padding| == 10 && fileType < 0x1_0000
      && machine < 0x1_0000 && version < 0x1_0000_0000 && entry < 0x1_0000_0000 && phoff < 0x1_0000_0000
      && shoff < 0x1_0000_0000 && flags < 0x1_0000_0000 && ehsize < 0x1_0000 && phentsize < 0x1_0000
      && phnum < 0x1_0000 && shentsize < 0x1_0000 && shnum < 0x1_0000 && shstrndx < 0x1_0000
    }

    ghost function Bytes(): (r: seq<byte>)
      requires Fits()
      ensures |r| == 52
    {
      magic + Field(fileClass, 1) + Field(encoding, 1) + padding + Field(fileType, 2) + Field(machine, 2)
      + Field(version, 4) + Field(entry, 4) + Field(phoff, 4) + Field(shoff, 4) + Field(flags, 4) + Field(ehsize, 2)
      + Field(phentsize, 2) + Field(phnum, 2) + Field(shentsize, 2) + Field(shnum, 2) + Field(shstrndx, 2)
    }
  }

  /** The loader reads each field of a header at its place, and takes 32-bit little-endian x86 executables only. */
  lemma HeaderRead(h: ElfHeader, file: seq<byte>)
    requires h.Fits() && h.Bytes() <= file
    ensures EntryPoint(file) == h.entry && TableStart(file) == h.phoff && TableCount(file) == h.phnum
    ensures Validated(file) <==>
              && h.magic == [0x7F, 'E' as int, 'L' as int, 'F' as int]
              && h.fileClass == 1 && h.encoding == 1 && h.fileType == 2 && h.machine == 3
  {
    hide Le16, Le32;
    HeaderSlices(h, file);
    FieldOf32(file, 24, h.entry);
    FieldOf32(file, 28, h.phoff);
    FieldOf16(file, 44, h.phnum);
    FieldOf16(file, 16, h.fileType);
    FieldOf16(file, 18, h.machine);
    assert file[4] == file[4..5][0] == h.fileClass && file[5] == file[5..6][0] == h.encoding;
    assert h.magic == [file[0], file[1], file[2], file[3]];
  }

  lemma HeaderSlices(h: ElfHeader, file: seq<byte>)
    requires h.Fits() && h.Bytes() <= file
    ensures file[..4] == h.magic && file[4..5] == Field(h.fileClass, 1) && file[5..6] == Field(h.encoding, 1)
    ensures file[16..18] == Field(h.fileType, 2) && file[18..20] == Field(h.machine, 2)
    ensures file[24..28] == Field(h.entry, 4) && file[28..32] == Field(h.phoff, 4) && file[44..46] == Field(h.phnum, 2)
  {
    hide Field;
    var b := h.Bytes();
    assert forall i :: 0 <= i < 52 ==> file[i] == b[i];
    assert b[..4] == h.magic && b[4..5] == Field(h.fileClass, 1) && b[5..6] == Field(h.encoding, 1);
    assert b[16..18] == Field(h.fileType, 2) && b[18..20] == Field(h.machine, 2);
    assert b[24..28] == Field(h.entry, 4) && b[28..32] == Field(h.phoff, 4) && b[44..46] == Field(h.phnum, 2);
  }

  /** A program header, field by field. */
  datatype ProgramHeader = ProgramHeader(
    kind: nat, offset: nat, vaddr: nat, paddr: nat, filesz: nat, memsz: nat, flags: nat, align: nat)
  {
    ghost predicate Fits() {
      && kind < 0x1_0000_0000 && offset < 0x1_0000_0000 && vaddr < 0x1_0000_0000 && paddr < 0x1_0000_0000
      && filesz < 0x1_0000_0000 && memsz < 0x1_0000_0000 && flags < 0x1_0000_0000 && align < 0x1_0000_0000
    }

    ghost function Bytes(): (r: seq<byte>)
      ensures |r| == 32
    {
      Field(kind, 4) + Field(offset, 4) + Field(vaddr, 4) + Field(paddr, 4)
      + Field(filesz, 4) + Field(memsz, 4) + Field(flags, 4) + Field(align, 4)
    }
  }

  ghost function TableBytes(headers: seq<ProgramHeader>): (r: seq<seq<byte>>)
    ensures |r| == |headers|
  {
    seq(|headers|, i requires 0 <= i < |headers| => headers[i].Bytes())
  }

  /** The loader reads each program header of a table at its place. */
  lemma TableRead(file: seq<byte>, at: nat, headers: seq<ProgramHeader>, i: nat)
    requires i < |headers| && at + |headers| * SEGMENT_SIZE <= |file|
    requires headers[i].Fits() && Joined(TableBytes(headers)) == file[at..at + |headers| * SEGMENT_SIZE]
    ensures var h := headers[i];
      Segments(file, at, |headers|)[i]
      == Segment(kind := h.kind, offset := h.offset, vaddr := h.vaddr, filesz := h.filesz, memsz := h.memsz)
  {
    var h, o := headers[i], at + i * SEGMENT_SIZE;
    forall j | 0 <= j < 32
      ensures file[o + j] == h.Bytes()[j]
    {
      JoinedAt(TableBytes(headers), 32, i, j);
    }
    hide Field, Le32, Joined;
    assert file[o..o + 32] == h.Bytes();
    HeaderFields(h, file, o);
  }

  lemma HeaderFields(h: ProgramHeader, file: seq<byte>, o: nat)
    requires h.Fits() && o + 32 <= |file| && file[o..o + 32] == h.Bytes()
    ensures SegmentAt(file, o)
         == Segment(kind := h.kind, offset := h.offset, vaddr := h.vaddr, filesz := h.filesz, memsz := h.memsz)
  {
    hide Field, Le32;
    var b := h.Bytes();
    assert forall i :: 0 <= i < 32 ==> file[o + i] == b[i];
    assert b[..4] == Field(h.kind, 4) && b[4..8] == Field(h.offset, 4) && b[8..12] == Field(h.vaddr, 4);
    assert b[16..20] == Field(h.filesz, 4) && b[20..24] == Field(h.memsz, 4);
    assert file[o..o + 4] == b[..4] && file[o + 4..o + 8] == b[4..8] && file[o + 8..o + 12] == b[8..12];
    assert file[o + 16..o + 20] == b[16..20] && file[o + 20..o + 24] == b[20..24];
    FieldOf32(file, o, h.kind);
    FieldOf32(file, o + 4, h.offset);
    FieldOf32(file, o + 8, h.vaddr);
    FieldOf32(file, o + 16, h.filesz);
    FieldOf32(file, o + 20, h.memsz);
  }

  // ---------------------------------------------------------------- what loading means

  /** Memory with one segment in place: its file bytes, then zeros. */
  ghost function Place(mem: seq<byte>, file: seq<byte>, s: Segment): (r: seq<byte>)
    requires s.InFile(|file|) && s.filesz <= s.memsz && s.vaddr + s.memsz <= |mem|
    ensures |r| == |mem|
  {
    mem[..s.vaddr] + file[s.offset..s.offset + s.filesz] + seq(s.memsz - s.filesz, i => 0) + mem[s.vaddr + s.memsz..]
  }

  datatype Outcome = Outcome(ok: bool, mem: seq<byte>)

  /** The segments placed in order, up to the first one refused. */
  ghost function Load(mem: seq<byte>, file: seq<byte>, segs: seq<Segment>): (r: Outcome)
    requires USER_MAX <= |mem| && SumsFit(segs)
    ensures |r.mem| == |mem|
    decreases |segs|
  {
    if segs == [] then Outcome(true, mem)
    else if !segs[0].Loads() then Load(mem, file, segs[1..])
    else if !segs[0].Accepted(|file|) then Outcome(false, mem)
    else
      AcceptedInUser(segs[0], |file|);
      Load(Place(mem, file, segs[0]), file, segs[1..])
  }

  ghost predicate SumsFit(segs: seq<Segment>) {
    forall i :: 0 <= i < |segs| ==> segs[i].Words() && segs[i].offset + segs[i].filesz < WORD_SPAN
  }

  ghost predicate Covers(s: Segment, a: nat) {
    s.Loads() && s.vaddr <= a < s.vaddr + s.memsz
  }

  /** The last segment that covers an address, or -1. */
  ghost function LastCover(segs: seq<Segment>, a: nat): (i: int)
    ensures -1 <= i < |segs|
    ensures i >= 0 ==> Covers(segs[i], a)
    ensures forall j :: i < j < |segs| ==> !Covers(segs[j], a)
  {
    if segs == [] then -1
    else
      var r := LastCover(segs[1..], a);
      if r >= 0 then r + 1 else if Covers(segs[0], a) then 0 else -1
  }

  lemma PlaceAt(mem: seq<byte>, file: seq<byte>, s: Segment, a: nat)
    requires s.InFile(|file|) && s.filesz <= s.memsz && s.vaddr + s.memsz <= |mem| && a < |mem| && s.Loads()
    ensures Place(mem, file, s)[a] ==
            if !Covers(s, a) then mem[a]
            else if a - s.vaddr < s.filesz then file[s.offset + (a - s.vaddr)] else 0
  {
  }

  /**
   After a successful load every byte of memory is the one its last covering segment gives it, a file
   byte or a zero, and is as before where no segment reaches.
   */
  lemma {:induction false} LastSegmentWins(mem: seq<byte>, file: seq<byte>, segs: seq<Segment>, a: nat)
    requires USER_MAX <= |mem| && SumsFit(segs) && Load(mem, file, segs).ok && a < |mem|
    ensures var i := LastCover(segs, a);
      var now := Load(mem, file, segs).mem;
      if i < 0 then now[a] == mem[a]
      else if a - segs[i].vaddr < segs[i].filesz then
        segs[i].offset + (a - segs[i].vaddr) < |file| && now[a] == file[segs[i].offset + (a - segs[i].vaddr)]
      else now[a] == 0
    decreases |segs|
  {
    hide Place;
    if segs != [] {
      var s, rest := segs[0], segs[1..];
      if s.Loads() {
        AcceptedInUser(s, |file|);
        PlaceAt(mem, file, s, a);
        LastSegmentWins(Place(mem, file, s), file, rest, a);
      } else {
        LastSegmentWins(mem, file, rest, a);
      }
    }
  }

  // ------------------------------------------------------------------------- the loader

  /** A load from `off` bytes past the start of the image; past its end it may yield anything. */
  method Peek(file: seq<byte>, off: nat) returns (b: byte)
    ensures off % WORD_SPAN < |file| ==> b == file[off % WORD_SPAN]
  {
    if off % WORD_SPAN < |file| {
      b := file[off % WORD_SPAN];
    } else {
      b := *;
    }
  }

  method PeekWord(file: seq<byte>, off: nat) returns (w: nat)
    requires |file| < WORD_SPAN
    ensures w < WORD_SPAN && (off + 4 <= |file| ==> w == Le32(file, off))
  {
    var b0 := Peek(file, off);
    var b1 := Peek(file, off + 1);
    var b2 := Peek(file, off + 2);
    var b3 := Peek(file, off + 3);
    w := Le32([b0, b1, b2, b3], 0);
  }

  method ReadSegment(file: seq<byte>, at: nat) returns (s: Segment)
    requires |file| < WORD_SPAN
    ensures s.Words() && (at + SEGMENT_SIZE <= |file| ==> s == SegmentAt(file, at))
  {
    var kind := PeekWord(file, at);
    var offset := PeekWord(file, at + 4);
    var vaddr := PeekWord(file, at + 8);
    var filesz := PeekWord(file, at + 16);
    var memsz := PeekWord(file, at + 20);
    s := Segment(kind, offset, vaddr, filesz, memsz);
  }

  /** Copies a segment's file bytes to its address and zeroes the rest. */
  method CopySegment(file: seq<byte>, mem: array<byte>, s: Segment)
    requires |file| < WORD_SPAN && USER_MAX <= mem.Length && s.InUser()
    modifies mem
    ensures mem[..USER_MIN] == old(mem[..USER_MIN]) && mem[USER_MAX..] == old(mem[USER_MAX..])
    ensures s.InFile(|file|) ==> mem[..] == Place(old(mem[..]), file, s)
  {
    hide Place;
    var b := 0;
    while b < s.filesz
      invariant 0 <= b <= s.filesz
      invariant forall i :: 0 <= i < mem.Length && !(s.vaddr <= i < s.vaddr + b) ==> mem[i] == old(mem[i])
      invariant s.InFile(|file|) ==> forall i :: s.vaddr <= i < s.vaddr + b ==> mem[i] == file[s.offset + (i - s.vaddr)]
    {
      var x := Peek(file, s.offset + b);
      mem[s.vaddr + b] := x;
      b := b + 1;
    }
    while b < s.memsz
      invariant s.filesz <= b <= s.memsz
      invariant forall i :: 0 <= i < mem.Length && !(s.vaddr <= i < s.vaddr + b) ==> mem[i] == old(mem[i])
      invariant s.InFile(|file|) ==>
                  forall i :: s.vaddr <= i < s.vaddr + s.filesz ==> mem[i] == file[s.offset + (i - s.vaddr)]
      invariant forall i :: s.vaddr + s.filesz <= i < s.vaddr + b ==> mem[i] == 0
    {
      mem[s.vaddr + b] := 0;
      b := b + 1;
    }
    if s.InFile(|file|) {
      IsPlaced(old(mem[..]), mem[..], file, s);
    }
  }

  lemma IsPlaced(was: seq<byte>, now: seq<byte>, file: seq<byte>, s: Segment)
    requires |now| == |was| && s.InFile(|file|) && s.filesz <= s.memsz && s.vaddr + s.memsz <= |was|
    requires forall i :: 0 <= i < |was| && !(s.vaddr <= i < s.vaddr + s.memsz) ==> now[i] == was[i]
    requires forall i :: s.vaddr <= i < s.vaddr + s.filesz ==> now[i] == file[s.offset + (i - s.vaddr)]
    requires forall i :: s.vaddr + s.filesz <= i < s.vaddr + s.memsz ==> now[i] == 0
    ensures now == Place(was, file, s)
  {
  }

  /** The program header table lies inside the file, by the loader's wrapping arithmetic. */
  ghost predicate HeaderOk(file: seq<byte>) {
    && HEADER_SIZE <= |file| && Validated(file)
    && TableStart(file) != 0 && TableCount(file) != 0
    && (TableStart(file) + TableCount(file) * SEGMENT_SIZE) % WORD_SPAN <= |file|
  }

  /** No sum of file offsets leaves 32 bits. */
  ghost predicate NoWrap(file: seq<byte>)
    requires HEADER_SIZE <= |file|
  {
    && TableStart(file) + TableCount(file) * SEGMENT_SIZE <= |file|
    && SumsFit(Segments(file, TableStart(file), TableCount(file)))
  }

  /**
   Loads an image and returns its entry point, or 0. Whatever the headers say, nothing outside the user
   range is written; when no sum wraps, memory is what placing the segments in order makes of it.
   */
  method ElfLoad(file: seq<byte>, mem: array<byte>) returns (entry: nat)
    requires |file| < WORD_SPAN && USER_MAX <= mem.Length
    modifies mem
    ensures mem[..USER_MIN] == old(mem[..USER_MIN]) && mem[USER_MAX..] == old(mem[USER_MAX..])
    ensures !HeaderOk(file) ==> entry == 0 && mem[..] == old(mem[..])
    ensures |file| < 52 || TableStart(file) == 0 || TableCount(file) == 0
            || |file| < TableStart(file) + TableCount(file) * 32 < 0x1_0000_0000 ==>
              entry == 0 && mem[..] == old(mem[..])
    ensures HeaderOk(file) && NoWrap(file) ==>
              var r := Load(old(mem[..]), file, Segments(file, TableStart(file), TableCount(file)));
              mem[..] == r.mem && entry == if r.ok then EntryPoint(file) else 0
  {
    hide Le32, Le16, Place, Load, Validated;
    if |file| < HEADER_SIZE {
      return 0;
    }
    if !Validated(file) {
      return 0;
    }
    var start, count := TableStart(file), TableCount(file);
    if start == 0 || count == 0 {
      return 0;
    }
    if (start + count * SEGMENT_SIZE) % WORD_SPAN > |file| {
      return 0;
    }
    ghost var plain := NoWrap(file);
    ghost var segs := if plain then Segments(file, start, count) else [];
    ghost var mem0 := mem[..];
    var i := 0;
    if plain {
      assert segs[0..] == segs;
    }
    while i < count
      invariant 0 <= i <= count
      invariant mem[..USER_MIN] == mem0[..USER_MIN] && mem[USER_MAX..] == mem0[USER_MAX..]
      invariant plain ==> Rest(segs, i) && Load(mem[..], file, segs[i..]) == Load(mem0, file, segs)
    {
      var s := ReadSegment(file, start + i * SEGMENT_SIZE);
      if plain {
        TableFits(start, i, count);
        LoadMore(mem[..], file, segs, i);
      }
      if s.Loads() {
        if !s.Accepted(|file|) {
          return 0;
        }
        AcceptedInUser(s, |file|);
        CopySegment(file, mem, s);
      }
      i := i + 1;
    }
    if plain {
      LoadMore(mem[..], file, segs, i);
    }
    return EntryPoint(file);
  }

  /** What is left of a segment table still has no wrapping sums. */
  ghost predicate Rest(segs: seq<Segment>, i: nat) {
    SumsFit(segs) && i <= |segs| && SumsFit(segs[i..])
  }

  /** What loading the rest of a table does with its next segment. */
  lemma LoadMore(mem: seq<byte>, file: seq<byte>, segs: seq<Segment>, i: nat)
    requires USER_MAX <= |mem| && Rest(segs, i)
    ensures i == |segs| ==> Load(mem, file, segs[i..]) == Outcome(true, mem)
    ensures i < |segs| ==> Rest(segs, i + 1) && segs[i].Words() && segs[i].offset + segs[i].filesz < WORD_SPAN
    ensures i < |segs| && !segs[i].Loads() ==> Load(mem, file, segs[i..]) == Load(mem, file, segs[i + 1..])
    ensures i < |segs| && segs[i].Loads() && !segs[i].Accepted(|file|) ==>
              Load(mem, file, segs[i..]) == Outcome(false, mem)
    ensures i < |segs| && segs[i].Loads() && segs[i].Accepted(|file|) ==>
              && segs[i].InUser() && segs[i].InFile(|file|)
              && Load(mem, file, segs[i..]) == Load(Place(mem, file, segs[i]), file, segs[i + 1..])
  {
    hide Place, Segment.Accepted;
    if i < |segs| {
      assert segs[i..][0] == segs[i] && segs[i..][1..] == segs[i + 1..];
      if segs[i].Loads() && segs[i].Accepted(|file|) {
        AcceptedInUser(segs[i], |file|);
      }
    }
  }

  lemma TableFits(start: nat, i: nat, count: nat)
    requires i < count
    ensures start + i * SEGMENT_SIZE + SEGMENT_SIZE <= start + count * SEGMENT_SIZE
  {
  }
}
