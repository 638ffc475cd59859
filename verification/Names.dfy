/** Typed names and the 11-byte form a directory stores. A typed name is a string without NULs. */
module Names {
  import opened Bytes
  import opened DirEntries

  const BASE_LENGTH := 8

  ghost predicate CString(name: seq<byte>) {
    forall i :: 0 <= i < |name| ==> name[i] != 0
  }

  /** Where the base name, read from i on, stops: at a dot, at the end, or after eight characters. */
  function BaseEnd(name: seq<byte>, i: nat): (r: nat)
    requires i <= |name| && i <= BASE_LENGTH
    ensures i <= r <= |name| && r <= BASE_LENGTH
    ensures forall j :: i <= j < r ==> name[j] != DOT
    ensures r == |name| || r == BASE_LENGTH || name[r] == DOT
    decreases |name| - i
  {
    if i < |name| && name[i] != DOT && i < BASE_LENGTH then BaseEnd(name, i + 1) else i
  }

  function Spaces(n: nat): (r: seq<byte>)
    ensures |r| == n
  {
    seq(n, i => SPACE)
  }

  /** The first n bytes of s, padded with spaces to n. */
  function Padded(s: seq<byte>, n: nat): (r: seq<byte>)
    ensures |r| == n
    ensures forall i :: 0 <= i < n ==> r[i] == if i < |s| then s[i] else SPACE
  {
    if n <= |s| then s[..n] else s + Spaces(n - |s|)
  }

  function ExtensionOf(name: seq<byte>): seq<byte> {
    var n := BaseEnd(name, 0);
    if n < |name| && name[n] == DOT then name[n + 1..] else []
  }

  function FatNameOf(name: seq<byte>): (r: FatName) {
    Padded(name[..BaseEnd(name, 0)], BASE_LENGTH) + Padded(ExtensionOf(name), NAME_LENGTH - BASE_LENGTH)
  }

  /**
   How a typed name is stored: base and extension padded with blanks to eight and three, a longer extension
   cut; a base of more than eight is cut too, and whatever extension follows it is lost.
   */
  lemma StoredForm(base: seq<byte>, ext: seq<byte>)
    requires '.' as int !in base
    ensures var blank: byte, dot: byte := ' ' as int, '.' as int;
      && (|base| <= 8 ==>
            && FatNameOf(base) == base + seq(11 - |base|, i => blank)
            && FatNameOf(base + [dot] + ext) == base + seq(8 - |base|, i => blank)
                                                + if |ext| <= 3 then ext + seq(3 - |ext|, i => blank) else ext[..3])
      && (|base| > 8 ==>
            FatNameOf(base) == FatNameOf(base + [dot] + ext) == base[..8] + seq(3, i => blank))
  {
    StoredBare(base);
    StoredDotted(base, ext);
    hide FatNameOf;
  }

  lemma StoredBare(base: seq<byte>)
    requires DOT !in base
    ensures FatNameOf(base) ==
            if |base| <= 8 then base + seq(11 - |base|, i => SPACE) else base[..8] + seq(3, i => SPACE)
  {
    StoredBase(base, base);
    hide BaseEnd;
  }

  lemma StoredDotted(base: seq<byte>, ext: seq<byte>)
    requires DOT !in base
    ensures FatNameOf(base + [DOT] + ext) ==
            if |base| > 8 then base[..8] + seq(3, i => SPACE)
            else base + seq(8 - |base|, i => SPACE)
                 + if |ext| <= 3 then ext + seq(3 - |ext|, i => SPACE) else ext[..3]
  {
    var name := base + [DOT] + ext;
    StoredBase(name, base);
    hide BaseEnd;
    if |base| <= 8 {
      assert name[..|base|] == base && name[|base| + 1..] == ext;
    } else {
      assert name[..8] == base[..8];
    }
  }

  lemma StoredBase(name: seq<byte>, base: seq<byte>)
    requires DOT !in base && base <= name && (|base| < |name| ==> name[|base|] == DOT)
    ensures BaseEnd(name, 0) == if |base| <= 8 then |base| else 8
  {
    hide BaseEnd;
    assert forall j :: 0 <= j < |base| ==> name[j] == base[j];
  }

  lemma IsFatName(name: seq<byte>, fname: FatName, n: nat)
    requires n == BaseEnd(name, 0)
    requires forall j :: 0 <= j < BASE_LENGTH ==> fname[j] == if j < n then name[j] else SPACE
    requires forall j :: BASE_LENGTH <= j < NAME_LENGTH ==>
               fname[j] == if n < |name| && name[n] == DOT && n + 1 + (j - BASE_LENGTH) < |name|
                           then name[n + 1 + (j - BASE_LENGTH)] else SPACE
    ensures fname == FatNameOf(name)
  {
    hide BaseEnd, Padded, ExtensionOf;
    IsHead(name, fname, n);
    IsTail(name, fname, n);
    assert fname == fname[..BASE_LENGTH] + fname[BASE_LENGTH..];
  }

  lemma IsHead(name: seq<byte>, fname: FatName, n: nat)
    requires n <= |name| && n <= BASE_LENGTH
    requires forall j :: 0 <= j < BASE_LENGTH ==> fname[j] == if j < n then name[j] else SPACE
    ensures fname[..BASE_LENGTH] == Padded(name[..n], BASE_LENGTH)
  {
    hide Padded;
  }

  lemma IsTail(name: seq<byte>, fname: FatName, n: nat)
    requires n == BaseEnd(name, 0)
    requires forall j :: BASE_LENGTH <= j < NAME_LENGTH ==>
               fname[j] == if n < |name| && name[n] == DOT && n + 1 + (j - BASE_LENGTH) < |name|
                           then name[n + 1 + (j - BASE_LENGTH)] else SPACE
    ensures fname[BASE_LENGTH..] == Padded(ExtensionOf(name), NAME_LENGTH - BASE_LENGTH)
  {
    hide BaseEnd, Padded;
    var ext, tail := ExtensionOf(name), fname[BASE_LENGTH..];
    assert forall i :: 0 <= i < |ext| ==> ext[i] == name[n + 1 + i];
    forall i | 0 <= i < NAME_LENGTH - BASE_LENGTH
      ensures tail[i] == Padded(ext, NAME_LENGTH - BASE_LENGTH)[i]
    {
      assert tail[i] == fname[BASE_LENGTH + i];
    }
  }

  /** Converts a typed name, overwriting a buffer of spaces. */
  method BuildFatName(name: seq<byte>) returns (fname: FatName)
    ensures fname == FatNameOf(name)
  {
    var buf := new byte[NAME_LENGTH](i => SPACE);
    var ni, fi := 0, 0;
    while ni < |name| && name[ni] != DOT && fi < BASE_LENGTH
      invariant ni == fi <= |name| && fi <= BASE_LENGTH
      invariant BaseEnd(name, 0) == BaseEnd(name, ni)
      invariant forall j :: 0 <= j < NAME_LENGTH ==> buf[j] == if j < fi then name[j] else SPACE
    {
      buf[fi] := name[ni];
      ni, fi := ni + 1, fi + 1;
    }
    ghost var n := ni;
    assert n == BaseEnd(name, 0);
    hide BaseEnd, FatNameOf;
    if ni < |name| && name[ni] == DOT {
      ni, fi := ni + 1, BASE_LENGTH;
      while ni < |name| && fi < NAME_LENGTH
        invariant n + 1 <= ni <= |name| && BASE_LENGTH <= fi <= NAME_LENGTH && fi - BASE_LENGTH == ni - (n + 1)
        invariant forall j :: 0 <= j < BASE_LENGTH ==> buf[j] == if j < n then name[j] else SPACE
        invariant forall j :: BASE_LENGTH <= j < NAME_LENGTH ==>
                    buf[j] == if j < fi then name[n + 1 + (j - BASE_LENGTH)] else SPACE
      {
        buf[fi] := name[ni];
        ni, fi := ni + 1, fi + 1;
      }
    }
    fname := buf[..];
    IsFatName(name, fname, n);
  }

  /** No typed name is stored with a leading dot, so none can reach "." or "..". */
  lemma NeverDot(name: seq<byte>)
    ensures FatNameOf(name)[0] != DOT
  {
  }

  /** A new slot is seen again under its name unless the name starts with the deletion mark. */
  lemma NewSlotVisible(name: seq<byte>, attr: byte, cluster: nat)
    requires CString(name) && attr % 0x10 == 0 && cluster < 0x1_0000_0000
    ensures View(NewSlot(FatNameOf(name), attr, cluster))
            == (if name != [] && name[0] == DELETED then Erased
                else Entry(FatNameOf(name), attr / 0x10 % 2 == 1, cluster, 0))
  {
    var e := NewSlot(FatNameOf(name), attr, cluster);
    NeverDot(name);
    assert e[0] == NameOf(e)[0] == FatNameOf(name)[0];
    assert e[11] == AttrOf(e);
  }

  // ------------------------------------------------------- the reader's own conversion

  const READ_BUFFER := 12

  /** The first dot at or after i, or the end of the name. */
  function DotIndex(name: seq<byte>, i: nat): (r: nat)
    requires i <= |name|
    ensures i <= r <= |name|
    ensures forall j :: i <= j < r ==> name[j] != DOT
    ensures r < |name| ==> name[r] == DOT
    decreases |name| - i
  {
    if i < |name| && name[i] != DOT then DotIndex(name, i + 1) else i
  }

  /** The names the reader can convert without overrunning its buffer, which it does not check. */
  predicate FitsReadBuffer(name: seq<byte>) {
    DotIndex(name, 0) <= READ_BUFFER && |name| - DotIndex(name, 0) - 1 <= READ_BUFFER - BASE_LENGTH
  }

  /** The reader lays the whole base name down, then the extension over it from the ninth place on. */
  function ReadNameOf(name: seq<byte>): (r: FatName)
    requires FitsReadBuffer(name)
  {
    var n := DotIndex(name, 0);
    var ext := ReadExtension(name);
    var base := Padded(name[..n], READ_BUFFER);
    (base[..BASE_LENGTH] + ext + base[BASE_LENGTH + |ext|..])[..NAME_LENGTH]
  }

  lemma NeverDotRead(name: seq<byte>)
    requires FitsReadBuffer(name)
    ensures ReadNameOf(name)[0] != DOT
  {
    ReadNameAt(name, 0);
    hide ReadNameOf;
  }

  function ReadExtension(name: seq<byte>): seq<byte> {
    var n := DotIndex(name, 0);
    if n < |name| then name[n + 1..] else []
  }

  lemma ReadNameAt(name: seq<byte>, j: nat)
    requires FitsReadBuffer(name) && j < NAME_LENGTH
    ensures var ext := ReadExtension(name);
      ReadNameOf(name)[j] == if BASE_LENGTH <= j < BASE_LENGTH + |ext| then ext[j - BASE_LENGTH]
                             else if j < DotIndex(name, 0) then name[j] else SPACE
  {
    hide DotIndex;
  }

  /** What the reader has at place j of its buffer, for a base of n characters and an extension laid up to `end`. */
  ghost function Laid(name: seq<byte>, n: nat, end: nat, j: nat): byte
    requires n <= |name|
  {
    if BASE_LENGTH <= j < end && n + 1 + (j - BASE_LENGTH) < |name| then name[n + 1 + (j - BASE_LENGTH)]
    else if j < n then name[j]
    else SPACE
  }

  lemma IsReadName(name: seq<byte>, buf: seq<byte>, n: nat, end: nat)
    requires FitsReadBuffer(name) && |buf| == READ_BUFFER && n == DotIndex(name, 0)
    requires end == if n < |name| then BASE_LENGTH + (|name| - n - 1) else BASE_LENGTH
    requires forall j :: 0 <= j < READ_BUFFER ==> buf[j] == Laid(name, n, end, j)
    ensures buf[..NAME_LENGTH] == ReadNameOf(name)
  {
    hide DotIndex, ReadNameOf;
    var got, want := buf[..NAME_LENGTH], ReadNameOf(name);
    forall j | 0 <= j < NAME_LENGTH
      ensures got[j] == want[j]
    {
      ReadNameAt(name, j);
      assert buf[j] == Laid(name, n, end, j);
    }
    assert got == want;
  }

  lemma ReadBounds(name: seq<byte>)
    requires FitsReadBuffer(name)
    ensures DotIndex(name, 0) <= READ_BUFFER && |name| - DotIndex(name, 0) - 1 <= READ_BUFFER - BASE_LENGTH
  {
  }

  method BuildReadName(name: seq<byte>) returns (fname: FatName)
    requires FitsReadBuffer(name)
    ensures fname == ReadNameOf(name)
  {
    hide ReadNameOf, FitsReadBuffer, Laid;
    ReadBounds(name);
    var buf := new byte[READ_BUFFER](i => SPACE);
    var ni, fi := 0, 0;
    while ni < |name| && name[ni] != DOT
      invariant ni == fi <= DotIndex(name, 0)
      invariant DotIndex(name, 0) == DotIndex(name, ni)
      invariant forall j :: 0 <= j < READ_BUFFER ==> buf[j] == if j < fi then name[j] else SPACE
    {
      buf[fi] := name[ni];
      ni, fi := ni + 1, fi + 1;
    }
    ghost var n := ni;
    ghost var end := BASE_LENGTH;
    LaidBase(name, n, buf[..]);
    if ni < |name| && name[ni] == DOT {
      ni, fi := ni + 1, BASE_LENGTH;
      while ni < |name|
        invariant n + 1 <= ni <= |name| && fi - BASE_LENGTH == ni - (n + 1)
        invariant forall j :: 0 <= j < READ_BUFFER ==> buf[j] == Laid(name, n, fi, j)
      {
        LaidMore(name, n, fi);
        buf[fi] := name[ni];
        ni, fi := ni + 1, fi + 1;
      }
      end := fi;
    }
    fname := buf[..NAME_LENGTH];
    IsReadName(name, buf[..], n, end);
  }

  lemma LaidBase(name: seq<byte>, n: nat, buf: seq<byte>)
    requires n <= |name| && |buf| == READ_BUFFER
    requires forall j :: 0 <= j < READ_BUFFER ==> buf[j] == if j < n then name[j] else SPACE
    ensures forall j :: 0 <= j < READ_BUFFER ==> buf[j] == Laid(name, n, BASE_LENGTH, j)
  {
  }

  lemma LaidMore(name: seq<byte>, n: nat, end: nat)
    requires n < |name| && BASE_LENGTH <= end && n + 1 + (end - BASE_LENGTH) < |name|
    ensures Laid(name, n, end + 1, end) == name[n + 1 + (end - BASE_LENGTH)]
    ensures forall j: nat :: j != end ==> Laid(name, n, end + 1, j) == Laid(name, n, end, j)
  {
  }

  /** The typed character the reader has at a place past the eighth: the extension's, else the base's. */
  function TailChar(name: seq<byte>, j: nat): byte
    requires BASE_LENGTH <= j
  {
    var n := DotIndex(name, 0);
    if n + 1 + (j - BASE_LENGTH) < |name| then name[n + 1 + (j - BASE_LENGTH)] else if j < n then name[j] else SPACE
  }

  /** Nothing but spaces in the last three places. */
  predicate BlankTail(name: seq<byte>) {
    forall j :: BASE_LENGTH <= j < NAME_LENGTH ==> TailChar(name, j) == SPACE
  }

  lemma ReadTail(name: seq<byte>, j: nat)
    requires FitsReadBuffer(name) && BASE_LENGTH <= j < NAME_LENGTH
    ensures ReadNameOf(name)[j] == TailChar(name, j)
  {
    hide ReadNameOf, DotIndex;
    ReadNameAt(name, j);
  }

  lemma StoredTail(name: seq<byte>, j: nat)
    requires BASE_LENGTH <= j < NAME_LENGTH
    ensures FatNameOf(name)[j] == if DotIndex(name, 0) <= BASE_LENGTH then TailChar(name, j) else SPACE
  {
    BaseIsDot(name, 0);
    hide DotIndex, BaseEnd;
  }

  lemma SameHead(name: seq<byte>, j: nat)
    requires FitsReadBuffer(name) && j < BASE_LENGTH
    ensures ReadNameOf(name)[j] == FatNameOf(name)[j]
  {
    hide ReadNameOf, DotIndex, BaseEnd;
    ReadNameAt(name, j);
    BaseIsDot(name, 0);
  }

  /**
   The reader finds a name under the form the writer stores exactly when its base has at most eight
   characters, or nothing but spaces follows the eighth.
   */
  lemma ReadNameAgrees(name: seq<byte>)
    requires FitsReadBuffer(name)
    ensures ReadNameOf(name) == FatNameOf(name) <==> DotIndex(name, 0) <= BASE_LENGTH || BlankTail(name)
  {
    hide ReadNameOf, FatNameOf, FitsReadBuffer, DotIndex, TailChar;
    var short := DotIndex(name, 0) <= BASE_LENGTH;
    forall j | BASE_LENGTH <= j < NAME_LENGTH
      ensures ReadNameOf(name)[j] == TailChar(name, j)
      ensures FatNameOf(name)[j] == if short then TailChar(name, j) else SPACE
    {
      ReadTail(name, j);
      StoredTail(name, j);
    }
    forall j | 0 <= j < BASE_LENGTH
      ensures ReadNameOf(name)[j] == FatNameOf(name)[j]
    {
      SameHead(name, j);
    }
    if short || BlankTail(name) {
      assert ReadNameOf(name) == FatNameOf(name);
    }
  }

  /** Nine letters: the writer stores the first eight, the reader looks for all nine. */
  lemma NineLettersDisagree()
    ensures var name := [0x41, 0x42, 0x43, 0x44, 0x45, 0x46, 0x47, 0x48, 0x49];
      FitsReadBuffer(name) && ReadNameOf(name) != FatNameOf(name)
  {
    var name := [0x41, 0x42, 0x43, 0x44, 0x45, 0x46, 0x47, 0x48, 0x49];
    NoDot(name, 0);
    hide DotIndex, ReadNameOf, FatNameOf;
    ReadNameAgrees(name);
    assert TailChar(name, BASE_LENGTH) == 0x49;
  }

  lemma {:induction false} NoDot(name: seq<byte>, i: nat)
    requires i <= |name| && DOT !in name
    ensures DotIndex(name, i) == |name|
    decreases |name| - i
  {
    if i < |name| {
      NoDot(name, i + 1);
    }
  }

  lemma {:induction false} BaseIsDot(name: seq<byte>, i: nat)
    requires i <= |name| && i <= BASE_LENGTH
    ensures BaseEnd(name, i) == if DotIndex(name, i) <= BASE_LENGTH then DotIndex(name, i) else BASE_LENGTH
    decreases |name| - i
  {
    if i < |name| && name[i] != DOT && i < BASE_LENGTH {
      BaseIsDot(name, i + 1);
    }
  }

  // --------------------------------------------------------------- the listing's decoder

  /** The bytes of s that are not spaces. */
  function NonSpaces(s: seq<byte>): seq<byte> {
    if s == [] then [] else (if s[0] != SPACE then [s[0]] else []) + NonSpaces(s[1..])
  }

  /** A stored name as listings show it: a dot only before an extension. */
  function Shown(fname: FatName): seq<byte> {
    NonSpaces(fname[..BASE_LENGTH])
    + if fname[BASE_LENGTH] != SPACE then [DOT] + NonSpaces(fname[BASE_LENGTH..]) else []
  }

  lemma {:induction false} NonSpacesAppend(a: seq<byte>, b: seq<byte>)
    ensures NonSpaces(a + b) == NonSpaces(a) + NonSpaces(b)
  {
    if a == [] {
      assert a + b == b;
    } else {
      assert (a + b)[1..] == a[1..] + b;
      NonSpacesAppend(a[1..], b);
    }
  }

  /** Decodes a stored name, skipping its padding. */
  method DecodeName(fname: FatName) returns (name: seq<byte>)
    ensures name == Shown(fname)
  {
    name := [];
    var j := 0;
    while j < BASE_LENGTH
      invariant 0 <= j <= BASE_LENGTH && name == NonSpaces(fname[..j])
    {
      NonSpacesStep(fname, 0, j);
      if fname[j] != SPACE {
        name := name + [fname[j]];
      }
      j := j + 1;
    }
    if fname[BASE_LENGTH] != SPACE {
      ghost var base := name;
      name := name + [DOT];
      while j < NAME_LENGTH
        invariant BASE_LENGTH <= j <= NAME_LENGTH
        invariant name == base + [DOT] + NonSpaces(fname[BASE_LENGTH..j])
      {
        NonSpacesStep(fname, BASE_LENGTH, j);
        if fname[j] != SPACE {
          name := name + [fname[j]];
        }
        j := j + 1;
      }
      assert fname[BASE_LENGTH..NAME_LENGTH] == fname[BASE_LENGTH..];
    }
  }

  lemma NonSpacesStep(s: seq<byte>, i: nat, j: nat)
    requires i <= j < |s|
    ensures NonSpaces(s[i..j + 1]) == NonSpaces(s[i..j]) + if s[j] != SPACE then [s[j]] else []
  {
    assert s[i..j + 1] == s[i..j] + [s[j]];
    NonSpacesAppend(s[i..j], [s[j]]);
    assert NonSpaces([s[j]]) == (if s[j] != SPACE then [s[j]] else []) + NonSpaces([]);
  }

  lemma {:induction false} NonSpacesWord(s: seq<byte>, n: nat)
    requires SPACE !in s
    ensures NonSpaces(s + Spaces(n)) == s
    decreases |s| + n
  {
    if s != [] {
      assert (s + Spaces(n))[1..] == s[1..] + Spaces(n);
      NonSpacesWord(s[1..], n);
    } else if n > 0 {
      assert (s + Spaces(n))[1..] == [] + Spaces(n - 1);
      NonSpacesWord(s, n - 1);
    }
  }

  /** A valid 8.3 name: up to eight characters, then a dot and one to three more, or no dot at all. */
  predicate EightDotThree(name: seq<byte>) {
    var n := DotIndex(name, 0);
    && SPACE !in name && 0 < n <= BASE_LENGTH
    && (n < |name| ==> 0 < |name| - n - 1 <= NAME_LENGTH - BASE_LENGTH)
  }

  /** The two halves of a stored name. */
  lemma StoredHalves(name: seq<byte>)
    ensures FatNameOf(name)[..BASE_LENGTH] == Padded(name[..BaseEnd(name, 0)], BASE_LENGTH)
    ensures FatNameOf(name)[BASE_LENGTH..] == Padded(ExtensionOf(name), NAME_LENGTH - BASE_LENGTH)
  {
    hide BaseEnd, Padded, ExtensionOf;
  }

  /** A valid 8.3 name is its base, and its extension after a dot if it has one. */
  lemma TypedHalves(name: seq<byte>)
    requires EightDotThree(name)
    ensures var base, ext := name[..BaseEnd(name, 0)], ExtensionOf(name);
      && SPACE !in base && SPACE !in ext && |base| <= BASE_LENGTH && |ext| <= NAME_LENGTH - BASE_LENGTH
      && name == base + (if ext == [] then [] else [DOT] + ext)
  {
    BaseIsDot(name, 0);
    hide DotIndex, BaseEnd;
  }

  /** Storing a valid 8.3 name and listing it gives the name back. */
  lemma ShownBack(name: seq<byte>)
    requires EightDotThree(name)
    ensures Shown(FatNameOf(name)) == name
  {
    hide EightDotThree, FatNameOf, ExtensionOf, BaseEnd, NonSpaces, Padded;
    StoredHalves(name);
    TypedHalves(name);
    var base, ext := name[..BaseEnd(name, 0)], ExtensionOf(name);
    PaddedWord(base, BASE_LENGTH);
    PaddedWord(ext, NAME_LENGTH - BASE_LENGTH);
    assert FatNameOf(name)[BASE_LENGTH] == FatNameOf(name)[BASE_LENGTH..][0];
    if ext != [] {
      assert ext[0] in ext;
    }
  }

  lemma PaddedWord(s: seq<byte>, n: nat)
    requires SPACE !in s && |s| <= n
    ensures NonSpaces(Padded(s, n)) == s
  {
    NonSpacesWord(s, n - |s|);
    assert Padded(s, n) == s + Spaces(n - |s|);
  }

  /**
   Which typed names fit the reader's buffer, base and extension both, and which are valid 8.3 names. A
   name's base ends at its first dot.
   */
  lemma NameShapes(base: seq<byte>, ext: seq<byte>)
    requires '.' as int !in base
    ensures var dot: byte := '.' as int;
      && (FitsReadBuffer(base) <==> |base| <= 12)
      && (FitsReadBuffer(base + [dot] + ext) <==> |base| <= 12 && |ext| <= 4)
      && (EightDotThree(base) <==> ' ' as int !in base && 1 <= |base| <= 8)
      && (EightDotThree(base + [dot] + ext) <==>
            ' ' as int !in base && ' ' as int !in ext && 1 <= |base| <= 8 && 1 <= |ext| <= 3)
  {
    var whole := base + [DOT] + ext;
    DotAt(base, base);
    DotAt(whole, base);
    hide DotIndex;
    assert SPACE in whole <==> SPACE in base || SPACE in ext;
  }

  lemma DotAt(name: seq<byte>, base: seq<byte>)
    requires DOT !in base && base <= name && (|base| < |name| ==> name[|base|] == DOT)
    ensures DotIndex(name, 0) == |base|
  {
    hide DotIndex;
    assert forall j :: 0 <= j < |base| ==> name[j] == base[j];
  }
}
