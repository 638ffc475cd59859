/** The bytes a cluster chain holds: its clusters' sectors, laid end to end. */
module ChainData {
  import opened Bytes
  import opened FatLayout

  ghost predicate InImage(clus: seq<Cluster>, ch: seq<nat>) {
    forall i :: 0 <= i < |ch| ==> ch[i] < |clus|
  }

  ghost function Flat(clus: seq<Cluster>, ch: seq<nat>): seq<Sector>
    requires InImage(clus, ch)
  {
    if ch == [] then [] else
      Flat(clus, ch[..|ch| - 1]) + clus[ch[|ch| - 1]]
  }

  lemma FlatOne(clus: seq<Cluster>, c: nat)
    requires c < |clus|
    ensures Flat(clus, [c]) == clus[c]
  {
    assert [c][..0] == [];
  }

  lemma {:induction false} FlatAppend(clus: seq<Cluster>, a: seq<nat>, b: seq<nat>)
    requires InImage(clus, a + b)
    ensures InImage(clus, a) && InImage(clus, b)
    ensures Flat(clus, a + b) == Flat(clus, a) + Flat(clus, b)
  {
    assert forall i :: 0 <= i < |a| ==> a[i] == (a + b)[i];
    assert forall i :: 0 <= i < |b| ==> b[i] == (a + b)[|a| + i];
    if b == [] {
      assert a + b == a;
    } else {
      var init := b[..|b| - 1];
      assert (a + b)[..|a + b| - 1] == a + init;
      FlatAppend(clus, a, init);
    }
  }

  /** Writing to clusters outside a chain leaves its bytes alone. */
  lemma {:induction false} FlatKept(clus: seq<Cluster>, clus': seq<Cluster>, ch: seq<nat>)
    requires InImage(clus, ch) && InImage(clus', ch)
    requires forall i :: 0 <= i < |ch| ==> clus'[ch[i]] == clus[ch[i]]
    ensures Flat(clus', ch) == Flat(clus, ch)
  {
    if ch != [] {
      FlatKept(clus, clus', ch[..|ch| - 1]);
    }
  }

  /** Where the k-th cluster's sectors begin. */
  ghost function Base(clus: seq<Cluster>, ch: seq<nat>, k: nat): nat
    requires InImage(clus, ch) && k <= |ch|
  {
    |Flat(clus, ch[..k])|
  }

  lemma FlatSplit(clus: seq<Cluster>, ch: seq<nat>, k: nat)
    requires InImage(clus, ch) && k < |ch|
    ensures Flat(clus, ch[..k + 1]) == Flat(clus, ch[..k]) + clus[ch[k]]
    ensures Flat(clus, ch) == Flat(clus, ch[..k + 1]) + Flat(clus, ch[k + 1..])
  {
    assert ch[..k + 1][..k] == ch[..k];
    assert ch == ch[..k + 1] + ch[k + 1..];
    FlatAppend(clus, ch[..k + 1], ch[k + 1..]);
  }

  /** Sector s of the k-th cluster is sector Base(k) + s of the chain. */
  lemma FlatAt(clus: seq<Cluster>, ch: seq<nat>, k: nat, s: nat)
    requires InImage(clus, ch) && k < |ch| && s < |clus[ch[k]]|
    ensures Base(clus, ch, k) + |clus[ch[k]]| <= |Flat(clus, ch)|
    ensures Flat(clus, ch)[Base(clus, ch, k) + s] == clus[ch[k]][s]
  {
    FlatSplit(clus, ch, k);
  }

  /** Writing a sector of one of a chain's clusters replaces that sector of its bytes. */
  lemma FlatPut(clus: seq<Cluster>, clus': seq<Cluster>, ch: seq<nat>, k: nat, s: nat, buf: Sector)
    requires InImage(clus, ch) && k < |ch| && s < |clus[ch[k]]|
    requires |clus'| == |clus| && (forall i :: 0 <= i < |ch| && i != k ==> clus'[ch[i]] == clus[ch[i]])
    requires clus'[ch[k]] == SetSector(clus[ch[k]], s, buf)
    ensures Base(clus, ch, k) + s < |Flat(clus, ch)|
    ensures Flat(clus', ch) == Flat(clus, ch)[Base(clus, ch, k) + s := buf]
  {
    hide Flat;
    FlatSplit(clus, ch, k);
    FlatSplit(clus', ch, k);
    FlatKept(clus, clus', ch[..k]);
    FlatKept(clus, clus', ch[k + 1..]);
    var a, b, c := Flat(clus, ch[..k]), clus[ch[k]], Flat(clus, ch[k + 1..]);
    assert Flat(clus, ch) == a + b + c && Flat(clus', ch) == a + SetSector(b, s, buf) + c;
  }

  /** A chain of clusters of n sectors each holds that many sectors per cluster. */
  lemma {:induction false} FlatLength(clus: seq<Cluster>, ch: seq<nat>, n: nat)
    requires InImage(clus, ch) && forall i :: 0 <= i < |ch| ==> |clus[ch[i]]| == n
    ensures |Flat(clus, ch)| == |ch| * n
  {
    if ch != [] {
      var init := ch[..|ch| - 1];
      FlatLength(clus, init, n);
      MulNext(|init|, n);
    }
  }

  // -------------------------------------------------------------------- bytes

  /** The bytes of a run of sectors. */
  ghost function Content(secs: seq<Sector>): (r: seq<byte>)
    ensures |r| == |secs| * SECTOR_SIZE
  {
    seq(|secs| * SECTOR_SIZE, b requires 0 <= b < |secs| * SECTOR_SIZE => secs[b / SECTOR_SIZE][b % SECTOR_SIZE])
  }

  lemma ContentAppend(a: seq<Sector>, b: seq<Sector>)
    ensures Content(a + b) == Content(a) + Content(b)
  {
    forall x | 0 <= x < |a + b| * SECTOR_SIZE
      ensures Content(a + b)[x] == (Content(a) + Content(b))[x]
    {
      if x >= |a| * SECTOR_SIZE {
        var y := x - |a| * SECTOR_SIZE;
        assert x / SECTOR_SIZE == |a| + y / SECTOR_SIZE && x % SECTOR_SIZE == y % SECTOR_SIZE;
      }
    }
  }

  lemma ContentOne(buf: Sector)
    ensures Content([buf]) == buf
  {
  }
}
