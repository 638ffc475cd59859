/**
 The shell's tokenizer, which splits a command line in place, and the part of the write command that
 puts the line back together.
 */
module Shell {
  const NUL: char := '\0'
  const SPACE: char := ' '

  /** Where a word starts and ends in the line. */
  datatype Token = Token(start: nat, end: nat)

  ghost predicate IsText(t: string) {
    forall i :: 0 <= i < |t| ==> t[i] != NUL
  }

  /** A maximal run of characters that are not spaces. */
  ghost predicate IsToken(t: string, k: Token) {
    && k.start < k.end <= |t|
    && (forall i :: k.start <= i < k.end ==> t[i] != SPACE)
    && (k.start == 0 || t[k.start - 1] == SPACE)
    && (k.end == |t| || t[k.end] == SPACE)
  }

  /** All the words of a text that start before `upto`, in order. */
  ghost predicate AreTokens(t: string, tokens: seq<Token>, upto: nat) {
    && (forall i :: 0 <= i < |tokens| ==> IsToken(t, tokens[i]) && tokens[i].start < upto)
    && (forall i, j :: 0 <= i < j < |tokens| ==> tokens[i].end < tokens[j].start)
    && (forall k :: IsToken(t, k) && k.start < upto ==> k in tokens)
  }

  /** The text with a NUL where each word ends. */
  ghost predicate IsCut(t: string, tokens: seq<Token>, now: string) {
    && |now| == |t|
    && (forall i :: 0 <= i < |tokens| && tokens[i].end < |t| ==> now[tokens[i].end] == '\0')
    && (forall j :: 0 <= j < |t| && (forall i :: 0 <= i < |tokens| ==> tokens[i].end != j) ==> now[j] == t[j])
  }

  /** Every character that is not a space lies in a word. */
  lemma WordAround(t: string, j: nat) returns (k: Token)
    requires j < |t| && t[j] != SPACE
    ensures IsToken(t, k) && k.start <= j < k.end
  {
    var a, b := j, j + 1;
    while a > 0 && t[a - 1] != SPACE
      invariant 0 <= a <= j && forall i :: a <= i <= j ==> t[i] != SPACE
    {
      a := a - 1;
    }
    while b < |t| && t[b] != SPACE
      invariant j < b <= |t| && forall i :: a <= i < b ==> t[i] != SPACE
    {
      b := b + 1;
    }
    k := Token(a, b);
  }

  /** So when the words run out before the argument limit, nothing but spaces is left out. */
  lemma NothingDropped(t: string, tokens: seq<Token>, j: nat)
    requires AreTokens(t, tokens, |t|) && j < |t| && t[j] != ' '
    ensures exists i :: 0 <= i < |tokens| && tokens[i].start <= j < tokens[i].end
  {
    var k := WordAround(t, j);
    assert k in tokens;
  }

  /** Two lists of the same words are the same list. */
  lemma {:induction false} TokensUnique(t: string, a: seq<Token>, b: seq<Token>, upto: nat)
    requires AreTokens(t, a, upto) && AreTokens(t, b, upto)
    ensures a == b
  {
    SameLength(t, a, b, upto);
    SameLength(t, b, a, upto);
    forall i | 0 <= i < |a|
      ensures a[i] == b[i]
    {
      SameAt(t, a, b, upto, i);
    }
  }

  lemma {:induction false} SameAt(t: string, a: seq<Token>, b: seq<Token>, upto: nat, i: nat)
    requires AreTokens(t, a, upto) && AreTokens(t, b, upto) && i < |a|
    ensures i < |b| && a[i] == b[i]
    decreases i
  {
    if i > 0 {
      SameAt(t, a, b, upto, i - 1);
    }
    assert a[i] in b;
    var j :| 0 <= j < |b| && b[j] == a[i];
    if j < i {
      SameAt(t, a, b, upto, j);
    } else if j > i {
      assert b[i] in a;
      var m :| 0 <= m < |a| && a[m] == b[i];
      if m < i {
        SameAt(t, a, b, upto, m);
      }
    }
  }

  lemma SameLength(t: string, a: seq<Token>, b: seq<Token>, upto: nat)
    requires AreTokens(t, a, upto) && AreTokens(t, b, upto)
    ensures |a| <= |b|
  {
    if a != [] {
      SameAt(t, a, b, upto, |a| - 1);
    }
  }

  // ------------------------------------------------------------------- splitting a line

  /** A line buffer holding a NUL-terminated text. */
  ghost predicate Holds(line: array<char>, t: string)
    reads line
  {
    IsText(t) && |t| < line.Length && line[..|t|] == t && line[|t|] == NUL
  }

  /** The line after splitting: cut at the words' ends, still terminated. */
  ghost predicate Split(line: array<char>, t: string, tokens: seq<Token>)
    reads line
  {
    IsText(t) && |t| < line.Length && IsCut(t, tokens, line[..|t|]) && line[|t|] == NUL
  }

  /** How far the words found account for the text: all of it, unless the limit was reached. */
  ghost function Reached(t: string, tokens: seq<Token>, maxArgs: nat): nat {
    if |tokens| < maxArgs then |t| else if tokens == [] then 0 else tokens[|tokens| - 1].end
  }

  /** The line from p on is still what was typed. */
  ghost predicate Unread(line: array<char>, t: string, p: nat)
    reads line
  {
    && IsText(t) && p <= |t| < line.Length && line[|t|] == NUL
    && forall i :: p <= i < |t| ==> line[i] == t[i]
  }

  method SkipSpaces(line: array<char>, p: nat, ghost t: string) returns (q: nat)
    requires Unread(line, t, p)
    ensures p <= q <= |t| && (forall i :: p <= i < q ==> t[i] == SPACE) && (q == |t| || t[q] != SPACE)
  {
    q := p;
    while line[q] == SPACE
      invariant p <= q <= |t| && forall i :: p <= i < q ==> t[i] == SPACE
      decreases |t| - q
    {
      q := q + 1;
    }
  }

  method EndOfWord(line: array<char>, p: nat, ghost t: string) returns (q: nat)
    requires Unread(line, t, p)
    ensures p <= q <= |t| && (forall i :: p <= i < q ==> t[i] != SPACE) && (q == |t| || t[q] == SPACE)
  {
    q := p;
    while line[q] != NUL && line[q] != SPACE
      invariant p <= q <= |t| && forall i :: p <= i < q ==> t[i] != SPACE
      decreases |t| - q
    {
      q := q + 1;
    }
  }

  /**
   Splits a line in place into at most maxArgs words; argv[i] is where word i starts, and its NUL is
   where it ends. With fewer words than the limit they are all there; at the limit, all up to the last.
   */
  method Tokenize(line: array<char>, maxArgs: nat, ghost t: string) returns (argv: seq<nat>, ghost tokens: seq<Token>)
    requires Holds(line, t)
    modifies line
    ensures |argv| == |tokens| <= maxArgs && forall i :: 0 <= i < |argv| ==> argv[i] == tokens[i].start
    ensures Split(line, t, tokens) && AreTokens(t, tokens, Reached(t, tokens, maxArgs))
  {
    hide IsCut, AreTokens, IsToken, Boundary;
    argv, tokens := [], [];
    var p := 0;
    NoTokens(t, line[..|t|]);
    while line[p] != NUL && |argv| < maxArgs
      invariant |argv| == |tokens| <= maxArgs && forall i :: 0 <= i < |argv| ==> argv[i] == tokens[i].start
      invariant Unread(line, t, p) && Split(line, t, tokens) && AreTokens(t, tokens, p)
      invariant p < |t| ==> Boundary(t, tokens, p)
      invariant tokens == [] || AreTokens(t, tokens, tokens[|tokens| - 1].end)
      decreases |t| - p
    {
      ghost var from := p;
      p := SkipSpaces(line, p, t);
      Skip(t, tokens, from, p);
      if line[p] == NUL {
        break;
      }
      argv := argv + [p];
      ghost var start, cut := p, line[..|t|];
      p := EndOfWord(line, p, t);
      ghost var k := Token(start, p);
      OneMore(t, tokens, k);
      CutMore(t, tokens, cut, k);
      tokens := tokens + [k];
      if line[p] != NUL {
        line[p] := NUL;
        assert line[..|t|] == cut[p := NUL];
        p := p + 1;
      }
    }
    NoTokens(t, t);
  }

  /** A word may start at p, and every word so far ended before. */
  ghost predicate Boundary(t: string, tokens: seq<Token>, p: nat) {
    && p <= |t| && (p == 0 || t[p - 1] == SPACE)
    && forall i :: 0 <= i < |tokens| ==> tokens[i].end < p
  }

  lemma NoTokens(t: string, now: string)
    requires now == t
    ensures AreTokens(t, [], 0) && IsCut(t, [], now) && Boundary(t, [], 0)
  {
  }

  lemma Skip(t: string, tokens: seq<Token>, p: nat, q: nat)
    requires AreTokens(t, tokens, p) && p <= q <= |t| && forall i :: p <= i < q ==> t[i] == SPACE
    requires p < |t| ==> Boundary(t, tokens, p)
    ensures AreTokens(t, tokens, q) && (q < |t| ==> Boundary(t, tokens, q))
  {
    forall k | IsToken(t, k) && k.start < q
      ensures k.start < p
    {
      assert t[k.start] != SPACE;
    }
  }

  lemma CutMore(t: string, tokens: seq<Token>, now: string, k: Token)
    requires IsCut(t, tokens, now) && k.end <= |t|
    ensures IsCut(t, tokens + [k], if k.end < |t| then now[k.end := NUL] else now)
  {
    var more, now' := tokens + [k], if k.end < |t| then now[k.end := NUL] else now;
    forall j | 0 <= j < |t| && (forall i :: 0 <= i < |more| ==> more[i].end != j)
      ensures now'[j] == t[j]
    {
      assert more[|tokens|] == k;
      assert forall i :: 0 <= i < |tokens| ==> tokens[i].end == more[i].end;
    }
  }

  /** The next word, found. */
  lemma OneMore(t: string, tokens: seq<Token>, k: Token)
    requires AreTokens(t, tokens, k.start) && Boundary(t, tokens, k.start) && k.start < k.end <= |t|
    requires (forall i :: k.start <= i < k.end ==> t[i] != SPACE) && (k.end == |t| || t[k.end] == SPACE)
    ensures var after := if k.end < |t| then k.end + 1 else k.end;
      && AreTokens(t, tokens + [k], k.end) && AreTokens(t, tokens + [k], after)
      && (after < |t| ==> Boundary(t, tokens + [k], after))
  {
    assert IsToken(t, k);
    forall m | IsToken(t, m) && k.start <= m.start < k.end + 1 && m.start < |t|
      ensures m == k
    {
    }
  }

  // ------------------------------------------------------------ putting it together again

  /** A NUL in the cut line stands for a space; every other character is as typed. */
  lemma CutChar(t: string, tokens: seq<Token>, upto: nat, now: string, j: nat)
    requires IsText(t) && AreTokens(t, tokens, upto) && IsCut(t, tokens, now) && j < |t|
    ensures t[j] == if now[j] == NUL then SPACE else now[j]
    ensures t[j] != SPACE ==> now[j] != NUL
  {
    if i :| 0 <= i < |tokens| && tokens[i].end == j {
      assert IsToken(t, tokens[i]);
    } else {
      assert now[j] == t[j];
    }
  }

  lemma EndsHere(t: string, tokens: seq<Token>, now: string, k: Token)
    requires IsCut(t, tokens, now) && k in tokens && k.end <= |t|
    ensures k.end < |t| ==> now[k.end] == NUL
  {
  }

  /**
   The loops of the write command: the text from the third word to the end of the last one is exactly
   what was typed, repeated spaces included.
   */
  method RestoreText(line: array<char>, argv: seq<nat>, ghost t: string, ghost tokens: seq<Token>, ghost upto: nat)
    returns (start: nat, len: nat)
    requires Split(line, t, tokens) && AreTokens(t, tokens, upto) && 3 <= |argv| == |tokens|
    requires forall i :: 0 <= i < |argv| ==> argv[i] == tokens[i].start
    modifies line
    ensures start == tokens[2].start && start + len == tokens[|tokens| - 1].end <= |t| < line.Length
    ensures line[start..start + len] == t[start..start + len]
    ensures line[..start] == old(line[..start]) && line[start + len..] == old(line[start + len..])
  {
    hide IsCut;
    start := argv[2];
    var end := argv[|argv| - 1];
    ghost var last := tokens[|tokens| - 1];
    ghost var was, cut := line[..], line[..|t|];
    EndsHere(t, tokens, cut, last);
    while line[end] != NUL
      invariant last.start <= end <= last.end
      decreases last.end - end
    {
      assert line[end] == was[end];
      end := end + 1;
    }
    forall j | last.start <= j < last.end
      ensures cut[j] != NUL
    {
      CutChar(t, tokens, upto, cut, j);
    }
    assert end == last.end;
    var p := start;
    while p < end
      invariant start <= p <= end
      invariant forall j :: start <= j < p ==> line[j] == t[j]
      invariant forall j :: 0 <= j < line.Length && !(start <= j < p) ==> line[j] == was[j]
    {
      CutChar(t, tokens, upto, cut, p);
      assert line[p] == cut[p];
      if line[p] == NUL {
        line[p] := SPACE;
      }
      p := p + 1;
    }
    len := end - start;
  }
}
