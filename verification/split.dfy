/**
 JavaScript's `String.prototype.split` with a one-character separator, its
 inverse `Array.prototype.join`, and the last piece that `Array.prototype.pop`
 returns. `split` never returns an empty array: the empty string splits into
 one empty piece, and a separator at either end yields an empty piece there.
 */
module StringSplit {

  /** The pieces of `s` between occurrences of `sep`, left to right. */
  function Split(s: string, sep: char): (pieces: seq<string>)
    ensures |pieces| >= 1
    ensures forall i :: 0 <= i < |pieces| ==> sep !in pieces[i]
    ensures sep !in s ==> pieces == [s]
    ensures sep in s ==> |pieces| >= 2
    decreases |s|
  {
    if |s| == 0 then [""]
    else
      var rest := Split(s[1..], sep);
      if s[0] == sep then [""] + rest
      else
        assert s == [s[0]] + s[1..];
        [[s[0]] + rest[0]] + rest[1..]
  }

  /** The pieces glued back together with `sep` between neighbours. */
  function Join(pieces: seq<string>, sep: char): string
    requires |pieces| >= 1
  {
    if |pieces| == 1 then pieces[0]
    else pieces[0] + [sep] + Join(pieces[1..], sep)
  }

  /** The piece after the last `sep`, the value `s.split(sep).pop()` yields. */
  function LastPiece(s: string, sep: char): (p: string)
    ensures sep !in p
    ensures sep !in s ==> p == s
    ensures sep in s ==> |p| < |s|
  {
    var pieces := Split(s, sep);
    JoinLastPieceShorter(pieces, sep);
    JoinSplit(s, sep);
    pieces[|pieces| - 1]
  }

  /** A join of several pieces is longer than its last piece. */
  lemma {:induction false} JoinLastPieceShorter(pieces: seq<string>, sep: char)
    requires |pieces| >= 1
    ensures |pieces| >= 2 ==> |pieces[|pieces| - 1]| < |Join(pieces, sep)|
    decreases |pieces|
  {
    if |pieces| > 2 {
      JoinLastPieceShorter(pieces[1..], sep);
    }
  }

  /** True when `t` is the longest suffix of `s` that holds no `sep`. */
  predicate IsLastPiece(s: string, sep: char, t: string) {
    && |t| <= |s|
    && s[|s| - |t|..] == t
    && sep !in t
    && (|t| < |s| ==> s[|s| - |t| - 1] == sep)
  }

  /** Joining the pieces of a split gives back the original string. */
  lemma {:induction false} JoinSplit(s: string, sep: char)
    ensures Join(Split(s, sep), sep) == s
    decreases |s|
  {
    if |s| > 0 {
      var rest := Split(s[1..], sep);
      JoinSplit(s[1..], sep);
      assert Join(rest, sep) == s[1..];
      if s[0] == sep {
        JoinConsEmpty(rest, sep);
      } else {
        JoinConsChar(s[0], rest, sep);
      }
      assert [s[0]] + s[1..] == s;
    }
  }

  /** Joining after an empty first piece puts one separator in front. */
  lemma JoinConsEmpty(rest: seq<string>, sep: char)
    requires |rest| >= 1
    ensures Join([""] + rest, sep) == [sep] + Join(rest, sep)
  {
    assert ([""] + rest)[1..] == rest;
  }

  /** Joining after prefixing the first piece with `c` prefixes the whole join with `c`. */
  lemma JoinConsChar(c: char, rest: seq<string>, sep: char)
    requires |rest| >= 1
    ensures Join([[c] + rest[0]] + rest[1..], sep) == [c] + Join(rest, sep)
  {
    var pieces := [[c] + rest[0]] + rest[1..];
    if |rest| > 1 {
      assert pieces[1..] == rest[1..];
    }
  }

  /** Splitting `a`, a separator and `b`, where `a` holds no separator, gives `a` then the pieces of `b`. */
  lemma {:induction false} SplitAfterPiece(a: string, sep: char, b: string)
    requires sep !in a
    ensures Split(a + [sep] + b, sep) == [a] + Split(b, sep)
    decreases |a|
  {
    var s := a + [sep] + b;
    if |a| == 0 {
      assert s[0] == sep && s[1..] == b;
    } else {
      assert s[0] == a[0] && s[1..] == a[1..] + [sep] + b;
      SplitAfterPiece(a[1..], sep, b);
      assert [a[0]] + a[1..] == a;
    }
  }

  /** Splitting a join of separator-free pieces gives back the pieces. */
  lemma {:induction false} SplitJoin(pieces: seq<string>, sep: char)
    requires |pieces| >= 1
    requires forall i :: 0 <= i < |pieces| ==> sep !in pieces[i]
    ensures Split(Join(pieces, sep), sep) == pieces
    decreases |pieces|
  {
    if |pieces| > 1 {
      SplitJoin(pieces[1..], sep);
      SplitAfterPiece(pieces[0], sep, Join(pieces[1..], sep));
      assert [pieces[0]] + pieces[1..] == pieces;
    }
  }

  /** The last piece is the longest separator-free suffix of the string. */
  lemma {:induction false} LastPieceIsSuffix(s: string, sep: char)
    ensures IsLastPiece(s, sep, LastPiece(s, sep))
    decreases |s|
  {
    if |s| > 0 {
      var rest := Split(s[1..], sep);
      LastPieceIsSuffix(s[1..], sep);
      var p := LastPiece(s[1..], sep);
      if s[0] == sep {
        assert Split(s, sep) == [""] + rest;
        assert LastPiece(s, sep) == p;
        assert s[|s| - |p|..] == s[1..][|s[1..]| - |p|..];
      } else if |rest| == 1 {
        assert sep !in s;
        assert LastPiece(s, sep) == s;
      } else {
        assert Split(s, sep) == [[s[0]] + rest[0]] + rest[1..];
        assert LastPiece(s, sep) == p;
        assert sep in s[1..];
        assert |p| < |s[1..]|;
        assert s[|s| - |p|..] == s[1..][|s[1..]| - |p|..];
        assert s[|s| - |p| - 1] == s[1..][|s[1..]| - |p| - 1];
      }
    }
  }

  /** There is only one longest separator-free suffix, so it pins down the last piece. */
  lemma LastPieceUnique(s: string, sep: char, t: string)
    requires IsLastPiece(s, sep, t)
    ensures LastPiece(s, sep) == t
  {
    var p := LastPiece(s, sep);
    LastPieceIsSuffix(s, sep);
  }
}
