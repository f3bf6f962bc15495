/** Dot-separated code paths: the separator, splitting a path into its pieces
    (Go's strings.Split with "." as the separator) and joining pieces back. */
module DotPath {

  /** The hierarchy separator of code strings. */
  const Sep: char := '.'

  /** The pieces of `s` between separators, left to right. Like strings.Split,
      it keeps empty pieces ("a..b" has three) and never returns an empty list. */
  function Split(s: string): (r: seq<string>)
    ensures |r| >= 1
    decreases |s|
  {
    if |s| == 0 then [""]
    else
      var rest := Split(s[1..]);
      if s[0] == Sep then [""] + rest
      else [[s[0]] + rest[0]] + rest[1..]
  }

  /** The pieces are separator-free, and there is more than one exactly when
      `s` contains the separator; a separator-free string is its own one piece. */
  lemma {:induction false} SplitPieces(s: string)
    ensures forall i :: 0 <= i < |Split(s)| ==> Sep !in Split(s)[i]
    ensures |Split(s)| == 1 <==> Sep !in s
    ensures Sep !in s ==> Split(s) == [s]
    decreases |s|
  {
    if |s| > 0 {
      SplitPieces(s[1..]);
      assert s == [s[0]] + s[1..];
      var rest := Split(s[1..]);
      if s[0] != Sep {
        var r := Split(s);
        assert r[0] == [s[0]] + rest[0];
        assert forall i :: 1 <= i < |r| ==> r[i] == rest[i];
      }
    }
  }

  /** The pieces joined again with the separator between consecutive pieces. */
  function Join(pieces: seq<string>): string
    requires |pieces| >= 1
  {
    if |pieces| == 1 then pieces[0] else pieces[0] + [Sep] + Join(pieces[1..])
  }

  /** The last piece of a path: what Child keeps as the local segment. */
  function LastSegment(s: string): (r: string)
    ensures Sep !in r
    ensures Sep !in s ==> r == s
  {
    SplitPieces(s);
    var pieces := Split(s);
    pieces[|pieces| - 1]
  }

  /** The second-to-last piece of a qualified path: the segment Child compares
      with the parent's local segment. */
  function ParentSegment(s: string): (r: string)
    requires Sep in s
    ensures Sep !in r
  {
    SplitPieces(s);
    var pieces := Split(s);
    pieces[|pieces| - 2]
  }

  /** Splitting at one separator splits the two sides independently. */
  lemma {:induction false} SplitConcat(x: string, y: string)
    ensures Split(x + [Sep] + y) == Split(x) + Split(y)
    decreases |x|
  {
    if |x| == 0 {
      var s := x + [Sep] + y;
      assert s[1..] == y;
      assert s[0] == Sep;
    } else {
      SplitConcat(x[1..], y);
      SplitConcatStep(x, y);
    }
  }

  /** The inductive step of SplitConcat: the first character of `x` joins
      the first piece, or starts a new one when it is the separator. */
  lemma SplitConcatStep(x: string, y: string)
    requires |x| > 0
    requires Split(x[1..] + [Sep] + y) == Split(x[1..]) + Split(y)
    ensures Split(x + [Sep] + y) == Split(x) + Split(y)
  {
    var t := x[1..] + [Sep] + y;
    assert x + [Sep] + y == [x[0]] + t;
    assert x == [x[0]] + x[1..];
    SplitCons(x[0], t);
    SplitCons(x[0], x[1..]);
    ConsConcat(x[0], Split(x[1..]), Split(y));
  }

  /** Prepending a character to the first of two lists of pieces, or a new
      empty piece for the separator, commutes with concatenating them. */
  lemma ConsConcat(c: char, rx: seq<string>, ry: seq<string>)
    requires |rx| >= 1
    ensures (if c == Sep then [""] + (rx + ry) else [[c] + (rx + ry)[0]] + (rx + ry)[1..])
         == (if c == Sep then [""] + rx else [[c] + rx[0]] + rx[1..]) + ry
  {
  }

  /** Split of a string with a known first character, one step unfolded. */
  lemma SplitCons(c: char, t: string)
    ensures Split([c] + t) ==
      if c == Sep then [""] + Split(t) else [[c] + Split(t)[0]] + Split(t)[1..]
  {
  }

  /** Joining the pieces of a path gives the path back. */
  lemma {:induction false} JoinSplit(s: string)
    ensures Join(Split(s)) == s
    decreases |s|
  {
    if |s| > 0 {
      JoinSplit(s[1..]);
      var rest := Split(s[1..]);
      assert s == [s[0]] + s[1..];
      if s[0] == Sep {
        assert ([""] + rest)[1..] == rest;
      } else {
        var r := [[s[0]] + rest[0]] + rest[1..];
        assert r[1..] == rest[1..];
        if |rest| > 1 {
          assert Join(rest) == rest[0] + [Sep] + Join(rest[1..]);
        }
      }
    }
  }

  /** Splitting the join of separator-free pieces gives the pieces back. */
  lemma {:induction false} SplitJoin(pieces: seq<string>)
    requires |pieces| >= 1
    requires forall i :: 0 <= i < |pieces| ==> Sep !in pieces[i]
    ensures Split(Join(pieces)) == pieces
  {
    SplitPieces(pieces[0]);
    if |pieces| > 1 {
      SplitJoin(pieces[1..]);
      SplitConcat(pieces[0], Join(pieces[1..]));
      assert pieces == [pieces[0]] + pieces[1..];
    }
  }

  /** A path qualified by one more piece: its last and second-to-last pieces. */
  lemma QualifiedSegments(a: string, u: string)
    requires Sep !in a && Sep !in u
    ensures Sep in a + [Sep] + u
    ensures ParentSegment(a + [Sep] + u) == a
    ensures LastSegment(a + [Sep] + u) == u
  {
    SplitConcat(a, u);
    SplitPieces(a);
    SplitPieces(u);
    assert (a + [Sep] + u)[|a|] == Sep;
  }
}
