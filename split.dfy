/** `str::split('.')`: the pieces of a text between its `.` characters, and
    the iterator over them that the decoders consume piece by piece. */
module StrSplit {
  import opened Wrappers

  const Dot: char := '.'

  predicate NoDot(s: string) {
    forall i :: 0 <= i < |s| ==> s[i] != Dot
  }

  /** The pieces, in order: always at least one, empty pieces kept, so ""
      gives [""] and "a." gives ["a", ""]. */
  function Split(s: string): (parts: seq<string>)
    ensures |parts| >= 1
    ensures forall k :: 0 <= k < |parts| ==> NoDot(parts[k])
    decreases |s|
  {
    if s == [] then [""]
    else
      var rest := Split(s[1..]);
      if s[0] == Dot then [""] + rest else [[s[0]] + rest[0]] + rest[1..]
  }

  /** The pieces glued back together with a `.` between neighbours. */
  function Join(parts: seq<string>): (s: string)
    requires |parts| >= 1
    decreases |parts|
  {
    if |parts| == 1 then parts[0] else parts[0] + [Dot] + Join(parts[1..])
  }

  /** Splitting loses nothing: joining the pieces gives the text back. */
  lemma {:induction false} JoinSplit(s: string)
    ensures Join(Split(s)) == s
    decreases |s|
  {
    if s != [] {
      var rest := Split(s[1..]);
      JoinSplit(s[1..]);
      if s[0] != Dot {
        var parts := Split(s);
        if |rest| == 1 {
          assert parts == [[s[0]] + rest[0]];
        } else {
          assert parts[1..] == rest[1..];
          assert Join(rest) == rest[0] + [Dot] + Join(rest[1..]);
        }
      } else {
        assert Split(s)[1..] == rest;
      }
    }
  }

  /** Splitting a text made by gluing dot-free pieces gives those pieces. */
  lemma {:induction false} SplitJoin(parts: seq<string>)
    requires |parts| >= 1 && forall k :: 0 <= k < |parts| ==> NoDot(parts[k])
    ensures Split(Join(parts)) == parts
    decreases |parts|
  {
    if |parts| == 1 {
      SplitNoDot(parts[0]);
    } else {
      SplitJoin(parts[1..]);
      SplitAfterPiece(parts[0], Join(parts[1..]));
      assert parts == [parts[0]] + parts[1..];
    }
  }

  /** A dot-free text is a single piece. */
  lemma {:induction false} SplitNoDot(s: string)
    requires NoDot(s)
    ensures Split(s) == [s]
    decreases |s|
  {
    if s != [] {
      SplitNoDot(s[1..]);
      assert s == [s[0]] + s[1..];
    }
  }

  /** A dot-free piece followed by a dot becomes the first piece. */
  lemma {:induction false} SplitAfterPiece(a: string, rest: string)
    requires NoDot(a)
    ensures Split(a + [Dot] + rest) == [a] + Split(rest)
    decreases |a|
  {
    var s := a + [Dot] + rest;
    if a == [] {
      assert s[1..] == rest;
    } else {
      assert s[1..] == a[1..] + [Dot] + rest;
      SplitAfterPiece(a[1..], rest);
      assert [a[0]] + a[1..] == a;
    }
  }

  /** Two dot-free pieces around one dot split back into those two. */
  lemma SplitTwo(a: string, b: string)
    requires NoDot(a) && NoDot(b)
    ensures Split(a + [Dot] + b) == [a, b]
  {
    SplitAfterPiece(a, b);
    SplitNoDot(b);
  }

  /** The number of `.` characters in `s`. */
  function DotCount(s: string): nat
    decreases |s|
  {
    if s == [] then 0 else (if s[0] == Dot then 1 else 0) + DotCount(s[1..])
  }

  /** There is one more piece than there are dots. */
  lemma {:induction false} SplitCount(s: string)
    ensures |Split(s)| == DotCount(s) + 1
    decreases |s|
  {
    if s != [] {
      SplitCount(s[1..]);
    }
  }

  /** The first piece is empty exactly when the text is empty or starts
      with a dot. */
  lemma FirstPieceEmpty(s: string)
    ensures Split(s)[0] == "" <==> s == "" || s[0] == Dot
  {
    if s != [] && s[0] != Dot {
      assert |Split(s)[0]| >= 1;
    }
  }

  /** The first piece is exactly `v` (a one-character dot-free text) when the
      text is `v` alone or starts with `v` and a dot. */
  lemma FirstPieceIs(s: string, c: char)
    requires c != Dot
    ensures Split(s)[0] == [c] <==> s == [c] || (|s| >= 2 && s[0] == c && s[1] == Dot)
  {
    if s != [] && s[0] != Dot {
      FirstPieceEmpty(s[1..]);
      assert Split(s)[0] == [s[0]] + Split(s[1..])[0];
    }
  }

  /** The iterator `str::split` returns: the pieces of one text and the
      position of the next one to hand out. */
  class SplitIter {
    const pieces: seq<string>
    var pos: nat

    ghost predicate Valid()
      reads this
    {
      pos <= |pieces|
    }

    constructor (s: string)
      ensures Valid() && pieces == Split(s) && pos == 0
    {
      pieces := Split(s);
      pos := 0;
    }

    /** `Iterator::next`: the next piece, or None once all are handed out. */
    method Next() returns (piece: Option<string>)
      requires Valid()
      modifies this
      ensures Valid()
      ensures old(pos) < |pieces| ==> piece == Some(pieces[old(pos)]) && pos == old(pos) + 1
      ensures old(pos) == |pieces| ==> piece == None && pos == old(pos)
    {
      if pos < |pieces| {
        piece := Some(pieces[pos]);
        pos := pos + 1;
      } else {
        piece := None;
      }
    }

    /** `Iterator::collect`: every piece not yet handed out, in order. */
    method Collect() returns (rest: seq<string>)
      requires Valid()
      modifies this
      ensures Valid()
      ensures rest == pieces[old(pos)..] && pos == |pieces|
    {
      rest := [];
      while pos < |pieces|
        invariant old(pos) <= pos <= |pieces|
        invariant rest == pieces[old(pos)..pos]
      {
        rest := rest + [pieces[pos]];
        pos := pos + 1;
      }
    }
  }
}
