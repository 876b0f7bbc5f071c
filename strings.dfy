/**
 * Python's `str.split(sep)` and `sep.join(pieces)` for a one-character
 * separator, and the two ways they undo each other.
 */
module Strings {

  /** `s.split(sep)`: the pieces of `s` between separators, always at least one. */
  function SplitOn(s: string, sep: char): (pieces: seq<string>)
    ensures |pieces| >= 1
  {
    if s == [] then [""]
    else
      var init := SplitOn(s[..|s| - 1], sep);
      var c := s[|s| - 1];
      if c == sep then init + [""]
      else init[..|init| - 1] + [init[|init| - 1] + [c]]
  }

  /** `sep.join(pieces)`. */
  function JoinOn(pieces: seq<string>, sep: char): string
    requires |pieces| >= 1
  {
    if |pieces| == 1 then pieces[0]
    else JoinOn(pieces[..|pieces| - 1], sep) + [sep] + pieces[|pieces| - 1]
  }

  /** Joining one more piece appends a separator and the piece. */
  lemma JoinSnoc(pieces: seq<string>, sep: char, last: string)
    requires |pieces| >= 1
    ensures JoinOn(pieces + [last], sep) == JoinOn(pieces, sep) + [sep] + last
  {
  }

  /** No piece holds the separator. */
  predicate Separates(pieces: seq<string>, sep: char) {
    forall i :: 0 <= i < |pieces| ==> sep !in pieces[i]
  }

  /** Splitting and joining again gives back the text. */
  lemma {:induction false} JoinSplit(s: string, sep: char)
    ensures JoinOn(SplitOn(s, sep), sep) == s
  {
    if s != [] {
      var prefix, c := s[..|s| - 1], s[|s| - 1];
      assert s == prefix + [c];
      var init := SplitOn(prefix, sep);
      JoinSplit(prefix, sep);
      if c == sep {
        JoinAppendEmpty(init, sep);
      } else {
        JoinExtendLast(init, sep, c);
      }
    }
  }

  /** Adding an empty piece adds a trailing separator. */
  lemma JoinAppendEmpty(pieces: seq<string>, sep: char)
    requires |pieces| >= 1
    ensures JoinOn(pieces + [""], sep) == JoinOn(pieces, sep) + [sep]
  {
  }

  /** Extending the last piece by a character extends the joined text by it. */
  lemma JoinExtendLast(pieces: seq<string>, sep: char, c: char)
    requires |pieces| >= 1
    ensures var n := |pieces|;
      JoinOn(pieces[..n - 1] + [pieces[n - 1] + [c]], sep) == JoinOn(pieces, sep) + [c]
  {
  }

  /** No piece of a split holds the separator. */
  lemma {:induction false} SplitSeparates(s: string, sep: char)
    ensures Separates(SplitOn(s, sep), sep)
  {
    if s != [] {
      SplitSeparates(s[..|s| - 1], sep);
    }
  }

  /** Text ending in a separator-free tail splits into the pieces before it and that tail. */
  lemma {:induction false} SplitAfterSeparator(prefix: string, sep: char, tail: string)
    requires sep !in tail
    ensures SplitOn(prefix + [sep] + tail, sep) == SplitOn(prefix, sep) + [tail]
  {
    var s := prefix + [sep] + tail;
    if tail == [] {
      assert s[..|s| - 1] == prefix;
    } else {
      var shorter := tail[..|tail| - 1];
      var c := tail[|tail| - 1];
      SplitAfterSeparator(prefix, sep, shorter);
      assert s[..|s| - 1] == prefix + [sep] + shorter;
      assert tail == shorter + [c];
      var init := SplitOn(prefix, sep) + [shorter];
      assert init[..|init| - 1] == SplitOn(prefix, sep);
    }
  }

  /** Text without a separator is one piece. */
  lemma {:induction false} SplitWhole(s: string, sep: char)
    requires sep !in s
    ensures SplitOn(s, sep) == [s]
  {
    if s != [] {
      var prefix := s[..|s| - 1];
      SplitWhole(prefix, sep);
      assert s == prefix + [s[|s| - 1]];
    }
  }

  /** Joining separator-free pieces and splitting again gives back the pieces. */
  lemma {:induction false} SplitJoin(pieces: seq<string>, sep: char)
    requires |pieces| >= 1
    requires Separates(pieces, sep)
    ensures SplitOn(JoinOn(pieces, sep), sep) == pieces
  {
    var n := |pieces|;
    if n == 1 {
      SplitWhole(pieces[0], sep);
    } else {
      var front := pieces[..n - 1];
      SplitJoin(front, sep);
      SplitAfterSeparator(JoinOn(front, sep), sep, pieces[n - 1]);
      assert front + [pieces[n - 1]] == pieces;
    }
  }
}
