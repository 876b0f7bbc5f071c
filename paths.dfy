/**
 * Request paths: the record id is the last piece of the path split at
 * slashes (`path.split('/')[-1]`).
 */
module Paths {
  import opened Strings

  const Slash: char := '/'

  /** The id in `/students/{id}`: the last piece of the split path. */
  function PathId(path: string): string {
    var segments := SplitOn(path, Slash);
    segments[|segments| - 1]
  }

  /** The id is the text after the final slash: a slash-free suffix of the path, preceded by a slash unless it is the whole path. */
  lemma {:induction false} PathIdIsFinalSegment(path: string)
    ensures |PathId(path)| <= |path|
    ensures path[|path| - |PathId(path)|..] == PathId(path)
    ensures Slash !in PathId(path)
    ensures |PathId(path)| < |path| ==> path[|path| - |PathId(path)| - 1] == Slash
  {
    if path != [] {
      var prefix := path[..|path| - 1];
      PathIdIsFinalSegment(prefix);
      var id := PathId(prefix);
      if path[|path| - 1] != Slash {
        assert PathId(path) == id + [path[|path| - 1]];
        assert path[|path| - |PathId(path)|..] == prefix[|prefix| - |id|..] + [path[|path| - 1]];
      }
    }
  }

  /** Whatever precedes the final slash, the id is what follows it: `/students/a/b` gives `b`, `/students/` gives the empty string. */
  lemma PathIdAfterSlash(prefix: string, id: string)
    requires Slash !in id
    ensures PathId(prefix + [Slash] + id) == id
  {
    SplitAfterSeparator(prefix, Slash, id);
  }
}
