/**
 `get_depth`: the depth of a listed path is the number of path separators in
 it minus a baseline, which the program fixes to the separator count of the
 base directory line.
 */
module Depth {
  import opened Text

  /** Separators in `path` minus `start`; not clamped at zero. */
  function DepthOf(path: string, sep: char, start: int): int
  {
    Count(path, sep) - start
  }

  /** Depth is the multiplicity of the separator in the path, less the baseline. */
  lemma DepthCountsSeparators(path: string, sep: char, start: int)
    ensures DepthOf(path, sep, start) == multiset(path)[sep] - start
  {
    CountIsMultiplicity(path, sep);
  }

  /** A path with as many separators as the base directory line has depth 0. */
  lemma DepthOfBaseline(path: string, basedir: string, sep: char)
    requires Count(path, sep) == Count(basedir, sep)
    ensures DepthOf(path, sep, Count(basedir, sep)) == 0
  {
  }

  /** Appending one separator and a separator-free name goes one level deeper. */
  lemma DepthOfChild(path: string, name: string, sep: char, start: int)
    requires sep !in name
    ensures DepthOf(path + [sep] + name, sep, start) == DepthOf(path, sep, start) + 1
  {
    CountAppend(path + [sep], name, sep);
    CountAppend(path, [sep], sep);
    CountAbsent(name, sep);
  }

  /** Depth is negative exactly for paths with fewer separators than the baseline. */
  lemma DepthIsNotClamped(path: string, sep: char, start: int)
    ensures DepthOf(path, sep, start) < 0 <==> Count(path, sep) < start
  {
  }

  /** The parent of the base directory is listed one level above it, at depth -1. */
  lemma DepthAboveBase(parent: string, name: string, sep: char)
    requires sep !in name
    ensures DepthOf(parent, sep, Count(parent + [sep] + name, sep)) == -1
  {
    DepthOfChild(parent, name, sep, 0);
  }
}
