/**
 One line of `tree -afFQ` output, such as
   `│   ├── "/Users/timmo/src/git/dm-utils/bin/altbag"*`
 is split by the pattern `^(?P<prefix>.*)?"(?P<filepath>.*)"(?P<suffix>[^"]*)$`
 into the tree-drawing prefix, the quoted path and the trailing type
 indicator. This module states that split without regular expressions.
 */
module RowPattern {
  import opened Text

  const Quote: char := '"'
  const Newline: char := '\n'

  /** The three named groups of a successful match. */
  datatype Row = Row(prefix: string, filepath: string, suffix: string)

  /** The line a match was taken from: prefix, quoted path, suffix. */
  function Reassemble(r: Row): string
  {
    r.prefix + [Quote] + r.filepath + [Quote] + r.suffix
  }

  /**
   `r` is one way the pattern can match the whole of `line`: `.` matches any
   character but a newline, `[^"]` any character but a double quote, and the
   match is anchored at both ends.
   */
  predicate IsMatch(line: string, r: Row)
  {
    && line == Reassemble(r)
    && Newline !in r.prefix
    && Newline !in r.filepath
    && Quote !in r.suffix
  }

  /**
   The match the pattern returns, or None when it does not match. The
   closing quote is the last `"` of the line (the suffix holds none); the
   prefix is greedy, so the opening quote is the last `"` before it.
   */
  function Split(line: string): Option<Row>
  {
    match LastIndexBefore(line, Quote, |line|)
    case None => None
    case Some(close) =>
      match LastIndexBefore(line, Quote, close)
      case None => None
      case Some(open) =>
        if Newline in line[..close] then None
        else Some(Row(line[..open], line[open + 1..close], line[close + 1..]))
  }

  /**
   What Split returns is a match of the pattern: the line is its prefix, the
   quoted path and its suffix; neither prefix nor path holds a newline;
   neither path nor suffix holds a `"`.
   */
  lemma SplitIsMatch(line: string)
    ensures Split(line).Some? ==> IsMatch(line, Split(line).value)
    ensures Split(line).Some? ==> Quote !in Split(line).value.filepath
  {
    if Split(line).Some? {
      var close := LastIndexBefore(line, Quote, |line|).value;
      var open := LastIndexBefore(line, Quote, close).value;
      var r := Split(line).value;
      assert line[..close] == r.prefix + [Quote] + r.filepath;
      assert line == line[..close] + [Quote] + r.suffix;
    }
  }

  /** Split's result, given where its two quotes are found. */
  lemma SplitAt(line: string, close: nat, open: nat)
    requires close <= |line| && LastIndexBefore(line, Quote, |line|) == Some(close)
    requires LastIndexBefore(line, Quote, close) == Some(open)
    requires Newline !in line[..close]
    ensures open < close
    ensures Split(line) == Some(Row(line[..open], line[open + 1..close], line[close + 1..]))
  {
  }

  /** Where the pieces of a matching decomposition sit in the line. */
  lemma MatchPieces(line: string, r: Row)
    requires IsMatch(line, r)
    ensures |r.prefix| + 1 + |r.filepath| < |line|
    ensures line[|r.prefix|] == Quote && line[|r.prefix| + 1 + |r.filepath|] == Quote
    ensures line[..|r.prefix|] == r.prefix
    ensures line[|r.prefix| + 1..|r.prefix| + 1 + |r.filepath|] == r.filepath
    ensures line[|r.prefix| + 1 + |r.filepath| + 1..] == r.suffix
    ensures line[..|r.prefix| + 1 + |r.filepath|] == r.prefix + [Quote] + r.filepath
  {
    var q := |r.prefix| + 1 + |r.filepath|;
    var head := r.prefix + [Quote] + r.filepath;
    assert line == head + [Quote] + r.suffix;
    assert line[..q] == head;
    assert head[..|r.prefix|] == r.prefix && head[|r.prefix| + 1..] == r.filepath;
  }

  /**
   In any matching decomposition the closing quote is the last `"` of the
   line, and the last `"` before it is at or after the opening quote.
   */
  lemma MatchQuotes(line: string, r: Row)
    requires IsMatch(line, r)
    ensures |r.prefix| + 1 + |r.filepath| < |line|
    ensures LastIndexBefore(line, Quote, |line|) == Some(|r.prefix| + 1 + |r.filepath|)
    ensures LastIndexBefore(line, Quote, |r.prefix| + 1 + |r.filepath|).Some?
    ensures LastIndexBefore(line, Quote, |r.prefix| + 1 + |r.filepath|).value >= |r.prefix|
    ensures Newline !in line[..|r.prefix| + 1 + |r.filepath|]
  {
    MatchPieces(line, r);
    var q := |r.prefix| + 1 + |r.filepath|;
    assert forall j :: q < j < |line| ==> line[j] == r.suffix[j - q - 1];
    LastIndexBeforeUnique(line, Quote, |line|, q);
  }

  /**
   Any matching decomposition opens no later than Split's opening quote, and
   coincides with Split's result when it opens at the same place.
   */
  lemma MatchWithinSplit(line: string, r: Row)
    requires IsMatch(line, r)
    ensures Split(line).Some?
    ensures r == Split(line).value || |r.prefix| < |Split(line).value.prefix|
  {
    MatchPieces(line, r);
    MatchQuotes(line, r);
    var q := |r.prefix| + 1 + |r.filepath|;
    SplitAt(line, q, LastIndexBefore(line, Quote, q).value);
  }

  /**
   Split agrees with the pattern's semantics: it fails exactly when no
   decomposition of the line matches, and otherwise returns the matching
   decomposition with the longest prefix (the one backtracking finds first);
   every other decomposition has a strictly shorter prefix.
   */
  lemma SplitIsGreedyMatch(line: string)
    ensures Split(line).None? <==> forall r :: !IsMatch(line, r)
    ensures Split(line).Some? ==>
      forall r :: IsMatch(line, r) ==> r == Split(line).value || |r.prefix| < |Split(line).value.prefix|
  {
    SplitIsMatch(line);
    forall r | IsMatch(line, r)
      ensures Split(line).Some?
      ensures r == Split(line).value || |r.prefix| < |Split(line).value.prefix|
    {
      MatchWithinSplit(line, r);
    }
  }

  /**
   A listing line holds no newline (it comes from splitting the output into
   lines), and such a line matches exactly when it has at least two `"`.
   */
  lemma {:induction false} SplitNeedsTwoQuotes(line: string)
    requires Newline !in line
    ensures Split(line).Some? <==> Count(line, Quote) >= 2
  {
    match Split(line)
    case Some(r) =>
      SplitIsMatch(line);
      CountAppend(r.prefix + [Quote] + r.filepath + [Quote], r.suffix, Quote);
      CountAppend(r.prefix + [Quote] + r.filepath, [Quote], Quote);
      CountAppend(r.prefix + [Quote], r.filepath, Quote);
      CountAppend(r.prefix, [Quote], Quote);
    case None =>
      match LastIndexBefore(line, Quote, |line|)
      case None =>
        CountAbsent(line, Quote);
      case Some(close) =>
        assert line == line[..close] + [Quote] + line[close + 1..];
        CountAppend(line[..close] + [Quote], line[close + 1..], Quote);
        CountAppend(line[..close], [Quote], Quote);
        CountAbsent(line[close + 1..], Quote);
        assert Newline !in line[..close];
        CountAbsent(line[..close], Quote);
  }
}
