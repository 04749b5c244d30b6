/**
 The body of `main`: the first line of the listing is popped off as the base
 directory, its separator count becomes the depth baseline, and every
 remaining line is numbered from 1, split by the row pattern and reported as
 (number, depth, type indicator, line).
 */
module Supertree {
  import opened Text
  import opened RowPattern
  import opened Depth

  /** One reported line: the tuple `main` prints. */
  datatype Record = Record(index: nat, depth: int, filetype: string, row: string)

  /** Why a run stops early. */
  datatype Failure =
    | EmptyListing                      // `out.pop(0)` on an empty listing
    | Unmatched(index: nat, row: string) // the row pattern did not match line `index`

  /** The records reported, in order, and the failure that ended the run, if any. */
  datatype Report = Report(emitted: seq<Record>, failure: Option<Failure>)

  /** `rec` is what `main` reports for `row` against the baseline `start`. */
  predicate Describes(rec: Record, row: string, sep: char, start: int)
  {
    && Split(row).Some?
    && rec.row == row
    && rec.filetype == Split(row).value.suffix
    && rec.depth == DepthOf(Split(row).value.filepath, sep, start)
  }

  /** The loop over `rows`, numbering from `i`, one row at a time. */
  function Emit(rows: seq<string>, i: nat, sep: char, start: int): Report
    decreases |rows|
  {
    if rows == [] then Report([], None)
    else
      match Split(rows[0])
      case None => Report([], Some(Unmatched(i, rows[0])))
      case Some(m) =>
        var rest := Emit(rows[1..], i + 1, sep, start);
        Report([Record(i, DepthOf(m.filepath, sep, start), m.suffix, rows[0])] + rest.emitted, rest.failure)
  }

  /** What `main` reports for the listing `out`, with path separator `sep`. */
  function Supertree(out: seq<string>, sep: char): Report
  {
    if out == [] then Report([], Some(EmptyListing))
    else Emit(out[1..], 1, sep, Count(out[0], sep))
  }

  /** Record `k` of the run is numbered `i + k` and describes row `k`. */
  lemma {:induction false} EmitAt(rows: seq<string>, i: nat, sep: char, start: int, k: nat)
    requires k < |Emit(rows, i, sep, start).emitted|
    ensures k < |rows|
    ensures Emit(rows, i, sep, start).emitted[k].index == i + k
    ensures Describes(Emit(rows, i, sep, start).emitted[k], rows[k], sep, start)
    decreases k
  {
    var rest := Emit(rows[1..], i + 1, sep, start);
    if k > 0 {
      EmitAt(rows[1..], i + 1, sep, start, k - 1);
      assert Emit(rows, i, sep, start).emitted[k] == rest.emitted[k - 1];
      assert rows[k] == rows[1..][k - 1];
    }
  }

  /**
   The rows are numbered consecutively from `i` in input order, and each
   reported record describes its row.
   */
  lemma {:induction false} EmitNumbering(rows: seq<string>, i: nat, sep: char, start: int)
    ensures |Emit(rows, i, sep, start).emitted| <= |rows|
    ensures forall k :: 0 <= k < |Emit(rows, i, sep, start).emitted| ==>
      Emit(rows, i, sep, start).emitted[k].index == i + k &&
      Describes(Emit(rows, i, sep, start).emitted[k], rows[k], sep, start)
  {
    var r := Emit(rows, i, sep, start);
    if |r.emitted| > 0 {
      EmitAt(rows, i, sep, start, |r.emitted| - 1);
    }
    forall k | 0 <= k < |r.emitted|
      ensures r.emitted[k].index == i + k && Describes(r.emitted[k], rows[k], sep, start)
    {
      EmitAt(rows, i, sep, start, k);
    }
  }

  /**
   A run that completes reports every row; a run that fails does so at the
   row just after the last one reported, which the pattern does not match.
   */
  lemma {:induction false} EmitEnd(rows: seq<string>, i: nat, sep: char, start: int)
    ensures Emit(rows, i, sep, start).failure.None? ==> |Emit(rows, i, sep, start).emitted| == |rows|
    ensures Emit(rows, i, sep, start).failure.Some? ==>
      var n := |Emit(rows, i, sep, start).emitted|;
      n < |rows| && Split(rows[n]).None? &&
      Emit(rows, i, sep, start).failure.value == Unmatched(i + n, rows[n])
    decreases |rows|
  {
    if rows != [] && Split(rows[0]).Some? {
      var r := Emit(rows, i, sep, start);
      var rest := Emit(rows[1..], i + 1, sep, start);
      EmitEnd(rows[1..], i + 1, sep, start);
      assert |r.emitted| == 1 + |rest.emitted| && r.failure == rest.failure;
      var n := |rest.emitted|;
      if rest.failure.Some? {
        assert rows[n + 1] == rows[1..][n];
      }
    }
  }

  /**
   The run stops at the first row the pattern does not match, reporting its
   number, and completes, reporting every row, exactly when every row matches.
   */
  lemma {:induction false} EmitStops(rows: seq<string>, i: nat, sep: char, start: int)
    ensures Emit(rows, i, sep, start).failure.None? <==> forall k :: 0 <= k < |rows| ==> Split(rows[k]).Some?
    ensures Emit(rows, i, sep, start).failure.None? ==> |Emit(rows, i, sep, start).emitted| == |rows|
    ensures Emit(rows, i, sep, start).failure.Some? ==>
      var n := |Emit(rows, i, sep, start).emitted|;
      n < |rows| && Split(rows[n]).None? &&
      (forall k :: 0 <= k < n ==> Split(rows[k]).Some?) &&
      Emit(rows, i, sep, start).failure.value == Unmatched(i + n, rows[n])
  {
    EmitEnd(rows, i, sep, start);
    EmitNumbering(rows, i, sep, start);
  }

  /**
   `main` as a whole: the base directory line is never numbered; line k + 1
   of the listing is reported as record k, numbered k + 1, with its depth
   relative to the base directory line; the run completes, reporting every
   line after the first, exactly when every such line matches.
   */
  lemma SupertreeNumbering(out: seq<string>, sep: char)
    ensures out == [] <==> Supertree(out, sep).failure == Some(EmptyListing)
    ensures out == [] ==> Supertree(out, sep).emitted == []
    ensures out != [] ==> |Supertree(out, sep).emitted| <= |out| - 1
    ensures out != [] ==> forall k :: 0 <= k < |Supertree(out, sep).emitted| ==>
      Supertree(out, sep).emitted[k].index == k + 1 &&
      Describes(Supertree(out, sep).emitted[k], out[k + 1], sep, Count(out[0], sep))
    ensures Supertree(out, sep).failure.None? <==>
      out != [] && forall k :: 1 <= k < |out| ==> Split(out[k]).Some?
    ensures Supertree(out, sep).failure.None? ==> |Supertree(out, sep).emitted| == |out| - 1
  {
    if out != [] {
      EmitNumbering(out[1..], 1, sep, Count(out[0], sep));
      EmitStops(out[1..], 1, sep, Count(out[0], sep));
      assert forall k :: 1 <= k < |out| ==> out[1..][k - 1] == out[k];
    }
  }

  /** Prepends already-reported records to a report. */
  function After(emitted: seq<Record>, r: Report): Report
  {
    Report(emitted + r.emitted, r.failure)
  }

  /**
   The loop of `main`: pops the base directory line, then numbers and splits
   the remaining lines in order, reporting each until one fails to match.
   */
  method RunListing(listing: seq<string>, sep: char) returns (report: Report)
    ensures report == Supertree(listing, sep)
  {
    var out := listing;
    if |out| == 0 {
      return Report([], Some(EmptyListing));
    }
    var basedir := out[0];
    out := out[1..];
    var start := Count(basedir, sep);
    var emitted: seq<Record> := [];
    var i := 1;
    while i <= |out|
      invariant 1 <= i <= |out| + 1
      invariant Emit(out, 1, sep, start) == After(emitted, Emit(out[i - 1..], i, sep, start))
    {
      var row := out[i - 1];
      var m := Split(row);
      if m.None? {
        return Report(emitted, Some(Unmatched(i, row)));
      }
      var rec := Record(i, DepthOf(m.value.filepath, sep, start), m.value.suffix, row);
      assert out[i - 1..][1..] == out[i..];
      emitted := emitted + [rec];
      i := i + 1;
    }
    report := Report(emitted, None);
  }
}
