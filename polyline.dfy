/**
 * Sentinel-separated multi-polylines: several point lists flattened into one
 * list in which a `None` after each list tells a line renderer to lift the pen.
 */
module Polyline {
  import opened Wrappers
  import opened Sequences

  /** One polyline followed by its break marker. */
  function Terminated<C>(points: seq<C>): (r: seq<Option<C>>)
    ensures |r| == |points| + 1
    ensures r[|points|] == None
    ensures forall k :: 0 <= k < |points| ==> r[k] == Some(points[k])
  {
    seq(|points|, k requires 0 <= k < |points| => Some(points[k])) + [None]
  }

  function TerminatedAll<C>(lines: seq<seq<C>>): (r: seq<seq<Option<C>>>)
    ensures |r| == |lines|
  {
    seq(|lines|, j requires 0 <= j < |lines| => Terminated(lines[j]))
  }

  /** The flattened trace: every line in order, each closed by a break marker. */
  function Join<C>(lines: seq<seq<C>>): seq<Option<C>>
  {
    Concat(TerminatedAll(lines))
  }

  /** Number of entries of the flattened trace: each line's length plus one marker. */
  function TraceLength<C>(lines: seq<seq<C>>): nat
  {
    if lines == [] then 0 else |lines[0]| + 1 + TraceLength(lines[1..])
  }

  lemma JoinCons<C>(lines: seq<seq<C>>)
    requires lines != []
    ensures Join(lines) == Terminated(lines[0]) + Join(lines[1..])
  {
    assert TerminatedAll(lines)[1..] == TerminatedAll(lines[1..]);
  }

  /** The trace has one entry per point and one marker per line. */
  lemma {:induction false} JoinLength<C>(lines: seq<seq<C>>)
    ensures |Join(lines)| == TraceLength(lines)
  {
    if lines != [] {
      JoinCons(lines);
      JoinLength(lines[1..]);
    }
  }

  /** Adding one more line to the input appends that line and its marker to the trace. */
  lemma JoinAppend<C>(lines: seq<seq<C>>, line: seq<C>)
    ensures Join(lines + [line]) == Join(lines) + Terminated(line)
  {
    assert TerminatedAll(lines + [line]) == TerminatedAll(lines) + [Terminated(line)];
    ConcatAppend(TerminatedAll(lines), Terminated(line));
  }

  /**
   * For lines of a common length `len`, the trace has `len + 1` entries per line,
   * the marker of line `i` sits at `i * (len + 1) + len`, and point `k` of
   * line `i` at `i * (len + 1) + k`.
   */
  lemma JoinUniformAt<C>(lines: seq<seq<C>>, len: nat, i: nat, k: nat)
    requires forall j :: 0 <= j < |lines| ==> |lines[j]| == len
    requires i < |lines| && k <= len
    ensures |Join(lines)| == |lines| * (len + 1)
    ensures i * (len + 1) + k < |Join(lines)|
    ensures Join(lines)[i * (len + 1) + k] == if k < len then Some(lines[i][k]) else None
  {
    ConcatUniformAt(TerminatedAll(lines), len + 1, i, k);
  }

  /**
   * Reads a trace back into lines: `current` collects the points since the last
   * marker, and each marker closes one line.
   */
  function SplitFrom<C>(trace: seq<Option<C>>, current: seq<C>): seq<seq<C>>
    decreases |trace|
  {
    if trace == [] then
      if current == [] then [] else [current]
    else
      match trace[0]
      case None => [current] + SplitFrom(trace[1..], [])
      case Some(p) => SplitFrom(trace[1..], current + [p])
  }

  function Split<C>(trace: seq<Option<C>>): seq<seq<C>>
  {
    SplitFrom(trace, [])
  }

  lemma {:induction false} SplitTerminated<C>(points: seq<C>, rest: seq<Option<C>>, current: seq<C>)
    ensures SplitFrom(Terminated(points) + rest, current) == [current + points] + SplitFrom(rest, [])
    decreases |points|
  {
    var t := Terminated(points) + rest;
    if points == [] {
      assert t == [None] + rest;
      assert t[1..] == rest;
      assert current + points == current;
    } else {
      assert t[0] == Some(points[0]);
      assert t[1..] == Terminated(points[1..]) + rest;
      SplitTerminated(points[1..], rest, current + [points[0]]);
      assert current + [points[0]] + points[1..] == current + points;
    }
  }

  /** Splitting the trace at its markers gives back every line, in input order. */
  lemma {:induction false} SplitJoin<C>(lines: seq<seq<C>>)
    ensures Split(Join(lines)) == lines
  {
    if lines != [] {
      JoinCons(lines);
      SplitTerminated(lines[0], Join(lines[1..]), []);
      SplitJoin(lines[1..]);
      assert [] + lines[0] == lines[0];
      assert [lines[0]] + lines[1..] == lines;
    }
  }
}
