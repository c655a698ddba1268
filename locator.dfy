/** The debug-line locator: a lower-bound search (`std::lower_bound` with the
    comparison `marker.line < line`) over a source file's line markers, which
    the parser keeps sorted by line. */
module Locator {
  import opened Words

  /** A function of the module: its result id and its local variables' ids. */
  datatype Function = Function(self: u32, localVariables: seq<u32>)

  /** A debug line marker: a line of the source file and the function that
      owns the code at that line. */
  datatype LineMarker = LineMarker(line: u32, owner: Function)

  /** A source file of the module with its line markers. */
  datatype SourceFile = SourceFile(lineMarkers: seq<LineMarker>)

  /** The three outcomes of a lookup: no marker at or after the line, or the
      first such marker, exact when its line is the one asked for. */
  datatype LineMatch = NotFound | Found(index: nat, marker: LineMarker, exact: bool)

  /** Markers sorted non-decreasingly by line (duplicates allowed). */
  predicate Sorted(markers: seq<LineMarker>)
  {
    forall i, j :: 0 <= i <= j < |markers| ==> markers[i].line <= markers[j].line
  }

  /** The index of the first marker whose line is at least `line`, or
      `|markers|` when there is none. */
  function FirstAtLeast(markers: seq<LineMarker>, line: u32): (idx: nat)
    ensures idx <= |markers|
    ensures forall j :: 0 <= j < idx ==> markers[j].line < line
    ensures idx < |markers| ==> markers[idx].line >= line
  {
    if |markers| == 0 then 0
    else if markers[0].line >= line then 0
    else 1 + FirstAtLeast(markers[1..], line)
  }

  /** Any index that splits the markers into "before the line" and "at or
      after it" is the first one at or after it. */
  lemma {:induction false} FirstAtLeastUnique(markers: seq<LineMarker>, line: u32, idx: nat)
    requires idx <= |markers|
    requires forall j :: 0 <= j < idx ==> markers[j].line < line
    requires idx < |markers| ==> markers[idx].line >= line
    ensures idx == FirstAtLeast(markers, line)
  {
    if idx > 0 {
      assert markers[0].line < line;
      forall j | 0 <= j < idx - 1
        ensures markers[1..][j].line < line
      {
        assert markers[1..][j] == markers[j + 1];
      }
      FirstAtLeastUnique(markers[1..], line, idx - 1);
    }
  }

  /** On sorted markers the partition is complete: every marker from the
      lower bound on is at or after the line. */
  lemma {:induction false} FirstAtLeastPartition(markers: seq<LineMarker>, line: u32)
    requires Sorted(markers)
    ensures forall j :: FirstAtLeast(markers, line) <= j < |markers| ==> markers[j].line >= line
  {
    var idx := FirstAtLeast(markers, line);
    if idx < |markers| {
      forall j | idx <= j < |markers|
        ensures markers[j].line >= line
      {
        assert markers[idx].line <= markers[j].line;
      }
    }
  }

  /** With duplicate lines the first duplicate is chosen: if some marker is
      exactly at `line`, the lower bound is the first such marker. */
  lemma {:induction false} FirstDuplicateChosen(markers: seq<LineMarker>, line: u32, j: nat)
    requires Sorted(markers)
    requires j < |markers| && markers[j].line == line
    ensures FirstAtLeast(markers, line) <= j
    ensures markers[FirstAtLeast(markers, line)].line == line
    ensures forall k :: 0 <= k < FirstAtLeast(markers, line) ==> markers[k].line != line
  {
    var idx := FirstAtLeast(markers, line);
    // Markers before the lower bound are below the line, and marker `j` is not.
    assert !(markers[j].line < line);
    assert idx <= j;
    assert markers[idx].line <= markers[j].line;
  }

  /** `std::lower_bound` as a binary search. */
  method LowerBound(markers: seq<LineMarker>, line: u32) returns (idx: nat)
    requires Sorted(markers)
    ensures idx <= |markers|
    ensures forall j :: 0 <= j < idx ==> markers[j].line < line
    ensures forall j :: idx <= j < |markers| ==> markers[j].line >= line
    ensures idx == FirstAtLeast(markers, line)
  {
    var lo, hi := 0, |markers|;
    while lo < hi
      invariant 0 <= lo <= hi <= |markers|
      invariant forall j :: 0 <= j < lo ==> markers[j].line < line
      invariant forall j :: hi <= j < |markers| ==> markers[j].line >= line
    {
      var mid := lo + (hi - lo) / 2;
      if markers[mid].line < line {
        lo := mid + 1;
      } else {
        hi := mid;
      }
    }
    idx := lo;
    FirstAtLeastUnique(markers, line, idx);
  }

  /** The lookup in `outputPatched`: not found when every marker is before
      the line; otherwise the first marker at or after it, exact exactly when
      its line equals `line`. */
  method LocateLine(source: SourceFile, line: u32) returns (m: LineMatch)
    requires Sorted(source.lineMarkers)
    ensures m.NotFound? <==> forall j :: 0 <= j < |source.lineMarkers| ==> source.lineMarkers[j].line < line
    ensures m.Found? ==> m.index == FirstAtLeast(source.lineMarkers, line) < |source.lineMarkers|
    ensures m.Found? ==> m.marker == source.lineMarkers[m.index]
    ensures m.Found? ==> (m.exact <==> m.marker.line == line)
  {
    var lb := LowerBound(source.lineMarkers, line);
    if lb == |source.lineMarkers| {
      return NotFound;
    }
    var marker := source.lineMarkers[lb];
    m := Found(lb, marker, marker.line == line);
  }

  /** Markers at lines 5, 10, 10 and 20: line 10 finds the first marker at
      10, line 7 finds the same marker inexactly, and line 25 finds none. */
  lemma LookupExample(f: Function, g: Function, h: Function, k: Function)
    ensures var markers := [LineMarker(5, f), LineMarker(10, g), LineMarker(10, h), LineMarker(20, k)];
      && FirstAtLeast(markers, 10) == 1
      && FirstAtLeast(markers, 7) == 1 && markers[1].line != 7
      && FirstAtLeast(markers, 25) == |markers|
  {
  }
}
