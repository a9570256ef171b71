/** Splitting a file with git conflict markers into our version and theirs, from lockfile/fs. Lines are given. */
module GitMergeFile {
  import DependencyPath
  import opened Records

  datatype Marker = Parent | Ours | Theirs | End | NoMarker

  /** The tests in the order the code makes them; only the middle marker must be the whole line. */
  function Classify(line: string): Marker {
    if DependencyPath.StartsWith(line, "|||||||") then Parent
    else if DependencyPath.StartsWith(line, "<<<<<<<") then Ours
    else if line == "=======" then Theirs
    else if DependencyPath.StartsWith(line, ">>>>>>>") then End
    else NoMarker
  }

  datatype State = InTop | InOurs | InParent | InTheirs

  datatype MergeFile = MergeFile(ours: seq<string>, theirs: seq<string>)

  function Next(state: State, line: string): State {
    match Classify(line)
    case Parent => InParent
    case Ours => InOurs
    case Theirs => InTheirs
    case End => InTop
    case NoMarker => state
  }

  function Taken(line: string, takes: bool): seq<string> {
    if takes && Classify(line) == NoMarker then [line] else []
  }

  function Split(state: State, lines: seq<string>): MergeFile
    decreases |lines|
  {
    if lines == [] then MergeFile([], [])
    else
      var rest := Split(Next(state, lines[0]), lines[1..]);
      MergeFile(Taken(lines[0], state == InTop || state == InOurs) + rest.ours,
                Taken(lines[0], state == InTop || state == InTheirs) + rest.theirs)
  }

  method ParseMergeFile(fileLines: seq<string>) returns (r: MergeFile)
    ensures r == Split(InTop, fileLines)
  {
    hide Classify, Split;
    var lines, state := fileLines, InTop;
    var ours: seq<string>, theirs: seq<string> := [], [];
    assert ours + Split(state, lines).ours == Split(state, lines).ours;
    assert theirs + Split(state, lines).theirs == Split(state, lines).theirs;
    while |lines| > 0
      invariant Split(InTop, fileLines) ==
        MergeFile(ours + Split(state, lines).ours, theirs + Split(state, lines).theirs)
      decreases |lines|
    {
      var line := lines[0];
      Collect(ours, theirs, state, line, lines[1..]);
      assert [line] + lines[1..] == lines;
      lines := lines[1..];
      if Classify(line) == Parent {
        state := InParent;
        continue;
      }
      if Classify(line) == Ours {
        state := InOurs;
        continue;
      }
      if Classify(line) == Theirs {
        state := InTheirs;
        continue;
      }
      if Classify(line) == End {
        state := InTop;
        continue;
      }
      if state == InTop || state == InOurs {
        ours := ours + [line];
      }
      if state == InTop || state == InTheirs {
        theirs := theirs + [line];
      }
    }
    NothingLeft(state, lines);
    r := MergeFile(ours, theirs);
  }

  lemma NothingLeft(state: State, lines: seq<string>)
    requires |lines| == 0
    ensures Split(state, lines) == MergeFile([], [])
  {
  }

  lemma Collect(ours: seq<string>, theirs: seq<string>, state: State, line: string, rest: seq<string>)
    ensures var all, tail := Split(state, [line] + rest), Split(Next(state, line), rest);
            && ours + all.ours == ours + Taken(line, state == InTop || state == InOurs) + tail.ours
            && theirs + all.theirs == theirs + Taken(line, state == InTop || state == InTheirs) + tail.theirs
  {
    hide Classify;
    assert ([line] + rest)[1..] == rest;
  }

  // ----- What git writes -----

  datatype Segment =
    | Common(lines: seq<string>)
    | Conflict(oursMarker: string, ours: seq<string>, parent: Option<(string, seq<string>)>,
               theirs: seq<string>, endMarker: string)

  const MIDDLE := "======="

  lemma MarkersClassified(line: string)
    ensures Classify(line) == NoMarker <==> !IsMarker(line)
    ensures "<<<<<<<" <= line ==> Classify(line) == Ours
    ensures "|||||||" <= line ==> Classify(line) == Parent
    ensures ">>>>>>>" <= line ==> Classify(line) == End
    ensures line == "=======" ==> Classify(line) == Theirs
  {
    assert "<<<<<<<"[0] == '<' && "|||||||"[0] == '|' && ">>>>>>>"[0] == '>' && "======="[0] == '=';
  }

  /** No line is one of git's markers: three of them are told by how a line begins, the middle one is a whole line. */
  ghost predicate Plain(lines: seq<string>) {
    forall i :: 0 <= i < |lines| ==> !IsMarker(lines[i])
  }

  ghost predicate IsMarker(line: string) {
    "<<<<<<<" <= line || "|||||||" <= line || line == "=======" || ">>>>>>>" <= line
  }

  ghost predicate WellFormed(s: Segment) {
    match s
    case Common(lines) => Plain(lines)
    case Conflict(om, ours, parent, theirs, em) =>
      && "<<<<<<<" <= om && Plain(ours) && Plain(theirs) && ">>>>>>>" <= em
      && (parent.Some? ==> "|||||||" <= parent.value.0 && Plain(parent.value.1))
  }

  function RenderSegment(s: Segment): seq<string> {
    match s
    case Common(lines) => lines
    case Conflict(om, ours, parent, theirs, em) =>
      [om] + ours + (if parent.Some? then [parent.value.0] + parent.value.1 else []) + [MIDDLE] + theirs + [em]
  }

  function Render(segments: seq<Segment>): seq<string> {
    if segments == [] then [] else RenderSegment(segments[0]) + Render(segments[1..])
  }

  function OursOf(segments: seq<Segment>): seq<string> {
    if segments == [] then []
    else (if segments[0].Common? then segments[0].lines else segments[0].ours) + OursOf(segments[1..])
  }

  function TheirsOf(segments: seq<Segment>): seq<string> {
    if segments == [] then []
    else (if segments[0].Common? then segments[0].lines else segments[0].theirs) + TheirsOf(segments[1..])
  }

  lemma {:induction false} PlainRun(state: State, lines: seq<string>, rest: seq<string>)
    requires Plain(lines)
    ensures Split(state, lines + rest) ==
            MergeFile((if state == InTop || state == InOurs then lines else []) + Split(state, rest).ours,
                      (if state == InTop || state == InTheirs then lines else []) + Split(state, rest).theirs)
  {
    hide Classify, Split, IsMarker;
    if lines == [] {
      assert lines + rest == rest;
    } else {
      var line, tail := lines[0], lines[1..];
      assert !IsMarker(line);
      MarkersClassified(line);
      assert lines + rest == [line] + (tail + rest) && lines == [line] + tail;
      PlainRun(state, tail, rest);
      PlainLine(state, line, tail + rest);
      var t := Split(state, rest);
      assert [line] + (tail + t.ours) == lines + t.ours;
      assert [line] + (tail + t.theirs) == lines + t.theirs;
    }
  }

  lemma PlainLine(state: State, line: string, rest: seq<string>)
    requires Classify(line) == NoMarker
    ensures Split(state, [line] + rest) ==
            MergeFile((if state == InTop || state == InOurs then [line] else []) + Split(state, rest).ours,
                      (if state == InTop || state == InTheirs then [line] else []) + Split(state, rest).theirs)
  {
    hide Classify;
    assert ([line] + rest)[1..] == rest;
  }

  lemma MarkerLine(state: State, line: string, rest: seq<string>)
    requires Classify(line) != NoMarker
    ensures Split(state, [line] + rest) == Split(Next(state, line), rest)
  {
    hide Classify;
    assert ([line] + rest)[1..] == rest;
  }

  lemma ConflictMarkers(s: Segment)
    requires WellFormed(s) && s.Conflict?
    ensures Plain(s.ours) && Plain(s.theirs) && Classify(s.oursMarker) == Ours && Classify(s.endMarker) == End
    ensures s.parent.Some? ==> Classify(s.parent.value.0) == Parent && Plain(s.parent.value.1)
    ensures Classify(MIDDLE) == Theirs
  {
    hide Plain, Classify;
    MarkersClassified(MIDDLE);
    MarkersClassified(s.oursMarker);
    MarkersClassified(s.endMarker);
    if s.parent.Some? {
      MarkersClassified(s.parent.value.0);
    }
  }

  lemma SegmentSplits(s: Segment, rest: seq<string>)
    requires WellFormed(s)
    ensures Split(InTop, RenderSegment(s) + rest) ==
            MergeFile((if s.Common? then s.lines else s.ours) + Split(InTop, rest).ours,
                      (if s.Common? then s.lines else s.theirs) + Split(InTop, rest).theirs)
  {
    if s.Conflict? {
      ConflictMarkers(s);
    }
    assert s.Common? ==> Plain(s.lines);
    hide Classify, Split, Plain, WellFormed;
    match s
    case Common(lines) =>
      PlainRun(InTop, lines, rest);
    case Conflict(om, ours, parent, theirs, em) =>
      var afterTheirs := [em] + rest;
      var afterMiddle := theirs + afterTheirs;
      var afterParent := [MIDDLE] + afterMiddle;
      var afterOurs := (if parent.Some? then [parent.value.0] + (parent.value.1 + afterParent) else afterParent);
      assert RenderSegment(s) + rest == [om] + (ours + afterOurs);
      MarkerLine(InTop, om, ours + afterOurs);
      PlainRun(InOurs, ours, afterOurs);
      if parent.Some? {
        MarkerLine(InOurs, parent.value.0, parent.value.1 + afterParent);
        PlainRun(InParent, parent.value.1, afterParent);
        MarkerLine(InParent, MIDDLE, afterMiddle);
      } else {
        MarkerLine(InOurs, MIDDLE, afterMiddle);
      }
      PlainRun(InTheirs, theirs, afterTheirs);
      MarkerLine(InTheirs, em, rest);
  }

  /** Splitting undoes rendering: of any sequence of common stretches and conflicts it recovers both versions. */
  lemma {:induction false} SplitRendered(segments: seq<Segment>)
    requires forall i :: 0 <= i < |segments| ==> WellFormed(segments[i])
    ensures Split(InTop, Render(segments)) == MergeFile(OursOf(segments), TheirsOf(segments))
  {
    hide RenderSegment, WellFormed;
    if segments != [] {
      SegmentSplits(segments[0], Render(segments[1..]));
      SplitRendered(segments[1..]);
    }
  }
}
