/**
 Rendering the exceptions of one event with original source positions. `buildDisplayExceptions` keeps a
 cache for the duration of one render; here it is compared with looking every frame's source map up afresh.
*/
module Symbolication {
  import opened Basics
  import opened Mappings
  import opened Resolver
  import opened Protocol

  /** The raw frame, with symbolication results added. */
  datatype DisplayFrame = DisplayFrame(
    frame: Frame, symbolicated: bool, origFile: string, origLine: int, origColumn: int, origFunction: string)

  datatype DisplayException = DisplayException(typ: string, value: string, frames: seq<DisplayFrame>)

  /** What a render reads from: the artifact table of the store, and the JSON decoder. */
  datatype Artifacts = Artifacts(content: map<(string, string, string), bytes>, json: bytes -> Option<Document>)

  function FindArtifact(store: Artifacts, project: string, release: string, absPath: string): Option<bytes> {
    if (project, release, absPath) in store.content then Some(store.content[(project, release, absPath)]) else None
  }

  /** Fetching and parsing without any cache; every failure means "nothing found". */
  function Direct(store: Artifacts, project: string, release: string, absPath: string): Option<SourceMap> {
    if release == "" then None
    else
      match FindArtifact(store, project, release, absPath)
      case None => None
      case Some(content) => Parse(content, store.json)
  }

  /** A frame can be looked up when it names a file and a positive line. */
  predicate Locatable(f: Frame) {
    f.absPath != "" && f.lineno > 0
  }

  function Raw(f: Frame): DisplayFrame {
    DisplayFrame(f, false, "", 0, 0, "")
  }

  function Symbolicate(f: Frame, sm: Option<SourceMap>): DisplayFrame {
    if !Locatable(f) || sm.None? then Raw(f)
    else
      match Resolve(sm.value, f.lineno - 1, GenColumn(f))
      case None => Raw(f)
      case Some(pos) =>
        DisplayFrame(f, true, pos.source, Wrap64(pos.line + 1), pos.column, if pos.hasName then pos.name else "")
  }

  /** A locatable frame with whatever source map was found for it. */
  method Display(f: Frame, sm: Option<SourceMap>) returns (df: DisplayFrame)
    requires Locatable(f)
    ensures df == Symbolicate(f, sm)
  {
    df := Raw(f);
    if sm.None? {
      return;
    }
    var col := 0;
    if f.colno > 0 {
      col := f.colno - 1;
    }
    var pos := Resolve(sm.value, f.lineno - 1, col);
    if pos.None? {
      return;
    }
    df := df.(symbolicated := true, origFile := pos.value.source,
              origLine := Wrap64(pos.value.line + 1), origColumn := pos.value.column);
    if pos.value.hasName {
      df := df.(origFunction := pos.value.name);
    }
  }

  function FramesOf(exc: ExceptionValue): seq<Frame> {
    if exc.stacktrace.Some? then exc.stacktrace.value else []
  }

  /** The zero-based generated column of a frame; a missing one-based column counts as the start of the line. */
  function GenColumn(f: Frame): int {
    if f.colno > 0 then f.colno - 1 else 0
  }

  /**
   A frame whose position falls under a segment of a sorted line is shown at that segment's source position, with the
   line one-based again and the column left zero-based.
  */
  lemma FrameShowsCoveringSegment(f: Frame, sm: SourceMap, k: nat)
    requires Locatable(f) && f.lineno <= |sm.lines|
    requires Sorted(sm.lines[f.lineno - 1]) && k < |sm.lines[f.lineno - 1]|
    requires var segs := sm.lines[f.lineno - 1];
             segs[k].genCol <= GenColumn(f) && (k + 1 < |segs| ==> GenColumn(f) < segs[k + 1].genCol)
    ensures var df, seg := Symbolicate(f, Some(sm)), sm.lines[f.lineno - 1][k];
            && df.frame == f && (df.symbolicated <==> seg.hasSource)
            && (seg.hasSource ==>
                  && df.origFile == (if 0 <= seg.srcIdx < |sm.sources| then sm.sources[seg.srcIdx] else "")
                  && (IsInt64(seg.srcLine + 1) ==> df.origLine == seg.srcLine + 1)
                  && df.origColumn == seg.srcCol
                  && df.origFunction ==
                     (if seg.hasName && 0 <= seg.nameIdx < |sm.names| then sm.names[seg.nameIdx] else ""))
  {
    SegmentCovers(sm, f.lineno - 1, k, GenColumn(f));
  }

  /** The uncached rendering of some frames, of one exception, and of all. */
  function DirectFrames(store: Artifacts, project: string, release: string, frames: seq<Frame>): seq<DisplayFrame> {
    if frames == [] then []
    else
      var n := |frames| - 1;
      DirectFrames(store, project, release, frames[..n])
      + [Symbolicate(frames[n], Direct(store, project, release, frames[n].absPath))]
  }

  function DirectException(store: Artifacts, project: string, release: string, exc: ExceptionValue): DisplayException {
    DisplayException(exc.typ, exc.value, DirectFrames(store, project, release, FramesOf(exc)))
  }

  function DirectExceptions(store: Artifacts, project: string, release: string, excs: seq<ExceptionValue>)
    : seq<DisplayException>
  {
    if excs == [] then []
    else
      var n := |excs| - 1;
      DirectExceptions(store, project, release, excs[..n]) + [DirectException(store, project, release, excs[n])]
  }

  /** The paths that must be looked up to render some frames. */
  function Paths(frames: seq<Frame>): set<string> {
    set f | f in frames && Locatable(f) :: f.absPath
  }

  predicate Distinct(xs: seq<string>) {
    forall i, j :: 0 <= i < j < |xs| ==> xs[i] != xs[j]
  }

  // ---- From stored documents to displayed frames

  lemma {:induction false} FramesInOrder(store: Artifacts, project: string, release: string, frames: seq<Frame>)
    ensures var out := DirectFrames(store, project, release, frames);
            && |out| == |frames|
            && forall j :: 0 <= j < |out| ==>
                 out[j] == Symbolicate(frames[j], Direct(store, project, release, frames[j].absPath))
  {
    if frames != [] {
      FramesInOrder(store, project, release, frames[..|frames| - 1]);
    }
  }

  lemma {:induction false} ExceptionsInOrder(store: Artifacts, project: string, release: string,
                                             excs: seq<ExceptionValue>)
    ensures var out := DirectExceptions(store, project, release, excs);
            && |out| == |excs|
            && forall i :: 0 <= i < |out| ==> out[i] == DirectException(store, project, release, excs[i])
  {
    if excs != [] {
      ExceptionsInOrder(store, project, release, excs[..|excs| - 1]);
    }
  }

  /** The document stored for a path of a release. */
  function StoredDocument(store: Artifacts, project: string, release: string, absPath: string): Option<Document> {
    var key := (project, release, absPath);
    if key in store.content then store.json(store.content[key]) else None
  }

  /** The source map of a frame: there is one exactly if the release has a stored, readable version 3 document. */
  predicate HasMap(store: Artifacts, project: string, release: string, absPath: string, sm: SourceMap) {
    && release != ""
    && var doc := StoredDocument(store, project, release, absPath);
       && doc.Some? && doc.value.version == 3 && DecodeMappings(doc.value.mappings) == Ok(sm.lines)
       && sm.sources == doc.value.sources && sm.names == doc.value.names
  }

  lemma DirectIff(store: Artifacts, project: string, release: string, absPath: string, sm: SourceMap)
    ensures Direct(store, project, release, absPath) == Some(sm) <==> HasMap(store, project, release, absPath, sm)
  {
    if release != "" && (project, release, absPath) in store.content {
      ParseIff(store.content[(project, release, absPath)], store.json, sm);
    }
  }

  /** A displayed frame is either the raw one or that of a source map found for it. */
  lemma SymbolicatedOnlyFromMap(store: Artifacts, project: string, release: string, f: Frame)
    ensures var df := Symbolicate(f, Direct(store, project, release, f.absPath));
            if df.symbolicated
            then f.absPath != "" && f.lineno >= 1 && exists sm :: HasMap(store, project, release, f.absPath, sm)
            else df == DisplayFrame(f, false, "", 0, 0, "")
  {
    var sm := Direct(store, project, release, f.absPath);
    if sm.Some? {
      DirectIff(store, project, release, f.absPath, sm.value);
    }
  }

  /** The one-based column of a frame; a missing one counts as the first. */
  function OneBasedColumn(f: Frame): int {
    if f.colno < 1 then 1 else f.colno
  }

  /** The frame's position lies under segment k of the line. */
  predicate Under(f: Frame, segs: Line, k: nat) {
    k < |segs| && segs[k].genCol < OneBasedColumn(f) && (k + 1 < |segs| ==> OneBasedColumn(f) <= segs[k + 1].genCol)
  }

  lemma FrameUnderStoredMap(store: Artifacts, project: string, release: string, f: Frame, sm: SourceMap, k: nat)
    requires HasMap(store, project, release, f.absPath, sm)
    requires f.absPath != "" && 1 <= f.lineno <= |sm.lines|
    requires Sorted(sm.lines[f.lineno - 1]) && Under(f, sm.lines[f.lineno - 1], k)
    requires var seg := sm.lines[f.lineno - 1][k];
             && seg.hasSource && 0 <= seg.srcIdx < |sm.sources| && IsInt64(seg.srcLine + 1)
    ensures var seg := sm.lines[f.lineno - 1][k];
            Symbolicate(f, Direct(store, project, release, f.absPath)) ==
            DisplayFrame(f, true, sm.sources[seg.srcIdx], seg.srcLine + 1, seg.srcCol,
                         if seg.hasName && 0 <= seg.nameIdx < |sm.names| then sm.names[seg.nameIdx] else "")
  {
    DirectIff(store, project, release, f.absPath, sm);
    FrameShowsCoveringSegment(f, sm, k);
  }

  /**
   From the stored document to the screen: if the artifact of a frame's file encodes some lines, and the frame lies
   under a segment of a sorted one, the frame is shown at the source position that segment was encoded with.
  */
  lemma StoredMapIsShown(store: Artifacts, project: string, ev: Event, i: nat, j: nat, sources: seq<string>,
                         names: seq<string>, lines: seq<Line>, k: nat)
    requires i < |ev.exceptions| && j < |FramesOf(ev.exceptions[i])|
    requires lines != [] && WellFormedLines(lines) && AllRecoverable(lines, START)
    requires var f := FramesOf(ev.exceptions[i])[j];
             && ev.release != "" && f.absPath != "" && 1 <= f.lineno <= |lines|
             && StoredDocument(store, project, ev.release, f.absPath) ==
                Some(Document(3, sources, names, EncodeMappings(lines)))
             && Sorted(lines[f.lineno - 1]) && Under(f, lines[f.lineno - 1], k)
             && var seg := lines[f.lineno - 1][k];
                seg.hasSource && 0 <= seg.srcIdx < |sources| && IsInt64(seg.srcLine + 1)
    ensures var out := DirectExceptions(store, project, ev.release, ev.exceptions);
            && |out| == |ev.exceptions| && |out[i].frames| == |FramesOf(ev.exceptions[i])|
            && out[i].typ == ev.exceptions[i].typ && out[i].value == ev.exceptions[i].value
            && var f := FramesOf(ev.exceptions[i])[j];
               var seg := lines[f.lineno - 1][k];
               out[i].frames[j] ==
               DisplayFrame(f, true, sources[seg.srcIdx], seg.srcLine + 1, seg.srcCol,
                            if seg.hasName && 0 <= seg.nameIdx < |names| then names[seg.nameIdx] else "")
  {
    var f := FramesOf(ev.exceptions[i])[j];
    MappingsRoundTripIff(lines);
    ExceptionsInOrder(store, project, ev.release, ev.exceptions);
    FramesInOrder(store, project, ev.release, FramesOf(ev.exceptions[i]));
    FrameUnderStoredMap(store, project, ev.release, f, SourceMap(sources, names, lines), k);
  }

  /** One render of one event: the closure `lookup` and the cache it captures. */
  class Render {
    const store: Artifacts
    const project: string
    const release: string
    var cache: map<string, Option<SourceMap>>
    var fetched: seq<string>  // the abs_path of every FindArtifact call, in order

    ghost predicate Valid()
      reads this
    {
      && (forall p :: p in cache ==> cache[p] == Direct(store, project, release, p))
      && Distinct(fetched)
      && (forall p :: p in fetched <==> p in cache && release != "")
    }

    constructor (store: Artifacts, project: string, release: string)
      ensures Valid() && cache == map[] && fetched == []
      ensures this.store == store && this.project == project && this.release == release
    {
      this.store, this.project, this.release := store, project, release;
      cache, fetched := map[], [];
    }

    method Lookup(absPath: string) returns (sm: Option<SourceMap>)
      requires Valid()
      modifies this
      ensures Valid()
      ensures sm == Direct(store, project, release, absPath)
      ensures cache.Keys == old(cache).Keys + {absPath}
    {
      if absPath in cache {
        return cache[absPath];
      }
      sm := None;
      if release != "" {
        fetched := fetched + [absPath];
        var content := FindArtifact(store, project, release, absPath);
        if content.Some? {
          var parsed := Parse(content.value, store.json);
          if parsed.Some? {
            sm := parsed;
          }
        }
      }
      cache := cache[absPath := sm];
    }

    method ResolveFrame(f: Frame) returns (df: DisplayFrame)
      requires Valid()
      modifies this
      ensures Valid()
      ensures df == Symbolicate(f, Direct(store, project, release, f.absPath))
      ensures cache.Keys == old(cache).Keys + Paths([f])
    {
      PathsOfOne(f);
      if f.absPath == "" || f.lineno <= 0 {
        return Raw(f);
      }
      var sm := Lookup(f.absPath);
      df := Display(f, sm);
    }

    /** The loop over the frames of one exception. */
    method RenderFrames(frames: seq<Frame>) returns (out: seq<DisplayFrame>)
      requires Valid()
      modifies this
      ensures Valid()
      ensures out == DirectFrames(store, project, release, frames)
      ensures cache.Keys == old(cache).Keys + Paths(frames)
    {
      out := [];
      for n := 0 to |frames|
        invariant Valid()
        invariant out == DirectFrames(store, project, release, frames[..n])
        invariant cache.Keys == old(cache).Keys + Paths(frames[..n])
      {
        PathsSnoc(frames, n);
        assert frames[..n + 1][..n] == frames[..n];
        var df := ResolveFrame(frames[n]);
        out := out + [df];
      }
      assert frames[..|frames|] == frames;
    }

    method RenderException(exc: ExceptionValue) returns (de: DisplayException)
      requires Valid()
      modifies this
      ensures Valid()
      ensures de == DirectException(store, project, release, exc)
      ensures cache.Keys == old(cache).Keys + Paths(FramesOf(exc))
    {
      de := DisplayException(exc.typ, exc.value, []);
      if exc.stacktrace.Some? {
        var frames := RenderFrames(exc.stacktrace.value);
        de := de.(frames := frames);
      }
    }

    /** The loop over the exceptions of the event. */
    method RenderAll(exceptions: seq<ExceptionValue>) returns (out: seq<DisplayException>)
      requires Valid()
      modifies this
      ensures Valid()
      ensures out == DirectExceptions(store, project, release, exceptions)
      ensures cache.Keys == old(cache).Keys + AllPaths(exceptions)
    {
      out := [];
      for n := 0 to |exceptions|
        invariant Valid()
        invariant out == DirectExceptions(store, project, release, exceptions[..n])
        invariant cache.Keys == old(cache).Keys + AllPaths(exceptions[..n])
      {
        AllPathsSnoc(exceptions, n);
        assert exceptions[..n + 1][..n] == exceptions[..n];
        var de := RenderException(exceptions[n]);
        out := out + [de];
      }
      assert exceptions[..|exceptions|] == exceptions;
    }
  }

  lemma PathsOfOne(f: Frame)
    ensures Paths([f]) == if Locatable(f) then {f.absPath} else {}
  {
  }

  lemma PathsSnoc(frames: seq<Frame>, n: nat)
    requires n < |frames|
    ensures Paths(frames[..n + 1]) == Paths(frames[..n]) + Paths([frames[n]])
  {
  }

  function AllPaths(exceptions: seq<ExceptionValue>): set<string> {
    if exceptions == [] then {}
    else AllPaths(exceptions[..|exceptions| - 1]) + Paths(FramesOf(exceptions[|exceptions| - 1]))
  }

  lemma AllPathsSnoc(exceptions: seq<ExceptionValue>, n: nat)
    requires n < |exceptions|
    ensures AllPaths(exceptions[..n + 1]) == AllPaths(exceptions[..n]) + Paths(FramesOf(exceptions[n]))
  {
    assert exceptions[..n + 1][..n] == exceptions[..n];
  }

  /**
   The whole render: the output is what uncached lookups give, and FindArtifact was called exactly once for
   each distinct path of a locatable frame (and never for an event without a release).
  */
  method BuildDisplayExceptions(store: Artifacts, project: string, ev: Event)
    returns (out: seq<DisplayException>, fetched: seq<string>)
    ensures out == DirectExceptions(store, project, ev.release, ev.exceptions)
    ensures Distinct(fetched)
    ensures forall p :: p in fetched <==> ev.release != "" && p in AllPaths(ev.exceptions)
  {
    var render := new Render(store, project, ev.release);
    out := render.RenderAll(ev.exceptions);
    fetched := render.fetched;
  }
}
