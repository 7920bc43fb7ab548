/**
 The fingerprint of an event: which signals it is made of, and exactly which events share them.
 The hash is a parameter; its argument is the NUL-joined list of signals.
*/
module Grouping {
  import opened Basics
  import opened Protocol

  type Site = (string, string)  // module and function of a frame

  // ---- The normalised stack trace

  function FilterInApp(frames: seq<Frame>): (r: seq<Frame>) {
    if frames == [] then []
    else
      var rest := FilterInApp(frames[..|frames| - 1]);
      if frames[|frames| - 1].inApp then rest + [frames[|frames| - 1]] else rest
  }

  /** The frames that count: the in-app ones, or all of them when there are none. */
  function Relevant(frames: seq<Frame>): seq<Frame> {
    var inApp := FilterInApp(frames);
    if |inApp| > 0 then inApp else frames
  }

  function Sites(frames: seq<Frame>): (r: seq<Site>)
    ensures |r| == |frames|
  {
    seq(|frames|, i requires 0 <= i < |frames| => (frames[i].moduleName, frames[i].funcName))
  }

  /** Drops every site that repeats the one before it. */
  function Collapse(xs: seq<Site>): seq<Site> {
    if |xs| <= 1 then xs
    else
      var n := |xs| - 1;
      if xs[n] == xs[n - 1] then Collapse(xs[..n]) else Collapse(xs[..n]) + [xs[n]]
  }

  lemma CollapseStep(xs: seq<Site>, i: nat)
    requires i < |xs|
    ensures Collapse(xs[..i + 1]) ==
            if i > 0 && xs[i] == xs[i - 1] then Collapse(xs[..i]) else Collapse(xs[..i]) + [xs[i]]
  {
    assert xs[..i + 1][..i] == xs[..i];
  }

  function Flatten(xs: seq<Site>): seq<string> {
    if xs == [] then []
    else Flatten(xs[..|xs| - 1]) + [xs[|xs| - 1].0, xs[|xs| - 1].1]
  }

  function FrameComponents(frames: seq<Frame>): seq<string> {
    Flatten(Collapse(Sites(Relevant(frames))))
  }

  /** Filtering distributes over concatenation, keeps in-app frames and drops all others: order is preserved. */
  lemma {:induction false} FilterInAppKeepsOrder(a: seq<Frame>, b: seq<Frame>)
    ensures FilterInApp(a + b) == FilterInApp(a) + FilterInApp(b)
    ensures forall f: Frame :: FilterInApp([f]) == if f.inApp then [f] else []
  {
    forall f: Frame ensures FilterInApp([f]) == if f.inApp then [f] else [] {
      assert [f][..0] == [] && FilterInApp([f][..0]) == [];
    }
    if b == [] {
      assert a + b == a;
    } else {
      var n := |b| - 1;
      assert (a + b)[..|a + b| - 1] == a + b[..n];
      FilterInAppKeepsOrder(a, b[..n]);
    }
  }

  method FilterInAppLoop(frames: seq<Frame>) returns (out: seq<Frame>)
    ensures out == FilterInApp(frames)
  {
    out := [];
    for i := 0 to |frames|
      invariant out == FilterInApp(frames[..i])
    {
      assert frames[..i + 1][..i] == frames[..i];
      if frames[i].inApp {
        out := out + [frames[i]];
      }
    }
    assert frames[..|frames|] == frames;
  }

  method FrameComponentsLoop(frames: seq<Frame>) returns (out: seq<string>)
    ensures out == FrameComponents(frames)
  {
    var target := frames;
    var inApp := FilterInAppLoop(frames);
    if |inApp| > 0 {
      target := inApp;
    }
    out := [];
    var lastModule, lastFunction, first := "", "", true;
    ghost var sites := Sites(target);
    for i := 0 to |target|
      invariant first <==> i == 0
      invariant i > 0 ==> (lastModule, lastFunction) == sites[i - 1]
      invariant out == Flatten(Collapse(sites[..i]))
    {
      var f := target[i];
      CollapseStep(sites, i);
      if !first && f.moduleName == lastModule && f.funcName == lastFunction {
        continue;
      }
      FlattenSnoc(Collapse(sites[..i]), sites[i]);
      out := out + [f.moduleName, f.funcName];
      lastModule, lastFunction := f.moduleName, f.funcName;
      first := false;
    }
    assert sites[..|target|] == sites;
  }

  lemma FlattenSnoc(xs: seq<Site>, x: Site)
    ensures Flatten(xs + [x]) == Flatten(xs) + [x.0, x.1]
  {
  }

  /** The trace of the first thread that is current and has one, else of the first thread that has one. */
  function CurrentThreadFrames(threads: seq<Thread>): (r: Option<Stacktrace>)
    ensures r.None? <==> forall t :: t in threads ==> t.stacktrace.None?
  {
    var current := FirstTrace(threads, true);
    if current.Some? then current else FirstTrace(threads, false)
  }

  predicate Usable(t: Thread, onlyCurrent: bool) {
    t.stacktrace.Some? && (onlyCurrent ==> t.current)
  }

  predicate IsFirst(threads: seq<Thread>, onlyCurrent: bool, i: nat)
    requires i < |threads|
  {
    Usable(threads[i], onlyCurrent) && forall j :: 0 <= j < i ==> !Usable(threads[j], onlyCurrent)
  }

  function FirstTrace(threads: seq<Thread>, onlyCurrent: bool): (r: Option<Stacktrace>)
    ensures r.None? <==> forall t :: t in threads ==> !Usable(t, onlyCurrent)
    ensures r.Some? ==> exists i :: 0 <= i < |threads| && IsFirst(threads, onlyCurrent, i) && threads[i].stacktrace == r
  {
    if threads == [] then None
    else
      var t := threads[0];
      assert threads == [t] + threads[1..];
      if Usable(t, onlyCurrent) then
        assert IsFirst(threads, onlyCurrent, 0);
        t.stacktrace
      else
        var rest := threads[1..];
        var r := FirstTrace(rest, onlyCurrent);
        assert r.Some? ==>
                 exists i :: 0 <= i < |threads| && IsFirst(threads, onlyCurrent, i) && threads[i].stacktrace == r
        by {
          if r.Some? {
            var i :| 0 <= i < |rest| && IsFirst(rest, onlyCurrent, i) && rest[i].stacktrace == r;
            assert IsFirst(threads, onlyCurrent, i + 1);
          }
        }
        r
  }

  method CurrentThreadFramesLoop(threads: seq<Thread>) returns (r: Option<Stacktrace>)
    ensures r == CurrentThreadFrames(threads)
  {
    for i := 0 to |threads|
      invariant FirstTrace(threads, true) == FirstTrace(threads[i..], true)
    {
      assert threads[i..][1..] == threads[i + 1..];
      if threads[i].current && threads[i].stacktrace.Some? {
        return threads[i].stacktrace;
      }
    }
    for i := 0 to |threads|
      invariant FirstTrace(threads, false) == FirstTrace(threads[i..], false)
    {
      assert threads[i..][1..] == threads[i + 1..];
      if threads[i].stacktrace.Some? {
        return threads[i].stacktrace;
      }
    }
    return None;
  }

  // ---- The event's signals

  // A chosen trace without frames contributes no signals, so it need not be told apart from having no trace.
  function Components(ev: Event): (parts: seq<string>)
    ensures |parts| >= 2
  {
    if |ev.exceptions| > 0 then
      var primary := ev.exceptions[|ev.exceptions| - 1];
      var parts := ["exception", primary.typ];
      if primary.stacktrace.Some? then parts + FrameComponents(primary.stacktrace.value) else parts
    else
      match CurrentThreadFrames(ev.threads)
      case Some(frames) => ["message", ev.message] + FrameComponents(frames)
      case None => ["message", ev.message]
  }

  /** The signals as docs/architecture/grouping.md describes them: a message takes a current thread's trace only. */
  function DocumentedComponents(ev: Event): seq<string> {
    if |ev.exceptions| > 0 then Components(ev)
    else
      match FirstTrace(ev.threads, true)
      case Some(frames) => ["message", ev.message] + FrameComponents(frames)
      case None => ["message", ev.message]
  }

  /** The signals are the documented ones exactly if falling back to another thread adds no frames. */
  lemma AsDocumentedIff(ev: Event)
    ensures Components(ev) == DocumentedComponents(ev) <==>
            || |ev.exceptions| > 0
            || FirstTrace(ev.threads, true).Some?
            || FirstTrace(ev.threads, false) in {None, Some([])}
  {
    var other := FirstTrace(ev.threads, false);
    if |ev.exceptions| == 0 && FirstTrace(ev.threads, true).None? && other.Some? {
      NoSignalsIffNoFrames(other.value);
    }
  }

  lemma NoSignalsIffNoFrames(frames: seq<Frame>)
    ensures FrameComponents(frames) == [] <==> frames == []
  {
    FlattenLength(Collapse(Sites(Relevant(frames))));
    CollapseProps(Sites(Relevant(frames)));
  }

  /** A message whose only thread is not current is grouped by that thread's trace all the same. */
  lemma FallbackIsNotDocumented() returns (ev: Event)
    ensures Components(ev) != DocumentedComponents(ev)
  {
    var frame := Frame("", "", "f", "m", 0, 0, true);
    var thread := Thread(false, Some([frame]));
    ev := Event("", None, "", "", "", [], [thread], "");
    assert FirstTrace(ev.threads, false) == Some([frame]);
    assert FirstTrace(ev.threads, true) == None;
    AsDocumentedIff(ev);
  }

  const NUL := '\0'

  function JoinNul(parts: seq<string>): string
    requires |parts| >= 1
  {
    if |parts| == 1 then parts[0] else parts[0] + [NUL] + JoinNul(parts[1..])
  }

  function Fingerprint(ev: Event, hash: string -> string): string {
    hash(JoinNul(Components(ev)))
  }

  // ---- Equal up to repeating adjacent sites

  /** ys is xs with one element repeated in place. */
  predicate Repeats(xs: seq<Site>, ys: seq<Site>) {
    exists i :: 0 <= i < |xs| && ys == Duplicate(xs, i)
  }

  function Duplicate(xs: seq<Site>, i: nat): seq<Site>
    requires i < |xs|
  {
    xs[..i + 1] + xs[i..]
  }

  /** A chain of lists, neighbours differing by one repetition added or removed. */
  predicate StutterChain(path: seq<seq<Site>>) {
    && path != []
    && forall k :: 0 <= k < |path| - 1 ==> Repeats(path[k], path[k + 1]) || Repeats(path[k + 1], path[k])
  }

  /** The least equivalence that identifies a list with any list repeating one of its elements in place. */
  ghost predicate StutterEquivalent(xs: seq<Site>, ys: seq<Site>) {
    exists path :: StutterChain(path) && path[0] == xs && path[|path| - 1] == ys
  }

  lemma {:induction false} CollapseProps(xs: seq<Site>)
    ensures xs != [] ==> Collapse(xs) != [] && Collapse(xs)[|Collapse(xs)| - 1] == xs[|xs| - 1]
    ensures xs == [] ==> Collapse(xs) == []
  {
    if |xs| > 1 {
      CollapseProps(xs[..|xs| - 1]);
    }
  }

  lemma CollapseSnoc(xs: seq<Site>, x: Site)
    requires xs != []
    ensures Collapse(xs + [x]) == Collapse(xs) + if x == xs[|xs| - 1] then [] else [x]
  {
    var ys := xs + [x];
    assert ys[..|xs|] == xs && ys[|xs|] == x && ys[|xs| - 1] == xs[|xs| - 1];
  }

  /** Repeating an element in place does not change the normal form. */
  lemma {:induction false} CollapseDuplicate(xs: seq<Site>, i: nat)
    requires i < |xs|
    ensures Collapse(Duplicate(xs, i)) == Collapse(xs)
  {
    var n := |xs| - 1;
    var ys, before, last := Duplicate(xs, i), xs[..n], xs[n];
    if i == n {
      assert xs[..n + 1] == xs && xs[n..] == [last];
      CollapseSnoc(xs, last);
    } else {
      assert xs == before + [last] && xs[..i + 1] == before[..i + 1] && xs[i..] == before[i..] + [last];
      assert ys == Duplicate(before, i) + [last];
      assert Duplicate(before, i)[n] == before[n - 1];
      CollapseDuplicate(before, i);
      CollapseSnoc(Duplicate(before, i), last);
      CollapseSnoc(before, last);
    }
  }

  lemma {:induction false} ChainKeepsCollapse(path: seq<seq<Site>>, k: nat)
    requires StutterChain(path) && k < |path|
    ensures Collapse(path[k]) == Collapse(path[0])
  {
    if k > 0 {
      ChainKeepsCollapse(path, k - 1);
      var a, b := path[k - 1], path[k];
      assert Repeats(path[k - 1], path[k - 1 + 1]) || Repeats(path[k - 1 + 1], path[k - 1]);
      if Repeats(a, b) {
        var i :| 0 <= i < |a| && b == Duplicate(a, i);
        CollapseDuplicate(a, i);
      } else {
        var i :| 0 <= i < |b| && a == Duplicate(b, i);
        CollapseDuplicate(b, i);
      }
    }
  }

  lemma SnocRepeats(xs: seq<Site>, ys: seq<Site>, x: Site)
    requires Repeats(xs, ys)
    ensures Repeats(xs + [x], ys + [x])
  {
    var i :| 0 <= i < |xs| && ys == Duplicate(xs, i);
    assert ys + [x] == Duplicate(xs + [x], i);
  }

  lemma RepeatsLast(xs: seq<Site>)
    requires |xs| > 1 && xs[|xs| - 1] == xs[|xs| - 2]
    ensures Repeats(xs[..|xs| - 1], xs)
  {
    assert xs == Duplicate(xs[..|xs| - 1], |xs| - 2);
  }

  lemma ChainSnoc(p: seq<seq<Site>>, x: Site) returns (q: seq<seq<Site>>)
    requires StutterChain(p)
    ensures StutterChain(q) && q[0] == p[0] + [x] && q[|q| - 1] == p[|p| - 1] + [x]
  {
    q := seq(|p|, k requires 0 <= k < |p| => p[k] + [x]);
    forall k | 0 <= k < |q| - 1 ensures Repeats(q[k], q[k + 1]) || Repeats(q[k + 1], q[k]) {
      if Repeats(p[k], p[k + 1]) {
        SnocRepeats(p[k], p[k + 1], x);
      } else {
        SnocRepeats(p[k + 1], p[k], x);
      }
    }
  }

  lemma ChainCons(x: seq<Site>, p: seq<seq<Site>>)
    requires StutterChain(p) && Repeats(p[0], x)
    ensures StutterChain([x] + p)
  {
  }

  /** Every list is linked to its normal form by removing repetitions one at a time. */
  lemma {:induction false} ChainToCollapse(xs: seq<Site>) returns (path: seq<seq<Site>>)
    ensures StutterChain(path) && path[0] == xs && path[|path| - 1] == Collapse(xs)
  {
    path := [xs];
    if |xs| > 1 {
      var n := |xs| - 1;
      var p := ChainToCollapse(xs[..n]);
      assert xs[..n] + [xs[n]] == xs;
      if xs[n] == xs[n - 1] {
        RepeatsLast(xs);
        ChainCons(xs, p);
        path := [xs] + p;
      } else {
        path := ChainSnoc(p, xs[n]);
      }
    }
  }

  /** The normal form is the representative without adjacent repetitions. */
  lemma {:induction false} CollapseIsCanonical(xs: seq<Site>)
    ensures forall k :: 0 < k < |Collapse(xs)| ==> Collapse(xs)[k - 1] != Collapse(xs)[k]
    ensures StutterEquivalent(xs, Collapse(xs))
  {
    var path := ChainToCollapse(xs);
    if |xs| > 1 {
      CollapseIsCanonical(xs[..|xs| - 1]);
      CollapseProps(xs[..|xs| - 1]);
    }
  }

  function Reverse(path: seq<seq<Site>>): (r: seq<seq<Site>>)
    ensures |r| == |path|
  {
    seq(|path|, k requires 0 <= k < |path| => path[|path| - 1 - k])
  }

  lemma ReverseChain(path: seq<seq<Site>>)
    requires StutterChain(path)
    ensures StutterChain(Reverse(path))
  {
  }

  lemma JoinChains(p: seq<seq<Site>>, q: seq<seq<Site>>)
    requires StutterChain(p) && StutterChain(q) && p[|p| - 1] == q[0]
    ensures StutterChain(p + q[1..])
    ensures (p + q[1..])[0] == p[0] && (p + q[1..])[|p| + |q| - 2] == q[|q| - 1]
  {
  }

  /** The normal forms agree exactly for stutter-equivalent lists. */
  lemma CollapseIffStutterEquivalent(xs: seq<Site>, ys: seq<Site>)
    ensures Collapse(xs) == Collapse(ys) <==> StutterEquivalent(xs, ys)
  {
    if Collapse(xs) == Collapse(ys) {
      var p := ChainToCollapse(xs);
      var q := ChainToCollapse(ys);
      ReverseChain(q);
      JoinChains(p, Reverse(q));
      var r := p + Reverse(q)[1..];
      assert StutterChain(r) && r[0] == xs && r[|r| - 1] == ys;
    }
    if StutterEquivalent(xs, ys) {
      var path :| StutterChain(path) && path[0] == xs && path[|path| - 1] == ys;
      ChainKeepsCollapse(path, |path| - 1);
    }
  }

  lemma {:induction false} FlattenInjective(xs: seq<Site>, ys: seq<Site>)
    requires Flatten(xs) == Flatten(ys)
    ensures xs == ys
  {
    FlattenLength(xs);
    FlattenLength(ys);
    if xs != [] {
      var n, a, b := |xs| - 1, Flatten(xs), Flatten(ys);
      FlattenLength(xs[..n]);
      FlattenLength(ys[..n]);
      assert a[..2 * n] == Flatten(xs[..n]) && b[..2 * n] == Flatten(ys[..n]);
      assert a[2 * n] == xs[n].0 && a[2 * n + 1] == xs[n].1;
      assert b[2 * n] == ys[n].0 && b[2 * n + 1] == ys[n].1;
      FlattenInjective(xs[..n], ys[..n]);
      assert xs == xs[..n] + [xs[n]] && ys == ys[..n] + [ys[n]];
    }
  }

  lemma {:induction false} FlattenLength(xs: seq<Site>)
    ensures |Flatten(xs)| == 2 * |xs|
  {
    if xs != [] {
      FlattenLength(xs[..|xs| - 1]);
    }
  }

  // ---- What counts in a trace

  predicate HasInApp(frames: seq<Frame>) {
    exists k :: 0 <= k < |frames| && frames[k].inApp
  }

  /** The sites a trace is known by: those of its in-app frames if it has any, else all. */
  function TraceSites(frames: seq<Frame>): seq<Site> {
    if HasInApp(frames) then Sites(FilterInApp(frames)) else Sites(frames)
  }

  lemma {:induction false} FilterEmptyIff(frames: seq<Frame>)
    ensures FilterInApp(frames) == [] <==> !HasInApp(frames)
  {
    if frames != [] {
      var n := |frames| - 1;
      FilterEmptyIff(frames[..n]);
      assert HasInApp(frames[..n]) ==> HasInApp(frames) by {
        if HasInApp(frames[..n]) {
          var k :| 0 <= k < n && frames[..n][k].inApp;
          assert frames[k].inApp;
        }
      }
    }
  }

  /** The signals of a trace are its sites, without adjacent repetitions, as module and function in turn. */
  lemma SignalsOfTrace(frames: seq<Frame>)
    ensures FrameComponents(frames) == Flatten(Collapse(TraceSites(frames)))
  {
    FilterEmptyIff(frames);
  }

  lemma FilterSnoc(frames: seq<Frame>, f: Frame)
    ensures FilterInApp(frames + [f]) == FilterInApp(frames) + if f.inApp then [f] else []
  {
    assert (frames + [f])[..|frames|] == frames;
  }

  lemma SitesSnoc(frames: seq<Frame>, f: Frame)
    ensures Sites(frames + [f]) == Sites(frames) + [(f.moduleName, f.funcName)]
  {
  }

  lemma FilterDropsLibraryFrame(a: seq<Frame>, f: Frame, b: seq<Frame>)
    requires !f.inApp
    ensures FilterInApp(a + [f] + b) == FilterInApp(a + b)
  {
    FilterInAppKeepsOrder(a, b);
    FilterInAppKeepsOrder(a + [f], b);
    FilterSnoc(a, f);
  }

  lemma StillHasInApp(a: seq<Frame>, f: Frame, b: seq<Frame>)
    requires HasInApp(a + b)
    ensures HasInApp(a + [f] + b)
  {
    var k :| 0 <= k < |a + b| && (a + b)[k].inApp;
    var moved := if k < |a| then k else k + 1;
    assert (a + [f] + b)[moved] == (a + b)[k];
  }

  /** Inserting a library frame anywhere into a trace with an in-app frame, or removing one, changes no signal. */
  lemma LibraryFramesDoNotMatter(a: seq<Frame>, f: Frame, b: seq<Frame>)
    requires !f.inApp && HasInApp(a + b)
    ensures FrameComponents(a + [f] + b) == FrameComponents(a + b)
  {
    StillHasInApp(a, f, b);
    FilterDropsLibraryFrame(a, f, b);
    SignalsOfTrace(a + [f] + b);
    SignalsOfTrace(a + b);
  }

  /** So such a frame does not change an event's fingerprint either. */
  lemma LibraryFramesKeepFingerprint(ev: Event, ev': Event, a: seq<Frame>, f: Frame, b: seq<Frame>,
                                     hash: string -> string)
    requires !f.inApp && HasInApp(a + b)
    requires (|ev.exceptions| > 0 <==> |ev'.exceptions| > 0) && AnchorText(ev) == AnchorText(ev')
    requires AnchorFrames(ev) == a + [f] + b && AnchorFrames(ev') == a + b
    ensures Fingerprint(ev, hash) == Fingerprint(ev', hash)
  {
    ComponentsShape(ev);
    ComponentsShape(ev');
    LibraryFramesDoNotMatter(a, f, b);
  }

  /** Only module, function and the in-app mark of each frame matter: files, lines and columns do not. */
  lemma PositionsDoNotMatter(f: seq<Frame>, g: seq<Frame>)
    requires |f| == |g|
    requires forall k :: 0 <= k < |f| ==> SameSite(f[k], g[k]) && f[k].inApp == g[k].inApp
    ensures FrameComponents(f) == FrameComponents(g)
  {
    SameFilteredSites(f, g);
    assert HasInApp(f) <==> HasInApp(g) by {
      assert forall k :: 0 <= k < |f| ==> f[k].inApp == g[k].inApp;
    }
    assert Sites(f) == Sites(g);
    SignalsOfTrace(f);
    SignalsOfTrace(g);
  }

  lemma {:induction false} SameFilteredSites(f: seq<Frame>, g: seq<Frame>)
    requires |f| == |g|
    requires forall k :: 0 <= k < |f| ==> SameSite(f[k], g[k]) && f[k].inApp == g[k].inApp
    ensures Sites(FilterInApp(f)) == Sites(FilterInApp(g))
  {
    if f != [] {
      var n := |f| - 1;
      SameFilteredSites(f[..n], g[..n]);
      assert f == f[..n] + [f[n]] && g == g[..n] + [g[n]];
      FilterSnoc(f[..n], f[n]);
      FilterSnoc(g[..n], g[n]);
      if f[n].inApp {
        SitesSnoc(FilterInApp(f[..n]), f[n]);
        SitesSnoc(FilterInApp(g[..n]), g[n]);
      }
    }
  }

  predicate SameSite(f: Frame, g: Frame) {
    f.moduleName == g.moduleName && f.funcName == g.funcName
  }

  /** Adding a frame to a trace all of whose frames are marked like it adds its module and function, or nothing. */
  lemma SignalsGrowBySite(frames: seq<Frame>, f: Frame)
    requires forall x :: x in frames ==> x.inApp == f.inApp
    ensures FrameComponents(frames + [f]) == FrameComponents(frames) +
            if frames != [] && SameSite(frames[|frames| - 1], f) then [] else [f.moduleName, f.funcName]
  {
    var sites, site := Sites(frames), (f.moduleName, f.funcName);
    UniformTrace(frames, f.inApp);
    UniformTrace(frames + [f], f.inApp);
    SitesSnoc(frames, f);
    SignalsSnoc(sites, site);
    if frames != [] {
      var n := |frames| - 1;
      assert sites[n] == (frames[n].moduleName, frames[n].funcName);
    }
  }

  lemma SignalsSnoc(sites: seq<Site>, site: Site)
    ensures Flatten(Collapse(sites + [site])) ==
            Flatten(Collapse(sites)) + if sites != [] && sites[|sites| - 1] == site then [] else [site.0, site.1]
  {
    if sites == [] {
      FlattenSnoc([], site);
      assert sites + [site] == [site];
    } else {
      CollapseSnoc(sites, site);
      FlattenSnoc(Collapse(sites), site);
    }
  }

  lemma UniformTrace(frames: seq<Frame>, inApp: bool)
    requires forall x :: x in frames ==> x.inApp == inApp
    ensures FrameComponents(frames) == Flatten(Collapse(Sites(frames)))
  {
    SignalsOfTrace(frames);
    if inApp {
      AllKept(frames);
    } else {
      assert forall k :: 0 <= k < |frames| ==> frames[k] in frames;
    }
  }

  lemma {:induction false} AllKept(frames: seq<Frame>)
    requires forall x :: x in frames ==> x.inApp
    ensures FilterInApp(frames) == frames
  {
    if frames != [] {
      var n := |frames| - 1;
      assert frames == frames[..n] + [frames[n]];
      AllKept(frames[..n]);
      FilterSnoc(frames[..n], frames[n]);
    }
  }

  /** Two traces normalise alike exactly if the sites they are known by are equal up to repeating adjacent ones. */
  lemma FramesGroupIff(f: seq<Frame>, g: seq<Frame>)
    ensures FrameComponents(f) == FrameComponents(g) <==> StutterEquivalent(TraceSites(f), TraceSites(g))
  {
    SignalsOfTrace(f);
    SignalsOfTrace(g);
    CollapseIffStutterEquivalent(TraceSites(f), TraceSites(g));
    if FrameComponents(f) == FrameComponents(g) {
      FlattenInjective(Collapse(TraceSites(f)), Collapse(TraceSites(g)));
    }
  }

  // ---- Whole events

  /** The frames an event is grouped on: those of its last exception, else those of the chosen thread. */
  function AnchorFrames(ev: Event): seq<Frame> {
    var trace := if |ev.exceptions| > 0 then ev.exceptions[|ev.exceptions| - 1].stacktrace
                 else CurrentThreadFrames(ev.threads);
    if trace.Some? then trace.value else []
  }

  /** The text an event is grouped on. */
  function AnchorText(ev: Event): string {
    if |ev.exceptions| > 0 then ev.exceptions[|ev.exceptions| - 1].typ else ev.message
  }

  /** Same kind of event, same type or message, and traces equal up to in-app filtering and recursion depth. */
  ghost predicate SameBug(a: Event, b: Event) {
    && (|a.exceptions| > 0 <==> |b.exceptions| > 0)
    && AnchorText(a) == AnchorText(b)
    && StutterEquivalent(TraceSites(AnchorFrames(a)), TraceSites(AnchorFrames(b)))
  }

  lemma ComponentsShape(ev: Event)
    ensures Components(ev) ==
            [if |ev.exceptions| > 0 then "exception" else "message", AnchorText(ev)] + FrameComponents(AnchorFrames(ev))
  {
  }

  lemma ComponentsIffSameBug(a: Event, b: Event)
    ensures Components(a) == Components(b) <==> SameBug(a, b)
  {
    ComponentsShape(a);
    ComponentsShape(b);
    var p, q := Components(a), Components(b);
    assert p[1] == AnchorText(a) && q[1] == AnchorText(b);
    assert p[2..] == FrameComponents(AnchorFrames(a)) && q[2..] == FrameComponents(AnchorFrames(b));
    assert p == p[..2] + p[2..] && q == q[..2] + q[2..];
    assert "exception"[0] != "message"[0];
    FramesGroupIff(AnchorFrames(a), AnchorFrames(b));
  }

  // ---- The string that is hashed

  predicate NulFree(parts: seq<string>) {
    forall p :: p in parts ==> NUL !in p
  }

  lemma SplitPoint(a: string, s: string, b: string, t: string)
    requires NUL !in a && NUL !in b && a + [NUL] + s == b + [NUL] + t
    ensures a == b && s == t
  {
    var u, v := a + [NUL] + s, b + [NUL] + t;
    assert u[|a|] == NUL && forall k :: 0 <= k < |a| ==> u[k] == a[k];
    assert v[|b|] == NUL && forall k :: 0 <= k < |b| ==> v[k] == b[k];
    assert |a| == |b|;
    assert u[..|a|] == a && v[..|b|] == b && u[|a| + 1..] == s && v[|b| + 1..] == t;
  }

  lemma JoinNulCons(x: string, rest: seq<string>)
    requires |rest| >= 1
    ensures JoinNul([x] + rest) == x + [NUL] + JoinNul(rest)
  {
  }

  lemma JoinedContainsNul(p: seq<string>)
    requires |p| >= 1 && NulFree(p)
    ensures NUL in JoinNul(p) <==> |p| > 1
  {
  }

  /** Joining with NUL loses nothing when no part contains NUL. */
  lemma {:induction false} JoinNulInjective(p: seq<string>, q: seq<string>)
    requires |p| >= 1 && |q| >= 1 && NulFree(p) && NulFree(q) && JoinNul(p) == JoinNul(q)
    ensures p == q
  {
    assert p[0] in p && q[0] in q;
    JoinedContainsNul(p);
    JoinedContainsNul(q);
    if |p| > 1 {
      SplitPoint(p[0], JoinNul(p[1..]), q[0], JoinNul(q[1..]));
      JoinNulInjective(p[1..], q[1..]);
      assert p == [p[0]] + p[1..] && q == [q[0]] + q[1..];
    }
  }

  ghost predicate Injective(hash: string -> string) {
    forall x, y :: hash(x) == hash(y) ==> x == y
  }

  /** With a collision-free hash, events without NUL characters share a fingerprint exactly if they are the same bug. */
  lemma FingerprintIffSameBug(a: Event, b: Event, hash: string -> string)
    requires Injective(hash) && NulFree(Components(a)) && NulFree(Components(b))
    ensures Fingerprint(a, hash) == Fingerprint(b, hash) <==> SameBug(a, b)
  {
    ComponentsIffSameBug(a, b);
    if Fingerprint(a, hash) == Fingerprint(b, hash) {
      JoinNulInjective(Components(a), Components(b));
    }
  }

  // ---- Which events the joined string identifies

  function Nuls(s: string): nat {
    if s == [] then 0 else (if s[0] == NUL then 1 else 0) + Nuls(s[1..])
  }

  lemma {:induction false} NulsAppend(a: string, b: string)
    ensures Nuls(a + b) == Nuls(a) + Nuls(b)
  {
    if a == [] {
      assert a + b == b;
    } else {
      assert (a + b)[1..] == a[1..] + b;
      NulsAppend(a[1..], b);
    }
  }

  /** A string with a NUL is cut at its first one. */
  lemma {:induction false} CutAtNul(s: string) returns (a: string, b: string)
    requires Nuls(s) > 0
    ensures s == a + [NUL] + b && NUL !in a && Nuls(b) == Nuls(s) - 1
  {
    if s[0] == NUL {
      a, b := [], s[1..];
    } else {
      var a', b' := CutAtNul(s[1..]);
      a, b := [s[0]] + a', b';
      assert s == [s[0]] + s[1..];
    }
  }

  /** Every join puts in one NUL between neighbours. */
  lemma {:induction false} JoinedHasNuls(parts: seq<string>)
    requires |parts| >= 1
    ensures Nuls(JoinNul(parts)) >= |parts| - 1
  {
    if |parts| > 1 {
      JoinedHasNuls(parts[1..]);
      NulsAppend(parts[0] + [NUL], JoinNul(parts[1..]));
      NulsAppend(parts[0], [NUL]);
      assert Nuls([NUL]) == 1;
    }
  }

  function Kind(ev: Event): (k: string)
    ensures NUL !in k
  {
    if |ev.exceptions| > 0 then "exception" else "message"
  }

  lemma KindsDiffer(a: Event, b: Event)
    ensures Kind(a) == Kind(b) <==> (|a.exceptions| > 0 <==> |b.exceptions| > 0)
  {
    assert "exception"[0] != "message"[0];
  }

  /** What is hashed: kind, NUL, and the rest. */
  lemma HashedShape(ev: Event) returns (rest: string)
    ensures JoinNul(Components(ev)) == Kind(ev) + [NUL] + rest
    ensures rest == if FrameComponents(AnchorFrames(ev)) == [] then AnchorText(ev)
                    else AnchorText(ev) + [NUL] + JoinNul(FrameComponents(AnchorFrames(ev)))
  {
    var frames := FrameComponents(AnchorFrames(ev));
    ComponentsShape(ev);
    var tail := [AnchorText(ev)] + frames;
    rest := JoinNul(tail);
    assert Components(ev) == [Kind(ev)] + tail;
    JoinNulCons(Kind(ev), tail);
    if frames != [] {
      JoinNulCons(AnchorText(ev), frames);
    }
  }

  /** An event of either kind with a given text and trace. */
  function MakeEvent(isException: bool, text: string, trace: Option<Stacktrace>): Event {
    if isException then Event("", None, "", "", "", [ExceptionValue(text, "", trace)], [], "")
    else Event("", None, "", "", text, [], [Thread(true, trace)], "")
  }

  lemma MadeEvent(isException: bool, text: string, trace: Option<Stacktrace>)
    ensures var ev := MakeEvent(isException, text, trace);
            && (|ev.exceptions| > 0 <==> isException) && AnchorText(ev) == text
            && AnchorFrames(ev) == if trace.Some? then trace.value else []
  {
  }

  /** A string with three NULs is hashed for two different bugs of its kind: with one frame, and with none. */
  lemma TwoReadings(isException: bool, rest: string) returns (b: Event, c: Event)
    requires Nuls(rest) >= 2
    ensures !SameBug(b, c)
    ensures Kind(b) == Kind(c) == if isException then "exception" else "message"
    ensures JoinNul(Components(b)) == Kind(b) + [NUL] + rest && JoinNul(Components(c)) == Kind(c) + [NUL] + rest
  {
    var x, more := CutAtNul(rest);
    var y, z := CutAtNul(more);
    b := MakeEvent(isException, rest, None);
    c := MakeEvent(isException, x, Some([Frame("", "", z, y, 0, 0, false)]));
    MadeEvent(isException, rest, None);
    MadeEvent(isException, x, Some([Frame("", "", z, y, 0, 0, false)]));
    OneFrame(y, z);
    assert FrameComponents([]) == [];
    JoinNulCons(y, [z]);
    var restB := HashedShape(b);
    var restC := HashedShape(c);
    assert restC == x + [NUL] + more == rest;
    ComponentsIffSameBug(b, c);
    ComponentsShape(b);
    ComponentsShape(c);
  }

  /** With at most two NULs in the hashed string there is no frame, and kind and text can be read off. */
  lemma FewNulsDetermineBug(a: Event, b: Event)
    requires JoinNul(Components(a)) == JoinNul(Components(b)) && Nuls(JoinNul(Components(a))) <= 2
    ensures SameBug(a, b)
  {
    JoinedHasNuls(Components(a));
    JoinedHasNuls(Components(b));
    ComponentsShape(a);
    ComponentsShape(b);
    FlattenLength(Collapse(Sites(Relevant(AnchorFrames(a)))));
    FlattenLength(Collapse(Sites(Relevant(AnchorFrames(b)))));
    var s := HashedShape(a);
    var t := HashedShape(b);
    SplitPoint(Kind(a), s, Kind(b), t);
    KindsDiffer(a, b);
    ComponentsIffSameBug(a, b);
  }

  /**
   Whatever NULs occur: with a collision-free hash, sharing an event's fingerprint means being the same bug exactly if
   the string hashed for it contains at most two NULs, so for no event with stack frames.
  */
  lemma FingerprintIdentifiesIff(a: Event, hash: string -> string)
    requires Injective(hash)
    ensures (forall b :: Fingerprint(a, hash) == Fingerprint(b, hash) ==> SameBug(a, b))
            <==> Nuls(JoinNul(Components(a))) <= 2
  {
    if Nuls(JoinNul(Components(a))) <= 2 {
      forall b | Fingerprint(a, hash) == Fingerprint(b, hash) ensures SameBug(a, b) {
        FewNulsDetermineBug(a, b);
      }
    } else {
      var rest := HashedShape(a);
      NulsAppend(Kind(a) + [NUL], rest);
      NulsAppend(Kind(a), [NUL]);
      NoNuls(Kind(a));
      assert Nuls([NUL]) == 1;
      var b, c := TwoReadings(|a.exceptions| > 0, rest);
      ComponentsIffSameBug(a, b);
      ComponentsIffSameBug(a, c);
      ComponentsIffSameBug(b, c);
      assert Fingerprint(a, hash) == Fingerprint(b, hash) == Fingerprint(c, hash);
    }
  }

  lemma {:induction false} NoNuls(s: string)
    requires NUL !in s
    ensures Nuls(s) == 0
  {
    if s != [] {
      NoNuls(s[1..]);
    }
  }

  /** A NUL inside a component can make different bugs collide, whatever the hash. */
  lemma NulCanCollide(hash: string -> string) returns (a: Event, b: Event)
    ensures !SameBug(a, b) && Fingerprint(a, hash) == Fingerprint(b, hash)
  {
    var rest := "T" + ([NUL] + ("m" + ([NUL] + "f")));
    NulsAppend("T", [NUL] + ("m" + ([NUL] + "f")));
    NulsAppend([NUL], "m" + ([NUL] + "f"));
    NulsAppend("m", [NUL] + "f");
    NulsAppend([NUL], "f");
    assert Nuls([NUL]) == 1;
    a, b := TwoReadings(true, rest);
  }

  lemma OneFrame(mod: string, fn: string)
    ensures FrameComponents([Frame("", "", fn, mod, 0, 0, false)]) == [mod] + [fn]
  {
    var frames := [Frame("", "", fn, mod, 0, 0, false)];
    assert FilterInApp(frames[..0]) == [] && FilterInApp(frames) == [];
    assert Sites(frames) == [] + [(mod, fn)];
    FlattenSnoc([], (mod, fn));
  }
}
