// Unpacking an archived ROM next to its archive: concurrent callers, and crashes at any step.
module Hydrator {
  import opened Basics

  // ---- names and places ----

  // An absolute path as its components.
  type Path = seq<string>

  // filepath.Join(dir, name) for a name without separators: the result is cleaned.
  function Join(dir: Path, name: string): Path {
    if name == "" || name == "." then dir
    else if name == ".." then if dir == [] then [] else dir[..|dir| - 1]
    else dir + [name]
  }

  // The archive's file name is its stem and an extension of three characters: ".7z" in either case. names are the files
  // it unpacks to, in the order of the walk and in lower case.
  datatype Archive = Archive(parent: Path, stem: string, extension: string, names: seq<string>)

  function ArchivePath(a: Archive): Path {
    a.parent + [a.stem + a.extension]
  }

  // The directory a multi-track dump is unpacked to.
  function TitleDir(a: Archive): Path {
    Join(a.parent, a.stem)
  }

  // Removing a directory removes everything whose path it starts.
  ghost predicate Inside(dir: Path, p: Path) {
    dir <= p
  }

  // Clearing the title directory takes the archive with it exactly when the file has nothing, one dot or two dots
  // before its extension.
  lemma ClearingTakesArchiveIff(a: Archive)
    requires |a.extension| == 3
    ensures Inside(TitleDir(a), ArchivePath(a)) <==> a.stem == "" || a.stem == "." || a.stem == ".."
  {
    var d, p := TitleDir(a), ArchivePath(a);
    if a.stem != "" && a.stem != "." && a.stem != ".." {
      assert d[|a.parent|] == a.stem && p[|a.parent|] == a.stem + a.extension;
      assert |a.stem + a.extension| == |a.stem| + 3;
    }
  }

  // ---- what an archive holds ----

  datatype Kind = DiscImage | Filesystem | Gdi | Cue | Unknown

  // What the name of an unpacked file says, in lower case.
  datatype Signal = IsImage | IsXbe | IsGdi | IsCue | IsOther

  function EndsWith(name: string, suffix: string): bool {
    |name| >= |suffix| && name[|name| - |suffix|..] == suffix
  }

  function SignalOf(name: string): Signal {
    if EndsWith(name, ".iso") || EndsWith(name, ".xiso") || EndsWith(name, ".chd") || EndsWith(name, ".cdi")
    then IsImage
    else if name == "default.xbe" then IsXbe
    else if EndsWith(name, ".gdi") then IsGdi
    else if EndsWith(name, ".cue") then IsCue
    else IsOther
  }

  lemma EndsWithIff(name: string, suffix: string)
    ensures EndsWith(name, suffix) <==> exists stem :: name == stem + suffix
  {
    if EndsWith(name, suffix) {
      assert name == name[..|name| - |suffix|] + suffix;
    }
    if stem :| name == stem + suffix {
      assert name[|stem|..] == suffix;
    }
  }

  lemma LastThree(name: string, suffix: string)
    requires |suffix| > 3
    ensures EndsWith(name, suffix) ==>
      var n, m := |name|, |suffix|;
      n > 3 && name[n - 1] == suffix[m - 1] && name[n - 2] == suffix[m - 2] && name[n - 3] == suffix[m - 3]
  {
    if EndsWith(name, suffix) {
      var tail := name[|name| - |suffix|..];
      assert tail[|suffix| - 1] == name[|name| - 1] && tail[|suffix| - 2] == name[|name| - 2];
      assert tail[|suffix| - 3] == name[|name| - 3];
    }
  }

  // The names that count, by their ends or, for the file of a file tree, in full.
  lemma SignalIff(name: string)
    ensures SignalOf(name).IsImage? <==>
      || (exists stem :: name == stem + ".iso") || (exists stem :: name == stem + ".xiso")
      || (exists stem :: name == stem + ".chd") || (exists stem :: name == stem + ".cdi")
    ensures SignalOf(name).IsXbe? <==> name == "default.xbe"
    ensures SignalOf(name).IsGdi? <==> exists stem :: name == stem + ".gdi"
    ensures SignalOf(name).IsCue? <==> exists stem :: name == stem + ".cue"
  {
    EndsWithIff(name, ".iso");
    EndsWithIff(name, ".xiso");
    EndsWithIff(name, ".chd");
    EndsWithIff(name, ".cdi");
    EndsWithIff(name, ".gdi");
    EndsWithIff(name, ".cue");
    LastThree(name, ".iso");
    LastThree(name, ".xiso");
    LastThree(name, ".chd");
    LastThree(name, ".cdi");
    LastThree(name, ".gdi");
    LastThree(name, ".cue");
    hide EndsWith;
  }

  ghost predicate Found(names: seq<string>, s: Signal) {
    exists i :: 0 <= i < |names| && SignalOf(names[i]) == s
  }

  // Disc images before file trees before gdi before cue.
  ghost function TreeKind(names: seq<string>): Kind {
    if Found(names, IsImage) then DiscImage
    else if Found(names, IsXbe) then Filesystem
    else if Found(names, IsGdi) then Gdi
    else if Found(names, IsCue) then Cue
    else Unknown
  }

  function KindOf(s: Signal): Kind {
    match s
    case IsImage => DiscImage
    case IsXbe => Filesystem
    case IsGdi => Gdi
    case IsCue => Cue
    case IsOther => Unknown
  }

  ghost predicate LastOf(names: seq<string>, n: nat, s: Signal, last: Option<nat>)
    requires n <= |names|
  {
    match last
    case None => forall i :: 0 <= i < n ==> SignalOf(names[i]) != s
    case Some(k) => k < n && SignalOf(names[k]) == s && forall i :: k < i < n ==> SignalOf(names[i]) != s
  }

  // classify: one walk over the unpacked files, keeping the last of each sort, and then the order of precedence.
  method Classify(names: seq<string>) returns (kind: Kind, chosen: Option<nat>)
    ensures kind == TreeKind(names)
    ensures chosen.None? <==> kind == Unknown
    ensures chosen.Some? ==> exists s :: KindOf(s) == kind && LastOf(names, |names|, s, chosen)
  {
    hide SignalOf;
    var image: Option<nat>, xbe: Option<nat>, gdi: Option<nat>, cue: Option<nat> := None, None, None, None;
    for n := 0 to |names|
      invariant LastOf(names, n, IsImage, image) && LastOf(names, n, IsXbe, xbe)
      invariant LastOf(names, n, IsGdi, gdi) && LastOf(names, n, IsCue, cue)
    {
      match SignalOf(names[n])
      case IsImage => image := Some(n);
      case IsXbe => xbe := Some(n);
      case IsGdi => gdi := Some(n);
      case IsCue => cue := Some(n);
      case IsOther =>
    }
    if image.Some? {
      kind, chosen := DiscImage, image;
      assert KindOf(IsImage) == kind;
    } else if xbe.Some? {
      kind, chosen := Filesystem, xbe;
      assert KindOf(IsXbe) == kind;
    } else if gdi.Some? {
      kind, chosen := Gdi, gdi;
      assert KindOf(IsGdi) == kind;
    } else if cue.Some? {
      kind, chosen := Cue, cue;
      assert KindOf(IsCue) == kind;
    } else {
      kind, chosen := Unknown, None;
    }
  }

  // An image decides before anything else, then a file tree, then a gdi, then a cue.
  lemma Precedence(names: seq<string>, name: string)
    requires name in names
    ensures SignalOf(name).IsImage? ==> TreeKind(names) == DiscImage
    ensures name == "default.xbe" ==> TreeKind(names) in {DiscImage, Filesystem}
    ensures SignalOf(name).IsGdi? ==> TreeKind(names) in {DiscImage, Filesystem, Gdi}
    ensures SignalOf(name).IsCue? ==> TreeKind(names) in {DiscImage, Filesystem, Gdi, Cue}
  {
    SignalIff(name);
    hide SignalOf;
    var i :| 0 <= i < |names| && names[i] == name;
    assert Found(names, SignalOf(names[i]));
  }

  ghost predicate MultiTrack(a: Archive) {
    TreeKind(a.names).Gdi? || TreeKind(a.names).Cue?
  }

  // Where the payload goes, chosen being the file that Classify picks: a disc image keeps its name, a file tree is
  // packed into one named after the archive, a multi-track dump gets the title directory.
  ghost function PayloadPath(a: Archive, chosen: nat): Path
    requires chosen < |a.names|
  {
    if TreeKind(a.names).DiscImage? then a.parent + [a.names[chosen]]
    else if TreeKind(a.names).Filesystem? then a.parent + [a.stem + ".xiso"]
    else TitleDir(a)
  }

  lemma SameComponent(dir: Path, x: string, y: string)
    ensures Inside(dir + [x], dir + [y]) <==> x == y
  {
    assert (dir + [x])[|dir|] == x && (dir + [y])[|dir|] == y;
  }

  lemma LastOfSuffix(name: string, suffix: string)
    requires suffix != []
    ensures EndsWith(name, suffix) ==> name != [] && name[|name| - 1] == suffix[|suffix| - 1]
  {
    assert EndsWith(name, suffix) ==> name[|name| - |suffix|..][|suffix| - 1] == name[|name| - 1];
  }

  lemma ImageName(name: string)
    requires SignalOf(name).IsImage?
    ensures name != [] && name[|name| - 1] != 'z' && name[|name| - 1] != 'Z'
  {
    LastOfSuffix(name, ".iso");
    LastOfSuffix(name, ".xiso");
    LastOfSuffix(name, ".chd");
    LastOfSuffix(name, ".cdi");
  }

  ghost predicate Clashes(a: Archive) {
    MultiTrack(a) && Inside(TitleDir(a), ArchivePath(a))
  }

  // The payload takes the place of the archive, or of a directory around it, only for a multi-track dump.
  lemma PayloadApart(a: Archive, chosen: nat)
    requires a.extension == ".7z" || a.extension == ".7Z"
    requires chosen < |a.names| && KindOf(SignalOf(a.names[chosen])) == TreeKind(a.names)
    requires TreeKind(a.names) != Unknown
    ensures Inside(PayloadPath(a, chosen), ArchivePath(a)) <==> Clashes(a)
  {
    hide SignalOf, TreeKind, Inside;
    var name, file := a.names[chosen], a.stem + a.extension;
    assert file[|file| - 1] == a.extension[2];
    SameComponent(a.parent, name, file);
    SameComponent(a.parent, a.stem + ".xiso", file);
    assert |a.stem + ".xiso"| != |file|;
    if TreeKind(a.names).DiscImage? { ImageName(name); }
  }

  // ---- the steps of Resolve ----

  // What lies where the payload belongs: nothing, something older, part of a payload, or all of it.
  datatype Payload = Absent | Stale | Partial | Complete

  // Where a call is. Everything after Waiting holds the mutex of the archive.
  datatype Pc = Idle | Waiting | Checking | Unpacking | Unpacked | Clearing | Moving | Copying | Finalised

  datatype World = World(archive: bool, payload: Payload, holder: Option<nat>, calls: seq<Pc>)

  ghost predicate Holds(pc: Pc) {
    !pc.Idle? && !pc.Waiting?
  }

  function Goes(w: World, i: nat, pc: Pc): World
    requires i < |w.calls|
  {
    w.(calls := w.calls[i := pc])
  }

  // The call returns, with a result or an error, and releases the mutex.
  function Returns(w: World, i: nat): World
    requires i < |w.calls|
  {
    w.(calls := w.calls[i := Idle], holder := None)
  }

  // RemoveAll on the title directory goes file by file and may fail half way. If the archive lies inside, it is
  // removed too, and so is the temporary directory, so that the move afterwards has nothing to move.
  ghost predicate Clears(a: Archive, w: World, i: nat, v: World)
    requires i < |w.calls|
  {
    var gone := Inside(TitleDir(a), ArchivePath(a));
    || v == w.(payload := Partial)
    || v == Returns(w.(payload := Partial), i)
    || (gone && (v == w.(archive := false) || v == Returns(w.(archive := false, payload := Absent), i)))
    || (!gone && v == Goes(w.(payload := Absent), i, Moving))
  }

  ghost predicate Step(a: Archive, w: World, i: nat, v: World)
    requires i < |w.calls|
  {
    match w.calls[i]
    case Idle => v == Goes(w, i, Waiting)
    case Waiting => w.holder.None? && v == Goes(w.(holder := Some(i)), i, Checking)
    case Checking =>
      // the archive is gone: look for the payload; otherwise make a temporary directory, which may fail
      v == Returns(w, i) || (w.archive && v == Goes(w, i, Unpacking))
    case Unpacking => v == Returns(w, i) || v == Goes(w, i, Unpacked)
    case Unpacked =>
      || v == Returns(w, i)
      || ((TreeKind(a.names).DiscImage? || TreeKind(a.names).Filesystem?) &&
          // the rename works, or the copy that replaces it creates the file
          (v == Goes(w.(payload := Complete), i, Finalised) || v == Goes(w.(payload := Partial), i, Copying)))
      // the title directory is cleared if it exists, as it does when the archive lies inside
      || (MultiTrack(a) &&
          v == Goes(w, i, if w.payload.Absent? && !Inside(TitleDir(a), ArchivePath(a)) then Moving else Clearing))
    case Copying => v == Returns(w, i) || v == Goes(w.(payload := Complete), i, Finalised)
    case Clearing => Clears(a, w, i, v)
    case Moving => v == Returns(w, i) || v == Goes(w.(payload := Complete), i, Finalised)
    case Finalised => v == Returns(w.(archive := false), i) || v == Returns(w, i)
  }

  // The process dies; its calls and its mutexes are gone, the disk stays.
  function Crashed(w: World): World {
    w.(holder := None, calls := seq(|w.calls|, _ => Idle))
  }

  ghost predicate Next(a: Archive, w: World, v: World) {
    v == Crashed(w) || exists i :: 0 <= i < |w.calls| && Step(a, w, i, v)
  }

  ghost predicate Initial(w: World) {
    w.archive && w.holder.None? && forall i :: 0 <= i < |w.calls| ==> w.calls[i].Idle?
  }

  ghost predicate IsRun(a: Archive, run: seq<World>) {
    |run| > 0 && Initial(run[0]) && forall k :: 0 <= k < |run| - 1 ==> Next(a, run[k], run[k + 1])
  }

  // ---- nothing is lost ----

  ghost predicate Safe(w: World) {
    w.archive || w.payload.Complete?
  }

  // The holder of the mutex is the only call inside, nobody works on an archive that is gone, and the archive is
  // removed only once the payload is complete.
  ghost predicate CallOk(a: Archive, w: World, pc: Pc, i: nat) {
    && (Holds(pc) <==> w.holder == Some(i))
    && (Holds(pc) && !pc.Checking? ==> w.archive)
    && (pc.Finalised? ==> w.payload.Complete?)
    && (pc.Clearing? || pc.Moving? ==> MultiTrack(a))
  }

  ghost predicate Inv(a: Archive, w: World) {
    Safe(w) && forall i :: 0 <= i < |w.calls| ==> CallOk(a, w, w.calls[i], i)
  }

  lemma CrashKeeps(a: Archive, w: World)
    requires Inv(a, w)
    ensures Inv(a, Crashed(w)) && (!w.archive ==> w.payload.Complete?)
  {
  }

  lemma StepKeeps(a: Archive, w: World, i: nat, v: World)
    requires Inv(a, w) && i < |w.calls| && Step(a, w, i, v) && !Clashes(a)
    ensures Inv(a, v)
    ensures !w.archive ==> !v.archive && v.payload.Complete?
  {
    hide TitleDir, ArchivePath, Inside, TreeKind;
    assert CallOk(a, w, w.calls[i], i);
    forall j | 0 <= j < |v.calls| ensures CallOk(a, v, v.calls[j], j) {
      assert CallOk(a, w, w.calls[j], j);
      if j != i { assert v.calls[j] == w.calls[j]; }
    }
  }

  lemma NextKeeps(a: Archive, w: World, v: World)
    requires Inv(a, w) && Next(a, w, v) && !Clashes(a)
    ensures Inv(a, v)
    ensures !w.archive ==> !v.archive && v.payload.Complete?
  {
    hide Inv, Step;
    if v == Crashed(w) {
      CrashKeeps(a, w);
    } else {
      var i :| 0 <= i < |w.calls| && Step(a, w, i, v);
      StepKeeps(a, w, i, v);
    }
  }

  lemma InitialHolds(a: Archive, w: World)
    requires Initial(w)
    ensures Inv(a, w)
  {
  }

  // In every interleaving of calls, with crashes at any step, the archive or the complete payload is on disk.
  lemma {:induction false} NeverLost(a: Archive, run: seq<World>, k: nat)
    requires IsRun(a, run) && k < |run| && !Clashes(a)
    ensures Inv(a, run[k])
  {
    hide Next, Inv;
    if k > 0 {
      NeverLost(a, run, k - 1);
      NextKeeps(a, run[k - 1], run[k]);
    } else {
      InitialHolds(a, run[0]);
    }
  }

  // Once the archive is removed it stays removed, the payload stays complete, and no call unpacks again.
  lemma {:induction false} RemovedForGood(a: Archive, run: seq<World>, k: nat, n: nat)
    requires IsRun(a, run) && k <= n < |run| && !Clashes(a) && !run[k].archive
    ensures !run[n].archive && run[n].payload.Complete?
    ensures forall i :: 0 <= i < |run[n].calls| ==> run[n].calls[i] in {Idle, Waiting, Checking}
    decreases n
  {
    hide Next;
    NeverLost(a, run, n);
    if n > k {
      RemovedForGood(a, run, k, n - 1);
      NeverLost(a, run, n - 1);
      NextKeeps(a, run[n - 1], run[n]);
    }
  }

  // A multi-track archive in its own title directory: clearing it removes the archive, and nothing is left.
  lemma LostByClearing(a: Archive) returns (run: seq<World>)
    requires Clashes(a)
    ensures IsRun(a, run) && !Safe(run[|run| - 1])
  {
    var w0 := World(true, Stale, None, [Idle]);
    var w1 := Goes(w0, 0, Waiting);
    var w2 := Goes(w1.(holder := Some(0)), 0, Checking);
    var w3 := Goes(w2, 0, Unpacking);
    var w4 := Goes(w3, 0, Unpacked);
    var w5 := Goes(w4, 0, Clearing);
    var w6 := Returns(w5.(archive := false, payload := Absent), 0);
    run := [w0, w1, w2, w3, w4, w5, w6];
    assert Step(a, w0, 0, w1) && Step(a, w1, 0, w2) && Step(a, w2, 0, w3) && Step(a, w3, 0, w4);
    assert Step(a, w4, 0, w5) && Step(a, w5, 0, w6);
  }

  // Every archive of a known kind can be resolved: a run that leaves the complete payload and no archive.
  lemma CanFinish(a: Archive) returns (run: seq<World>)
    requires TreeKind(a.names) != Unknown && !Clashes(a)
    ensures IsRun(a, run) && !run[|run| - 1].archive && run[|run| - 1].payload.Complete?
  {
    hide TreeKind, TitleDir, ArchivePath, Inside;
    var w0 := World(true, Absent, None, [Idle]);
    var w1 := Goes(w0, 0, Waiting);
    var w2 := Goes(w1.(holder := Some(0)), 0, Checking);
    var w3 := Goes(w2, 0, Unpacking);
    var w4 := Goes(w3, 0, Unpacked);
    assert Step(a, w0, 0, w1) && Step(a, w1, 0, w2) && Step(a, w2, 0, w3) && Step(a, w3, 0, w4);
    var w5 := if MultiTrack(a) then Goes(w4, 0, Moving) else Goes(w4.(payload := Complete), 0, Finalised);
    assert Step(a, w4, 0, w5);
    var w6 := if MultiTrack(a) then Goes(w5.(payload := Complete), 0, Finalised) else w5;
    var w7 := Returns(w6.(archive := false), 0);
    assert MultiTrack(a) ==> Step(a, w5, 0, w6);
    assert Step(a, w6, 0, w7);
    run := if MultiTrack(a) then [w0, w1, w2, w3, w4, w5, w6, w7] else [w0, w1, w2, w3, w4, w5, w7];
  }

  // Resolve never loses a game exactly for the archives that do not clash: disc images and file trees always,
  // multi-track dumps when the file name has something other than one or two dots before its extension.
  lemma SafeIff(a: Archive)
    requires |a.extension| == 3
    ensures (forall run, k :: IsRun(a, run) && 0 <= k < |run| ==> Safe(run[k]))
       <==> !(MultiTrack(a) && (a.stem == "" || a.stem == "." || a.stem == ".."))
  {
    ClearingTakesArchiveIff(a);
    hide IsRun;
    if Clashes(a) {
      var run := LostByClearing(a);
      assert 0 <= |run| - 1 < |run|;
    } else {
      forall run, k | IsRun(a, run) && 0 <= k < |run| ensures Safe(run[k]) {
        NeverLost(a, run, k);
      }
    }
  }
}
