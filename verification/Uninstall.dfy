/** Removing the installed directories while leaving chosen paths, such as the upstream checkout, in place. */
module Uninstall {
  import opened Wrappers

  /** The components of an absolute path; containment between paths is lexical. */
  type Path = seq<string>

  /** `p` is `dir` or lies inside it. */
  predicate Within(p: Path, dir: Path) {
    |dir| <= |p| && p[..|dir|] == dir
  }

  /** `p in keep.parents` */
  predicate Above(p: Path, keep: Path) {
    |p| < |keep| && Within(keep, p)
  }

  /** Ancestor, descendant or the path itself. */
  predicate Related(p: Path, keep: Path) {
    Above(p, keep) || Within(p, keep)
  }

  predicate Kept(p: Path, preserve: seq<Path>) {
    exists i :: 0 <= i < |preserve| && Within(p, preserve[i])
  }

  predicate Leads(p: Path, preserve: seq<Path>) {
    exists i :: 0 <= i < |preserve| && Above(p, preserve[i])
  }

  /** Such an entry is not removed outright. */
  predicate Spared(e: Path, preserve: seq<Path>) {
    Kept(e, preserve) || Leads(e, preserve)
  }

  datatype Kind = Directory | Other

  /** What the file system holds: every path there is, and whether it is a directory. */
  type Files = map<Path, Kind>

  /** Everything under `target` is reached through directories. */
  ghost predicate Proper(files: Files, target: Path) {
    forall p, q :: p in files && Within(q, target) && Above(q, p) ==> q in files && files[q] == Directory
  }

  function Inside(files: Files, target: Path): set<Path> {
    set p | p in files && Within(p, target)
  }

  predicate IsDirectory(files: Files, p: Path) {
    p in files && files[p] == Directory
  }

  function Entries(files: Files, target: Path): set<Path> {
    set p | p in files && |p| == |target| + 1 && Within(p, target)
  }

  ghost predicate AnySpared(entries: set<Path>, preserve: seq<Path>) {
    exists e :: e in entries && Spared(e, preserve)
  }

  /** A directory keeps itself alive through an entry that is kept or leads to something kept. */
  ghost predicate Holds(files: Files, preserve: seq<Path>, p: Path) {
    AnySpared(Entries(files, p), preserve)
  }

  /** What is left of the contents of `target`, for any list of preserved paths, existing or not. */
  ghost predicate Survives(files: Files, preserve: seq<Path>, target: Path, p: Path) {
    (p != target && Kept(p, preserve)) || Holds(files, preserve, p)
  }

  ghost function Left(files: Files, preserve: seq<Path>, target: Path): Files {
    map p | p in files && (Within(p, target) ==> Survives(files, preserve, target, p)) :: files[p]
  }

  /** Where a preserved path may be looked for: what lies on the way to it, if there, is a directory. */
  ghost predicate Reachable(files: Files, preserve: seq<Path>) {
    forall p, i :: p in files && 0 <= i < |preserve| && Above(p, preserve[i]) ==> files[p] == Directory
  }

  /* ---------- Paths ---------- */

  /** One path is the other with nothing, or something, appended. */
  lemma PathsExact(p: Path, q: Path)
    ensures Within(p, q) <==> exists rest: Path :: p == q + rest
    ensures Above(p, q) <==> exists rest: Path :: rest != [] && q == p + rest
  {
    if Within(p, q) {
      assert p == q + p[|q|..];
    }
    if Above(p, q) {
      assert q == p + q[|p|..];
    }
  }

  lemma WithinTrans(p: Path, q: Path, r: Path)
    requires Within(p, q) && Within(q, r)
    ensures Within(p, r)
  {
  }

  /** Two paths that both hold a third are one inside the other. */
  lemma Comparable(p: Path, q: Path, r: Path)
    requires Within(p, q) && Within(p, r) && |q| <= |r|
    ensures Within(r, q)
  {
  }

  /** The entry of `target` that a path inside it goes through. */
  function EntryTo(p: Path, target: Path): (e: Path)
    requires Above(target, p)
    ensures |e| == |target| + 1 && Within(e, target) && Within(p, e)
  {
    assert p[..|target| + 1][..|target|] == p[..|target|];
    p[..|target| + 1]
  }

  lemma OneEntry(p: Path, target: Path, e: Path)
    requires Above(target, p) && |e| == |target| + 1 && Within(p, e)
    ensures e == EntryTo(p, target)
  {
  }

  /** An entry that is neither kept nor on the way to anything kept has nothing kept inside it. */
  lemma NothingInside(preserve: seq<Path>, e: Path, p: Path)
    requires Within(p, e) && !Kept(e, preserve) && !Leads(e, preserve)
    ensures !Kept(p, preserve) && !Leads(p, preserve)
  {
  }

  /* ---------- One directory ---------- */

  /** What the loop body leaves of one entry is what the rule for the whole directory says. */
  lemma EntrySurvives(files: Files, preserve: seq<Path>, target: Path, e: Path, p: Path)
    requires p in files && e in Entries(files, target) && Within(p, e)
    ensures Survives(files, preserve, target, p) <==>
            Kept(e, preserve) || (Leads(e, preserve) && Survives(files, preserve, e, p))
  {
  }

  /** Whether an entry is left alone, entered or removed depends only on what is inside it. */
  lemma HoldsLocally(files: Files, now: Files, preserve: seq<Path>, e: Path, p: Path)
    requires forall q :: Within(q, e) ==> (q in now <==> q in files)
    requires Within(p, e)
    ensures Holds(now, preserve, p) <==> Holds(files, preserve, p)
  {
  }

  /** What is there when some entries have been dealt with. */
  ghost predicate Remains(files: Files, preserve: seq<Path>, target: Path, done: set<Path>, p: Path) {
    Above(target, p) && EntryTo(p, target) in done ==> Survives(files, preserve, target, p)
  }

  ghost predicate Midway(files: Files, now: Files, preserve: seq<Path>, target: Path, done: set<Path>) {
    && (forall p :: p in now <==> p in files && Remains(files, preserve, target, done, p))
    && (forall p :: p in now ==> now[p] == files[p])
  }

  lemma Untouched(files: Files, now: Files, preserve: seq<Path>, target: Path, done: set<Path>, e: Path)
    requires Midway(files, now, preserve, target, done) && e in Entries(files, target) && e !in done
    ensures forall p :: Within(p, e) ==> (p in now <==> p in files)
  {
  }

  lemma Smaller(files: Files, now: Files, preserve: seq<Path>, target: Path, done: set<Path>, e: Path)
    requires Midway(files, now, preserve, target, done) && e in Entries(files, target) && target in files
    ensures Inside(now, e) < Inside(files, target)
  {
    var inside, all := Inside(now, e), Inside(files, target);
    forall p | p in inside
      ensures p in all
    {
      WithinTrans(p, e, target);
    }
    assert target in all && target !in inside;
  }

  /** An entry that leads to something kept can be entered as it was. */
  lemma CanEnter(files: Files, now: Files, preserve: seq<Path>, target: Path, done: set<Path>, e: Path)
    requires Midway(files, now, preserve, target, done) && e in Entries(files, target) && e !in done
    requires Proper(files, target) && Reachable(files, preserve) && Leads(e, preserve)
    ensures Proper(now, e) && Reachable(now, preserve) && e in now && now[e] == Directory
  {
    Untouched(files, now, preserve, target, done, e);
    forall p, q | p in now && Within(q, e) && Above(q, p)
      ensures q in now && now[q] == Directory
    {
      WithinTrans(q, e, target);
    }
    var i :| 0 <= i < |preserve| && Above(e, preserve[i]);
  }

  /** What handling an entry makes of the files. */
  ghost function Handled(files: Files, preserve: seq<Path>, e: Path): Files {
    if Kept(e, preserve) then files
    else if Leads(e, preserve) then Left(files, preserve, e)
    else Without(files, e)
  }

  function Without(files: Files, target: Path): Files {
    map p | p in files && !Within(p, target) :: files[p]
  }

  /** Dealing with one entry more. */
  lemma OneMore(files: Files, now: Files, preserve: seq<Path>, target: Path, done: set<Path>, e: Path)
    requires Midway(files, now, preserve, target, done) && e in Entries(files, target) && e !in done
    ensures Midway(files, Handled(now, preserve, e), preserve, target, done + {e})
  {
    var after := Handled(now, preserve, e);
    Untouched(files, now, preserve, target, done, e);
    forall p
      ensures p in after <==> p in files && Remains(files, preserve, target, done + {e}, p)
    {
      if Within(p, e) {
        WithinTrans(p, e, target);
        OneEntry(p, target, e);
        HoldsLocally(files, now, preserve, e, p);
        if p in files {
          EntrySurvives(files, preserve, target, e, p);
        }
      }
    }
  }

  /** All entries dealt with: the rule holds, except that the directory itself must still go if nothing was kept. */
  lemma EndsAt(files: Files, now: Files, preserve: seq<Path>, target: Path, p: Path)
    requires Proper(files, target)
    requires p in now <==> p in files && Remains(files, preserve, target, Entries(files, target), p)
    ensures p in Left(files, preserve, target) <==> p in now && (Within(p, target) ==> Holds(files, preserve, target))
  {
    if p in files && Within(p, target) && p != target {
      assert Above(target, p);
      var e := EntryTo(p, target);
      assert e == p || Above(e, p);
      assert e in Entries(files, target);
      EntrySurvives(files, preserve, target, e, p);
    }
  }

  lemma AllDone(files: Files, now: Files, preserve: seq<Path>, target: Path)
    requires Midway(files, now, preserve, target, Entries(files, target)) && Proper(files, target)
    ensures Left(files, preserve, target) == if Holds(files, preserve, target) then now else Without(now, target)
  {
    var left, holds := Left(files, preserve, target), Holds(files, preserve, target);
    forall p
      ensures p in left <==> p in now && (Within(p, target) ==> holds)
      ensures p in left ==> left[p] == now[p]
    {
      EndsAt(files, now, preserve, target, p);
    }
    SameFiles(left, now, target, holds);
  }

  lemma SameFiles(left: Files, now: Files, target: Path, holds: bool)
    requires forall p :: p in left <==> p in now && (Within(p, target) ==> holds)
    requires forall p :: p in left ==> left[p] == now[p]
    ensures left == if holds then now else Without(now, target)
  {
  }

  lemma SparedMore(entries: set<Path>, preserve: seq<Path>, e: Path)
    ensures AnySpared(entries + {e}, preserve) <==> AnySpared(entries, preserve) || Spared(e, preserve)
  {
  }

  lemma TakeOne(all: set<Path>, todo: set<Path>, done: set<Path>, e: Path)
    requires done <= all && todo == all - done && e in todo
    ensures done + {e} <= all && todo - {e} == all - (done + {e})
  {
  }

  lemma NextEntry(files: Files, now: Files, preserve: seq<Path>, target: Path, done: set<Path>, e: Path)
    requires Midway(files, now, preserve, target, done) && e in Entries(files, target) && e !in done && target in files
    ensures Midway(files, Handled(now, preserve, e), preserve, target, done + {e})
    ensures AnySpared(done + {e}, preserve) <==> AnySpared(done, preserve) || Spared(e, preserve)
    ensures Inside(now, e) < Inside(files, target)
  {
    OneMore(files, now, preserve, target, done, e);
    SparedMore(done, preserve, e);
    Smaller(files, now, preserve, target, done, e);
  }

  lemma NothingBelow(files: Files, target: Path, e: Path)
    requires Proper(files, target) && e in Entries(files, target) && files[e] != Directory
    ensures forall p :: p in files && Within(p, e) ==> p == e
  {
  }

  /* ---------- All the directories of an installation ---------- */

  ghost predicate Separate(targets: seq<Path>) {
    forall i, j :: 0 <= i < |targets| && 0 <= j < |targets| && i != j ==> !Within(targets[i], targets[j])
  }

  /** What stays of a target: only what is on the way to the preserved path or inside it, if that lies in the target;
      otherwise nothing, unless the target is no directory. */
  predicate StaysIn(files: Files, target: Path, preserve: Option<Path>, p: Path) {
    if preserve.Some? && Within(preserve.value, target) then Related(p, preserve.value)
    else !IsDirectory(files, target)
  }

  ghost predicate Stays(files: Files, targets: seq<Path>, preserve: Option<Path>, p: Path) {
    forall t :: t in targets && Within(p, t) ==> StaysIn(files, t, preserve, p)
  }

  lemma StaysMore(files: Files, targets: seq<Path>, preserve: Option<Path>, t: Path, p: Path)
    ensures Stays(files, targets + [t], preserve, p)
            <==> Stays(files, targets, preserve, p) && (Within(p, t) ==> StaysIn(files, t, preserve, p))
  {
  }

  /** What is there after the targets have been dealt with: nothing else is touched. */
  ghost predicate Cleared(files: Files, now: Files, targets: seq<Path>, preserve: Option<Path>) {
    && (forall p :: p in now <==> p in files && Stays(files, targets, preserve, p))
    && (forall p :: p in now ==> now[p] == files[p])
  }

  lemma EntriesKept(files: Files, preserve: seq<Path>, i: nat)
    requires i < |preserve|
    ensures Holds(files, preserve, preserve[i]) <==> Entries(files, preserve[i]) != {}
  {
  }

  /** Of a target with an existing path to preserve in it, exactly what is related to that path survives. */
  lemma SurvivorsExact(files: Files, target: Path, preserve: seq<Path>, p: Path)
    requires Proper(files, target) && p in files && Within(p, target)
    requires forall i :: 0 <= i < |preserve| ==> preserve[i] in files && Within(preserve[i], target)
    ensures Survives(files, preserve, target, p) <==>
            && (exists i :: 0 <= i < |preserve| && Related(p, preserve[i]))
            && !(p == target && target in preserve && Entries(files, target) == {})
  {
    if Leads(p, preserve) {
      var i :| 0 <= i < |preserve| && Above(p, preserve[i]);
      var e := EntryTo(preserve[i], p);
      WithinTrans(e, p, target);
      assert e == preserve[i] || Above(e, preserve[i]);
      assert e in Entries(files, p) && Spared(e, preserve);
      assert Related(p, preserve[i]);
    } else if Holds(files, preserve, p) {
      var e :| e in Entries(files, p) && Spared(e, preserve);
      if !Kept(p, preserve) {
        NothingInside(preserve, p, e);
      }
      var i :| 0 <= i < |preserve| && Within(p, preserve[i]);
      assert Related(p, preserve[i]);
    } else if Kept(p, preserve) {
      var i :| 0 <= i < |preserve| && Within(p, preserve[i]);
      assert Related(p, preserve[i]);
      if p == target {
        assert preserve[i] == target;
        EntriesKept(files, preserve, i);
      }
    }
  }

  /** The documented promise, that what is related to a preserved path survives and nothing else does, is kept
      exactly when the target is not itself a preserved directory with nothing in it. */
  lemma PromiseExact(files: Files, target: Path, preserve: seq<Path>)
    requires Proper(files, target) && target in files
    requires forall i :: 0 <= i < |preserve| ==> preserve[i] in files && Within(preserve[i], target)
    ensures (forall p ::
               p in files && Within(p, target)
               ==> (Survives(files, preserve, target, p) <==> RelatedToSome(p, preserve)))
            <==> !(target in preserve && Entries(files, target) == {})
  {
    forall p | p in files && Within(p, target)
      ensures Survives(files, preserve, target, p) <==>
              RelatedToSome(p, preserve) && !(p == target && target in preserve && Entries(files, target) == {})
    {
      SurvivorsExact(files, target, preserve, p);
    }
    if target in preserve {
      var i :| 0 <= i < |preserve| && preserve[i] == target;
      assert Related(target, preserve[i]) && RelatedToSome(target, preserve);
    }
  }

  predicate RelatedToSome(p: Path, preserve: seq<Path>) {
    exists i :: 0 <= i < |preserve| && Related(p, preserve[i])
  }

  /** A preserved directory that is empty is removed. */
  lemma EmptyPreservedGoes()
    ensures var dir: Path := ["srv"];
            Left(map[dir := Directory], [dir], dir) == map[]
  {
  }

  lemma TargetUntouched(files: Files, now: Files, targets: seq<Path>, preserve: Option<Path>, i: nat)
    requires i < |targets| && Separate(targets) && Cleared(files, now, targets[..i], preserve) && Proper(files, [])
    ensures forall p :: Within(p, targets[i]) ==> (p in now <==> p in files)
    ensures Proper(now, targets[i])
  {
  }

  lemma CanClear(files: Files, now: Files, target: Path, upstream: Path)
    requires Proper(files, []) && Proper(now, target) && forall p :: p in now ==> p in files && now[p] == files[p]
    requires upstream in files && target in now && Above(target, upstream)
    ensures IsDirectory(now, target) && Reachable(now, [upstream])
  {
  }

  /** What is done with one target. */
  ghost function Emptied(files: Files, target: Path, preserve: Option<Path>): Files {
    if target !in files then files
    else if preserve.Some? && Within(preserve.value, target) then Left(files, [preserve.value], target)
    else if IsDirectory(files, target) then Without(files, target)
    else files
  }

  lemma EmptiedExact(files: Files, target: Path, preserve: Option<Path>, p: Path)
    requires Proper(files, target)
    requires preserve.Some? && Within(preserve.value, target) ==> preserve.value in files && preserve.value != target
    ensures p in Emptied(files, target, preserve)
      <==> p in files && (Within(p, target) ==> StaysIn(files, target, preserve, p))
  {
    if p in files && Within(p, target) {
      assert p == target || Above(target, p);
      assert target in files;
      if preserve.Some? && Within(preserve.value, target) {
        SurvivorsExact(files, target, [preserve.value], p);
        assert Related(p, [preserve.value][0]) <==> Related(p, preserve.value);
      }
    }
  }

  lemma NextAt(files: Files, now: Files, done: seq<Path>, target: Path, preserve: Option<Path>, p: Path)
    requires Proper(now, target) && IsDirectory(now, target) == IsDirectory(files, target)
    requires p in now <==> p in files && Stays(files, done, preserve, p)
    requires preserve.Some? && Within(preserve.value, target) ==> preserve.value in now && preserve.value != target
    ensures p in Emptied(now, target, preserve) <==> p in files && Stays(files, done + [target], preserve, p)
    ensures p in Emptied(now, target, preserve) ==> p in now && Emptied(now, target, preserve)[p] == now[p]
  {
    EmptiedExact(now, target, preserve, p);
    StaysMore(files, done, preserve, target, p);
  }

  lemma NextTarget(files: Files, now: Files, done: seq<Path>, target: Path, preserve: Option<Path>)
    requires Cleared(files, now, done, preserve) && Proper(now, target)
    requires forall p :: Within(p, target) ==> (p in now <==> p in files)
    requires preserve.Some? ==> preserve.value in files && preserve.value != target
    ensures Cleared(files, Emptied(now, target, preserve), done + [target], preserve)
  {
    assert Within(target, target);
    forall p
      ensures p in Emptied(now, target, preserve) <==> p in files && Stays(files, done + [target], preserve, p)
      ensures p in Emptied(now, target, preserve) ==> p in now && Emptied(now, target, preserve)[p] == now[p]
    {
      NextAt(files, now, done, target, preserve, p);
    }
  }

  const INSTALL_ROOT: Path := ["opt", "aaa-platform"]
  const ETC_DIR: Path := ["etc", "aaa-platform"]
  const VAR_LIB: Path := ["var", "lib", "aaa-platform"]
  const LOG_DIR: Path := ["var", "log", "aaa-platform"]
  const UPSTREAM: Path := ["opt", "aaa-platform", "upstream", "event-driven-servers"]

  function Targets(keepLogs: bool): seq<Path> {
    if keepLogs then [INSTALL_ROOT, ETC_DIR, VAR_LIB] else [INSTALL_ROOT, ETC_DIR, VAR_LIB, LOG_DIR]
  }

  lemma TargetsSeparate(keepLogs: bool)
    ensures Separate(Targets(keepLogs)) && UPSTREAM !in Targets(keepLogs)
    ensures Above(INSTALL_ROOT, UPSTREAM)
    ensures forall t :: t in Targets(keepLogs) && t != INSTALL_ROOT ==> !Within(UPSTREAM, t)
  {
    assert "opt"[0] == 'o' && "etc"[0] == 'e' && "var"[0] == 'v' && "lib"[1] == 'i' && "log"[1] == 'o';
    assert INSTALL_ROOT[0] == "opt" && ETC_DIR[0] == "etc" && VAR_LIB[0] == "var" && LOG_DIR[0] == "var";
    assert VAR_LIB[1] == "lib" && LOG_DIR[1] == "log" && UPSTREAM[0] == "opt";
    assert forall p: Path, q: Path :: Within(p, q) && |q| >= 2 ==> p[0] == q[0] && p[1] == q[1];
  }

  /** What is left of the installation's directories without a checkout to keep: the logs are there exactly as they were
      if they are to be kept, the rest is gone, and nothing else was touched. */
  lemma WhatIsLeft(files: Files, now: Files, keepLogs: bool)
    requires Cleared(files, now, Targets(keepLogs), None)
    requires forall t :: t in Targets(keepLogs) && t in files ==> files[t] == Directory
    requires forall p :: p in files && p != [] ==> p[..|p| - 1] in files
    ensures forall p :: p in now <==>
              && p in files && !Within(p, ["opt", "aaa-platform"]) && !Within(p, ["etc", "aaa-platform"])
              && !Within(p, ["var", "lib", "aaa-platform"]) && (Within(p, ["var", "log", "aaa-platform"]) ==> keepLogs)
    ensures forall p :: p in now ==> now[p] == files[p]
  {
    forall p
      ensures p in files && Stays(files, Targets(keepLogs), None, p) <==>
              && p in files && !Within(p, ["opt", "aaa-platform"]) && !Within(p, ["etc", "aaa-platform"])
              && !Within(p, ["var", "lib", "aaa-platform"]) && (Within(p, ["var", "log", "aaa-platform"]) ==> keepLogs)
    {
      if p in files {
        StaysOutside(files, Targets(keepLogs), p);
        TargetsListed(keepLogs, p);
      }
    }
  }

  lemma StaysOutside(files: Files, targets: seq<Path>, p: Path)
    requires forall t :: t in targets && t in files ==> files[t] == Directory
    requires forall q :: q in files && q != [] ==> q[..|q| - 1] in files
    requires p in files
    ensures Stays(files, targets, None, p) <==> forall t :: t in targets ==> !Within(p, t)
  {
    forall t | t in targets && Within(p, t)
      ensures !StaysIn(files, t, None, p)
    {
      Ancestors(files, p, t);
    }
  }

  lemma TargetsListed(keepLogs: bool, p: Path)
    ensures (forall t :: t in Targets(keepLogs) ==> !Within(p, t)) <==>
            && !Within(p, ["opt", "aaa-platform"]) && !Within(p, ["etc", "aaa-platform"])
            && !Within(p, ["var", "lib", "aaa-platform"]) && (Within(p, ["var", "log", "aaa-platform"]) ==> keepLogs)
  {
    var ts := Targets(keepLogs);
    assert ts[0] in ts && ts[1] in ts && ts[2] in ts && (!keepLogs ==> ts[3] in ts);
  }

  lemma {:induction false} Ancestors(files: Files, p: Path, t: Path)
    requires forall q :: q in files && q != [] ==> q[..|q| - 1] in files
    requires p in files && Within(p, t)
    ensures t in files
    decreases |p|
  {
    if |p| > |t| {
      assert p[..|p| - 1][..|t|] == t;
      Ancestors(files, p[..|p| - 1], t);
    } else {
      assert p == t;
    }
  }

  /** A target that holds part of the checkout or of the way to it holds the whole checkout. */
  lemma HeldByCheckout(keepLogs: bool, p: Path, t: Path)
    requires Related(p, UPSTREAM) && t in Targets(keepLogs) && Within(p, t)
    ensures Within(UPSTREAM, t)
  {
    TargetsSeparate(keepLogs);
    if Above(p, UPSTREAM) {
      WithinTrans(UPSTREAM, p, t);
    } else {
      var root := INSTALL_ROOT;
      WithinTrans(p, UPSTREAM, root);
      if |t| <= |root| {
        Comparable(p, t, root);
      } else {
        Comparable(p, root, t);
      }
    }
  }

  /** After an uninstall that keeps the checkout: the checkout with all it holds and the way to it are as they were,
      nothing else is left of the installation, and nothing outside it was touched. */
  lemma CheckoutKept(files: Files, now: Files, keepLogs: bool)
    requires Cleared(files, now, Targets(keepLogs), Some(UPSTREAM))
    requires forall t :: t in Targets(keepLogs) && t in files ==> files[t] == Directory
    ensures forall p :: p in files && Related(p, ["opt", "aaa-platform", "upstream", "event-driven-servers"]) ==>
              p in now && now[p] == files[p]
    ensures forall p, t :: p in now && t in Targets(keepLogs) && t in files && Within(p, t) ==> Related(p, UPSTREAM)
    ensures forall p ::
              p in files && (forall t :: t in Targets(keepLogs) ==> !Within(p, t)) ==> p in now && now[p] == files[p]
  {
    forall p, t | p in files && Related(p, UPSTREAM) && t in Targets(keepLogs) && Within(p, t)
      ensures StaysIn(files, t, Some(UPSTREAM), p)
    {
      HeldByCheckout(keepLogs, p, t);
    }
  }

  class FileSystem {
    var files: Files

    constructor (files: Files)
      ensures this.files == files
    {
      this.files := files;
    }

    /** `rmtree` with errors ignored: nothing happens to what is not a directory. */
    method RemoveTree(target: Path)
      modifies this
      ensures files == if IsDirectory(old(files), target) then Without(old(files), target) else old(files)
    {
      if target in files && files[target] == Directory {
        files := map p | p in files && !Within(p, target) :: files[p];
      }
    }

    /** `unlink` */
    method Unlink(target: Path)
      modifies this
      ensures files == old(files) - {target}
    {
      files := files - {target};
    }

    /** `_remove_directory_preserving` */
    method RemovePreserving(target: Path, preserve: seq<Path>)
      requires Proper(files, target) && Reachable(files, preserve) && IsDirectory(files, target)
      modifies this
      ensures files == Left(old(files), preserve, target)
      decreases Inside(files, target), 0
    {
      ghost var was := files;
      ghost var done := {};
      var todo, keptAny := Entries(files, target), false;
      while todo != {}
        invariant done <= Entries(was, target) && todo == Entries(was, target) - done
        invariant keptAny <==> AnySpared(done, preserve)
        invariant Midway(was, files, preserve, target, done)
        decreases |todo|
      {
        var entry :| entry in todo;
        TakeOne(Entries(was, target), todo, done, entry);
        todo := todo - {entry};
        NextEntry(was, files, preserve, target, done, entry);
        var kept := HandleEntry(entry, preserve, was, target, done);
        keptAny := keptAny || kept;
        done := done + {entry};
      }
      AllDone(was, files, preserve, target);
      if !keptAny {
        RemoveTree(target);
      }
    }

    /** The three relationships: an entry is kept, entered or removed. */
    method HandleEntry(entry: Path, preserve: seq<Path>, ghost was: Files, ghost target: Path, ghost done: set<Path>)
      returns (kept: bool)
      requires Midway(was, files, preserve, target, done) && Proper(was, target) && Reachable(was, preserve)
      requires entry in Entries(was, target) && entry !in done
      modifies this
      ensures files == Handled(old(files), preserve, entry)
      ensures kept <==> Spared(entry, preserve)
      decreases Inside(files, entry), 1
    {
      kept := true;
      if Kept(entry, preserve) {
        return;
      }
      if Leads(entry, preserve) {
        CanEnter(was, files, preserve, target, done, entry);
        RemovePreserving(entry, preserve);
        return;
      }
      RemoveEntry(entry, was, preserve, target, done);
      kept := false;
    }

    method RemoveEntry(entry: Path, ghost was: Files, ghost preserve: seq<Path>, ghost target: Path,
                       ghost done: set<Path>)
      requires Midway(was, files, preserve, target, done) && Proper(was, target)
      requires entry in Entries(was, target) && entry !in done
      modifies this
      ensures files == Without(old(files), entry)
    {
      Untouched(was, files, preserve, target, done, entry);
      if files[entry] == Directory {
        RemoveTree(entry);
      } else {
        NothingBelow(was, target, entry);
        Unlink(entry);
      }
    }

    /** `_remove_directories`, for any targets none of which lies in another */
    method RemoveDirectories(targets: seq<Path>, upstream: Path, keepUpstream: bool)
      requires Proper(files, []) && Separate(targets) && upstream !in targets
      modifies this
      ensures Cleared(old(files), files, targets,
                      if keepUpstream && upstream in old(files) then Some(upstream) else None)
    {
      ghost var was := files;
      assert targets[..0] == [];
      var preserve := if keepUpstream && upstream in files then Some(upstream) else None;
      for i := 0 to |targets|
        invariant Cleared(was, files, targets[..i], preserve)
      {
        var target := targets[i];
        TargetUntouched(was, files, targets, preserve, i);
        NextTarget(was, files, targets[..i], target, preserve);
        assert targets[..i + 1] == targets[..i] + [target];
        if target in files {
          if preserve.Some? && Within(upstream, target) {
            CanClear(was, files, target, upstream);
            RemovePreserving(target, [upstream]);
          } else {
            RemoveTree(target);
          }
        }
      }
      assert targets[..|targets|] == targets;
    }

    /** `run_uninstall`, as far as directories go */
    method Uninstall(keepLogs: bool, keepUpstream: bool)
      requires Proper(files, [])
      modifies this
      ensures Cleared(old(files), files, Targets(keepLogs),
                      if keepUpstream && UPSTREAM in old(files) then Some(UPSTREAM) else None)
    {
      TargetsSeparate(keepLogs);
      RemoveDirectories(Targets(keepLogs), UPSTREAM, keepUpstream);
    }
  }
}
