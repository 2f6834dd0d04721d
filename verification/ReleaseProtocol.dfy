/**
 Publishers racing to release from the same main branch.  Each one checks that its
 checkout is the remote head, picks the next version, checks that its tag is free,
 commits locally and pushes branch and tag atomically.  In between others may push any
 commits of their own, which may change the VERSION file, and tag any commit they know.
 Nothing is assumed of the remote but that a push is atomic, moves main only forward and
 creates no tag that exists; whatever history and tags it begins with.
 */
module ReleaseProtocol {
  import opened Wrappers
  import opened Versions

  /** A commit and the version its VERSION file holds. */
  datatype Commit =
    | Ordinary(author: nat, file: Version)
    | Release(publisher: nat, file: Version)

  /** A commit with all its ancestors, oldest first: what a commit hash stands for. */
  type History = seq<Commit>

  datatype Remote = Remote(main: History, tags: map<Version, History>)

  datatype Phase =
    | Idle
    | Verified(head: History)
    | Chosen(head: History, version: Version)
    | Committed(head: History, version: Version)
    | Published(version: Version)
    | Failed

  datatype State = State(remote: Remote, phases: map<nat, Phase>)

  datatype Step =
    | CheckHead(p: nat, checkout: History)
    | CheckTag(p: nat, part: Part)
    | CommitVersion(p: nat)
    | Push(p: nat)
    | Stop(p: nat)
    | OtherPush(commits: seq<Commit>)
    | OtherTag(version: Version, history: History)

  /** The commit a publisher makes locally. */
  function Local(p: nat, head: History, v: Version): History {
    head + [Release(p, v)]
  }

  /** Fast-forward: main is an ancestor of (or equal to) what is pushed. */
  predicate FastForward(main: History, pushed: History) {
    main <= pushed
  }

  /** The remote accepts both refs or neither. */
  function AtomicPush(r: Remote, pushed: History, v: Version): Option<Remote> {
    if FastForward(r.main, pushed) && v !in r.tags then Some(Remote(pushed, r.tags[v := pushed])) else None
  }

  /** Commits that others can push: a publisher's commit exists only where it was made. */
  predicate AllOrdinary(commits: seq<Commit>) {
    forall c :: c in commits ==> c.Ordinary?
  }

  /** A history that others can tag, on main or off it. */
  predicate Known(main: History, history: History) {
    forall c :: c in history ==> c.Ordinary? || c in main
  }

  /** One step of one actor; a step that does not apply changes nothing. */
  function Next(s: State, step: Step): State {
    if step.OtherPush? then
      if AllOrdinary(step.commits) then s.(remote := s.remote.(main := s.remote.main + step.commits)) else s
    else if step.OtherTag? then
      if Known(s.remote.main, step.history) && step.version !in s.remote.tags
      then s.(remote := s.remote.(tags := s.remote.tags[step.version := step.history]))
      else s
    else if step.p !in s.phases then s
    else match step
      case CheckHead(p, checkout) =>
        if !s.phases[p].Idle? then s
        else s.(phases := s.phases[
               p := if checkout == s.remote.main && checkout != [] then Verified(checkout) else Failed])
      case CheckTag(p, part) =>
        if !s.phases[p].Verified? || s.phases[p].head == [] then s
        else
          var head := s.phases[p].head;
          var v := Bumped(head[|head| - 1].file, part);
          s.(phases := s.phases[p := if v in s.remote.tags then Failed else Chosen(head, v)])
      case CommitVersion(p) =>
        if !s.phases[p].Chosen? then s
        else s.(phases := s.phases[p := Committed(s.phases[p].head, s.phases[p].version)])
      case Push(p) =>
        if !s.phases[p].Committed? then s
        else
          var v := s.phases[p].version;
          (match AtomicPush(s.remote, Local(p, s.phases[p].head, v), v)
           case None => s.(phases := s.phases[p := Failed])
           case Some(r) => State(r, s.phases[p := Published(v)]))
      case Stop(p) =>
        if s.phases[p].Published? then s else s.(phases := s.phases[p := Failed])
  }

  function Run(s: State, steps: seq<Step>): State
    decreases |steps|
  {
    if steps == [] then s else Run(Next(s, steps[0]), steps[1..])
  }

  /* ---------- Invariant ---------- */

  ghost predicate HeadOk(r: Remote, head: History) {
    head != [] && head <= r.main
  }

  ghost predicate EndsWith(h: History, c: Commit) {
    h != [] && h[|h| - 1] == c
  }

  ghost predicate PhaseOk(r: Remote, p: nat, ph: Phase) {
    match ph
    case Idle => true
    case Failed => true
    case Verified(head) => HeadOk(r, head)
    case Chosen(head, v) => HeadOk(r, head) && Less(head[|head| - 1].file, v)
    case Committed(head, v) => HeadOk(r, head) && Less(head[|head| - 1].file, v)
    case Published(v) => v in r.tags && EndsWith(r.tags[v], Release(p, v)) && r.tags[v] <= r.main
  }

  /** No commit of the publisher has reached the remote. */
  ghost predicate Unseen(r: Remote, p: nat) {
    forall v :: Release(p, v) !in r.main && forall t :: t in r.tags ==> !EndsWith(r.tags[t], Release(p, v))
  }

  /** Along main from some place on, a release raises the version of the commit before it. */
  ghost predicate ReleasesRaise(h: History, from: nat) {
    forall i :: 0 < i && from <= i < |h| && h[i].Release? ==> Less(h[i - 1].file, h[i].file)
  }

  ghost predicate Inv(s: State, from: nat) {
    && s.remote.main != []
    && ReleasesRaise(s.remote.main, from)
    && forall p ::
         p in s.phases ==> PhaseOk(s.remote, p, s.phases[p]) && (s.phases[p].Published? || Unseen(s.remote, p))
  }

  /** How a run may begin: main is not empty, and the publishers are idle and none of their commits is known. */
  ghost predicate Initial(s: State) {
    s.remote.main != [] && forall p :: p in s.phases ==> s.phases[p].Idle? && Unseen(s.remote, p)
  }

  /** A push succeeds exactly when main is still the head that was checked and the tag is still free. */
  lemma PushExact(s: State, from: nat, p: nat)
    requires Inv(s, from) && p in s.phases && s.phases[p].Committed?
    ensures var head, v := s.phases[p].head, s.phases[p].version;
            AtomicPush(s.remote, Local(p, head, v), v).Some? <==> s.remote.main == head && v !in s.remote.tags
  {
    var head, v, main := s.phases[p].head, s.phases[p].version, s.remote.main;
    assert PhaseOk(s.remote, p, s.phases[p]) && Unseen(s.remote, p);
    assert Local(p, head, v)[|head|] == Release(p, v);
  }

  ghost predicate TagsKept(r: Remote, n: Remote) {
    forall v :: v in r.tags ==> v in n.tags && n.tags[v] == r.tags[v]
  }

  /** A publisher's knowledge survives whatever the others push. */
  lemma PhaseSurvives(r: Remote, n: Remote, p: nat, ph: Phase)
    requires PhaseOk(r, p, ph) && r.main <= n.main && TagsKept(r, n)
    ensures PhaseOk(n, p, ph)
  {
  }

  lemma OrdinaryRaiseNothing(main: History, commits: seq<Commit>, from: nat)
    requires ReleasesRaise(main, from) && AllOrdinary(commits)
    ensures ReleasesRaise(main + commits, from)
  {
    assert forall k :: 0 <= k < |commits| ==> commits[k] in commits;
  }

  lemma OthersKeepInv(s: State, from: nat, step: Step)
    requires Inv(s, from) && (step.OtherPush? || step.OtherTag?)
    ensures Inv(Next(s, step), from)
  {
    var n := Next(s, step);
    if step.OtherPush? && n != s {
      OrdinaryRaiseNothing(s.remote.main, step.commits, from);
    }
    forall p | p in n.phases
      ensures PhaseOk(n.remote, p, n.phases[p]) && (n.phases[p].Published? || Unseen(n.remote, p))
    {
      PhaseSurvives(s.remote, n.remote, p, s.phases[p]);
    }
  }

  lemma PushKeepsInv(s: State, from: nat, p: nat)
    requires Inv(s, from)
    ensures Inv(Next(s, Push(p)), from)
  {
    if p in s.phases && s.phases[p].Committed? {
      PushExact(s, from, p);
      var head, v := s.phases[p].head, s.phases[p].version;
      assert PhaseOk(s.remote, p, s.phases[p]);
      var pushed := Local(p, head, v);
      if AtomicPush(s.remote, pushed, v).Some? {
        var n := Next(s, Push(p));
        assert n.remote == Remote(pushed, s.remote.tags[v := pushed]);
        assert pushed[|pushed| - 1] == Release(p, v);
        forall q | q in n.phases && q != p
          ensures PhaseOk(n.remote, q, n.phases[q]) && (n.phases[q].Published? || Unseen(n.remote, q))
        {
          PhaseSurvives(s.remote, n.remote, q, s.phases[q]);
        }
      }
    }
  }

  lemma StepKeepsInv(s: State, from: nat, step: Step)
    requires Inv(s, from)
    ensures Inv(Next(s, step), from)
  {
    match step
    case OtherPush(_) => OthersKeepInv(s, from, step);
    case OtherTag(_, _) => OthersKeepInv(s, from, step);
    case Push(p) => PushKeepsInv(s, from, p);
    case CheckTag(p, part) =>
      if p in s.phases && s.phases[p].Verified? {
        var head := s.phases[p].head;
        assert PhaseOk(s.remote, p, s.phases[p]);
        BumpedLeast(head[|head| - 1].file, part);
      }
    case _ =>
  }

  /* ---------- Safety over every interleaving ---------- */

  ghost predicate BothPublished(s: State, p: nat, q: nat) {
    p in s.phases && q in s.phases && s.phases[p].Published? && s.phases[q].Published?
  }

  lemma StepMovesForward(s: State, step: Step)
    ensures TagsKept(s.remote, Next(s, step).remote)
    ensures s.remote.main <= Next(s, step).remote.main
  {
  }

  lemma {:induction false} RunKeepsInv(s: State, from: nat, steps: seq<Step>)
    requires Inv(s, from)
    ensures var n := Run(s, steps);
            Inv(n, from) && TagsKept(s.remote, n.remote) && s.remote.main <= n.remote.main
    decreases |steps|
  {
    if steps != [] {
      StepKeepsInv(s, from, steps[0]);
      StepMovesForward(s, steps[0]);
      RunKeepsInv(Next(s, steps[0]), from, steps[1..]);
    }
  }

  /** However the steps interleave, from whatever history and tags: no tag moves, main only grows, every release on it
      raises the version of the commit before it, no two publishers release the same version, and each published
      version is new and tags the publisher's own commit, on main. */
  lemma ReleasesAreSafe(s: State, steps: seq<Step>)
    requires Initial(s)
    ensures var n := Run(s, steps);
            && TagsKept(s.remote, n.remote)
            && s.remote.main <= n.remote.main
            && ReleasesRaise(n.remote.main, |s.remote.main|)
            && (forall p, q :: BothPublished(n, p, q) && n.phases[p].version == n.phases[q].version ==> p == q)
            && (forall p :: p in n.phases && n.phases[p].Published? ==>
                  var v := n.phases[p].version;
                  v !in s.remote.tags && v in n.remote.tags
                  && EndsWith(n.remote.tags[v], Release(p, v)) && n.remote.tags[v] <= n.remote.main)
  {
    var n := Run(s, steps);
    assert Inv(s, |s.remote.main|);
    RunKeepsInv(s, |s.remote.main|, steps);
    assert forall p :: p in n.phases ==> PhaseOk(n.remote, p, n.phases[p]);
    forall p | p in n.phases && n.phases[p].Published?
      ensures n.phases[p].version !in s.remote.tags
    {
      FreshStays(s, steps, p);
      assert Unseen(s.remote, p);
    }
  }

  /** The set of publishers never changes. */
  lemma {:induction false} FreshStays(s: State, steps: seq<Step>, p: nat)
    ensures p in Run(s, steps).phases <==> p in s.phases
    decreases |steps|
  {
    if steps != [] {
      FreshStays(Next(s, steps[0]), steps[1..], p);
    }
  }

  lemma {:induction false} RunMore(s: State, steps: seq<Step>, step: Step)
    ensures Run(s, steps + [step]) == Next(Run(s, steps), step)
    decreases |steps|
  {
    if steps == [] {
      assert [step][1..] == [] && [] + [step] == [step];
      assert Run(Next(s, step), []) == Next(s, step);
    } else {
      assert (steps + [step])[0] == steps[0] && (steps + [step])[1..] == steps[1..] + [step];
      RunMore(Next(s, steps[0]), steps[1..], step);
    }
  }

  /** At some moment of the run main was exactly this. */
  ghost predicate WasMain(s: State, steps: seq<Step>, head: History) {
    exists i :: 0 <= i <= |steps| && Run(s, steps[..i]).remote.main == head
  }

  /** At some moment of the run the version was untagged. */
  ghost predicate WasFree(s: State, steps: seq<Step>, v: Version) {
    exists i :: 0 <= i <= |steps| && v !in Run(s, steps[..i]).remote.tags
  }

  ghost predicate IsBump(head: History, v: Version) {
    head != [] && var last := head[|head| - 1].file;
                  v in {Bumped(last, Major), Bumped(last, Minor), Bumped(last, Patch), Bumped(last, Revision)}
  }

  ghost predicate Checked(s: State, steps: seq<Step>, head: History) {
    head != [] && WasMain(s, steps, head)
  }

  /** What a publisher goes by has been checked: the head it verified was main, and the version it chose, an increment
      of that head's, was free. */
  ghost predicate GoesByChecks(s: State, steps: seq<Step>, ph: Phase) {
    match ph
    case Idle => true
    case Verified(head) => Checked(s, steps, head)
    case Chosen(head, v) => Checked(s, steps, head) && WasFree(s, steps, v) && IsBump(head, v)
    case Committed(head, v) => Checked(s, steps, head) && WasFree(s, steps, v) && IsBump(head, v)
    case Published(v) => exists head :: Checked(s, steps, head) && WasFree(s, steps, v) && IsBump(head, v)
    case Failed => true
  }

  lemma MomentsStay(s: State, steps: seq<Step>, step: Step, ph: Phase)
    requires GoesByChecks(s, steps, ph)
    ensures GoesByChecks(s, steps + [step], ph)
  {
    MomentsGrow(s, steps, step);
  }

  lemma MomentsGrow(s: State, steps: seq<Step>, step: Step)
    ensures forall head :: WasMain(s, steps, head) ==> WasMain(s, steps + [step], head)
    ensures forall v :: WasFree(s, steps, v) ==> WasFree(s, steps + [step], v)
  {
    assert forall i :: 0 <= i <= |steps| ==> (steps + [step])[..i] == steps[..i];
  }

  lemma Now(s: State, steps: seq<Step>)
    ensures WasMain(s, steps, Run(s, steps).remote.main)
    ensures forall v :: v !in Run(s, steps).remote.tags ==> WasFree(s, steps, v)
  {
    assert steps[..|steps|] == steps;
  }

  /** In every run, of whatever length, nobody goes by anything it has not checked. */
  lemma {:induction false} ChecksAreMade(s: State, steps: seq<Step>, p: nat)
    requires p in s.phases && s.phases[p].Idle?
    ensures p in Run(s, steps).phases && GoesByChecks(s, steps, Run(s, steps).phases[p])
  {
    if steps != [] {
      var n := |steps| - 1;
      ChecksAreMade(s, steps[..n], p);
      assert steps == steps[..n] + [steps[n]];
      RunMore(s, steps[..n], steps[n]);
      MomentsStay(s, steps[..n], steps[n], Run(s, steps[..n]).phases[p]);
      NextCheck(s, steps[..n], steps[n], p);
    }
  }

  lemma NextCheck(s: State, steps: seq<Step>, step: Step, p: nat)
    requires p in Run(s, steps).phases
    requires GoesByChecks(s, steps + [step], Run(s, steps).phases[p])
    ensures p in Next(Run(s, steps), step).phases
    ensures GoesByChecks(s, steps + [step], Next(Run(s, steps), step).phases[p])
  {
    Now(s, steps);
    MomentsGrow(s, steps, step);
  }

  /** Of publishers that checked the same head, at most one gets its release onto main. */
  lemma OneWinnerPerHead(s: State, from: nat, p: nat, q: nat)
    requires Inv(s, from) && p in s.phases && q in s.phases && p != q
    requires s.phases[p].Committed? && s.phases[q].Committed? && s.phases[p].head == s.phases[q].head
    ensures var n := Next(Next(s, Push(p)), Push(q));
            !(n.phases[p].Published? && n.phases[q].Published?)
  {
    PushExact(s, from, p);
    PushKeepsInv(s, from, p);
    var m := Next(s, Push(p));
    if m.phases[p].Published? {
      PushExact(m, from, q);
    }
  }

  /* ---------- When others leave the VERSION file alone ---------- */

  /** Everybody else's commits keep the VERSION file as it is on main when they arrive. */
  ghost predicate Quiet(s: State, steps: seq<Step>)
    decreases |steps|
  {
    steps != [] ==>
      && (steps[0].OtherPush? && s.remote.main != [] ==>
            forall c :: c in steps[0].commits ==> c.file == s.remote.main[|s.remote.main| - 1].file)
      && Quiet(Next(s, steps[0]), steps[1..])
  }

  /** From some place on, a release raises the version and an ordinary commit keeps it. */
  ghost predicate Rising(h: History, from: nat) {
    forall i :: 0 < i && from <= i < |h| ==>
      if h[i].Release? then Less(h[i - 1].file, h[i].file) else h[i].file == h[i - 1].file
  }

  lemma {:induction false} RisingFiles(h: History, from: nat, i: nat, j: nat)
    requires Rising(h, from) && from <= i + 1 && i <= j < |h|
    ensures AtMost(h[i].file, h[j].file)
  {
    if i < j {
      RisingFiles(h, from, i, j - 1);
    }
  }

  lemma RisingStep(s: State, from: nat, step: Step)
    requires Inv(s, from) && Rising(s.remote.main, from) && Quiet(s, [step])
    ensures Rising(Next(s, step).remote.main, from)
  {
    StepKeepsInv(s, from, step);
  }

  lemma {:induction false} QuietKeepsRising(s: State, from: nat, steps: seq<Step>)
    requires Inv(s, from) && Rising(s.remote.main, from) && Quiet(s, steps)
    ensures Rising(Run(s, steps).remote.main, from)
    decreases |steps|
  {
    if steps != [] {
      assert [steps[0]][1..] == [];
      RisingStep(s, from, steps[0]);
      StepKeepsInv(s, from, steps[0]);
      QuietKeepsRising(Next(s, steps[0]), from, steps[1..]);
    }
  }

  /** Then versions along main strictly increase: a release exceeds every commit since the run began. */
  lemma QuietRunIncreases(s: State, steps: seq<Step>, i: nat, j: nat)
    requires Initial(s) && Quiet(s, steps)
    requires |s.remote.main| <= i + 1 && i < j < |Run(s, steps).remote.main| && Run(s, steps).remote.main[j].Release?
    ensures Less(Run(s, steps).remote.main[i].file, Run(s, steps).remote.main[j].file)
  {
    var from, main := |s.remote.main|, Run(s, steps).remote.main;
    assert Inv(s, from);
    QuietKeepsRising(s, from, steps);
    RisingFiles(main, from, i, j - 1);
  }

  /* ---------- What the tag check decides ---------- */

  /** Every tag is on main and names the version its commit holds. */
  ghost predicate TagsSound(r: Remote) {
    forall v :: v in r.tags ==> r.tags[v] != [] && r.tags[v] <= r.main && r.tags[v][|r.tags[v]| - 1].file == v
  }

  /** Where tags are on main and main only ever rose, no tag is ahead of the VERSION file. */
  lemma TagsBehindMain(r: Remote, v: Version)
    requires r.main != [] && Rising(r.main, 0) && TagsSound(r) && v in r.tags
    ensures AtMost(v, r.main[|r.main| - 1].file)
  {
    var t := r.tags[v];
    assert t[|t| - 1] == r.main[|t| - 1];
    RisingFiles(r.main, 0, |t| - 1, |r.main| - 1);
  }

  /** So there the head check alone decides a push. */
  lemma HeadDecides(s: State, from: nat, p: nat)
    requires Inv(s, from) && p in s.phases && s.phases[p].Committed?
    requires Rising(s.remote.main, 0) && TagsSound(s.remote)
    ensures var head, v := s.phases[p].head, s.phases[p].version;
            AtomicPush(s.remote, Local(p, head, v), v).Some? <==> s.remote.main == head
  {
    PushExact(s, from, p);
    assert PhaseOk(s.remote, p, s.phases[p]);
    if s.phases[p].version in s.remote.tags {
      TagsBehindMain(s.remote, s.phases[p].version);
    }
  }

  /** Elsewhere the tag can decide: somebody tags a commit that is not on main between the check and the push. */
  lemma TagDecides(v: Version, p: nat)
    ensures var next := Bumped(v, Revision);
            var s := State(Remote([Ordinary(0, v)], map[]), map[p := Idle]);
            var n := Run(s, [CheckHead(p, s.remote.main), CheckTag(p, Revision), CommitVersion(p),
                             OtherTag(next, [Ordinary(1, next)]), Push(p)]);
            Initial(s) && n.phases == map[p := Failed] && n.remote.main == s.remote.main
  {
    var next := Bumped(v, Revision);
    var s := State(Remote([Ordinary(0, v)], map[]), map[p := Idle]);
    var steps := [CheckHead(p, s.remote.main), CheckTag(p, Revision), CommitVersion(p),
                  OtherTag(next, [Ordinary(1, next)]), Push(p)];
    var s1 := Next(s, steps[0]);
    var s2 := Next(s1, steps[1]);
    var s3 := Next(s2, steps[2]);
    var s4 := Next(s3, steps[3]);
    assert s3.phases[p] == Committed(s.remote.main, next) && next in s4.remote.tags;
    assert steps[1..][1..] == steps[2..] && steps[2..][1..] == steps[3..];
    assert steps[3..][1..] == steps[4..] && steps[4..][1..] == [];
    assert Run(s, steps) == Run(s1, steps[1..]) == Run(s2, steps[2..]) == Run(s3, steps[3..]) == Run(s4, steps[4..]);
    assert Run(s4, steps[4..]) == Next(s4, Push(p));
  }

  /* ---------- One publisher, start to finish ---------- */

  function Uninterrupted(s: State, p: nat, checkout: History, part: Part): State {
    Next(Next(Next(Next(s, CheckHead(p, checkout)), CheckTag(p, part)), CommitVersion(p)), Push(p))
  }

  lemma UninterruptedIsRun(s: State, p: nat, checkout: History, part: Part)
    ensures Uninterrupted(s, p, checkout, part)
            == Run(s, [CheckHead(p, checkout), CheckTag(p, part), CommitVersion(p), Push(p)])
  {
    var steps := [CheckHead(p, checkout), CheckTag(p, part), CommitVersion(p), Push(p)];
    assert steps[1..] == [CheckTag(p, part), CommitVersion(p), Push(p)];
    assert steps[1..][1..] == [CommitVersion(p), Push(p)];
    assert steps[1..][1..][1..] == [Push(p)];
    var s3 := Next(Next(Next(s, steps[0]), steps[1]), steps[2]);
    assert Run(s3, [Push(p)]) == Next(s3, Push(p));
    assert Run(Next(Next(s, steps[0]), steps[1]), [CommitVersion(p), Push(p)]) == Run(s3, [Push(p)]);
  }

  datatype Refusal = NotClean | MainChanged | NoVersion | TagExists | PushRejected

  class Repository {
    var main: History
    var tags: map<Version, History>

    function Refs(): Remote
      reads this
    {
      Remote(main, tags)
    }

    /** `git push --atomic`: both refs move or neither does. */
    method PushAtomic(pushed: History, v: Version) returns (ok: bool)
      modifies this
      ensures ok <==> AtomicPush(old(Refs()), pushed, v).Some?
      ensures Refs() == if ok then AtomicPush(old(Refs()), pushed, v).value else old(Refs())
    {
      ok := FastForward(main, pushed) && v !in tags;
      if ok {
        main, tags := pushed, tags[v := pushed];
      }
    }

    /** `publish` in its default and prepare modes, with nobody interfering: the four protocol steps in a row. */
    method Publish(p: nat, clean: bool, checkout: History, part: Part, prepare: bool)
      returns (r: Result<Version, Refusal>, local: History)
      modifies this
      ensures clean && !prepare ==>
                Refs() == Uninterrupted(State(old(Refs()), map[p := Idle]), p, checkout, part).remote
      ensures r.Err? || prepare ==> Refs() == old(Refs())
      ensures r.Ok?
        <==> clean && checkout == old(main) != [] && Bumped(checkout[|checkout| - 1].file, part) !in old(tags)
      ensures r.Ok? ==> r.value == Bumped(checkout[|checkout| - 1].file, part) && local == Local(p, checkout, r.value)
      ensures r.Ok? && !prepare ==> main == local && tags == old(tags)[r.value := local]
    {
      local := checkout;
      if !clean {
        return Err(NotClean), local;
      }
      if checkout != main {
        return Err(MainChanged), local;
      }
      if checkout == [] {
        return Err(NoVersion), local;
      }
      var version := Bumped(checkout[|checkout| - 1].file, part);
      if version in tags {
        return Err(TagExists), local;
      }
      local := Local(p, checkout, version);
      if prepare {
        return Ok(version), local;
      }
      var ok := PushAtomic(local, version);
      return if ok then Ok(version) else Err(PushRejected), local;
    }
  }
}
