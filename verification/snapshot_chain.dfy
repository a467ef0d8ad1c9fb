/** The commit chain of one (serial number, source): `commit_machine_snapshot_tree` as
    a protocol between transactions, each of which reads the head, inserts the next
    version under a unique constraint and updates the current snapshot. */
module SnapshotChain {
  import opened Wrappers

  type Snapshot = nat

  /** What a commit is asked to record. */
  datatype Request = Request(snapshot: Snapshot, lastSeen: int, uptime: Option<nat>)

  /** A row of the chain; `parent` is the version of the parent row. */
  datatype Commit = Commit(version: nat, parent: Option<nat>, request: Request)

  /** The committed rows by version, which is unique, and the current snapshot. */
  datatype Chain = Chain(commits: map<nat, Commit>, current: Option<Snapshot>)

  // ----- one transaction -----

  ghost predicate IsHead(commits: map<nat, Commit>, head: Option<Commit>) {
    match head
    case None => commits == map[]
    case Some(c) => c in commits.Values && forall v | v in commits :: commits[v].version <= c.version
  }

  /** The row to insert, if the request differs from the head. */
  function NewCommit(head: Option<Commit>, request: Request): Option<Commit> {
    match head
    case None => Some(Commit(1, None, request))
    case Some(c) => if c.request != request then Some(Commit(c.version + 1, Some(c.version), request)) else None
  }

  datatype Outcome =
    | Created(commit: Commit)  // the new commit is returned
    | Unchanged                // no new commit
    | SameRace                 // race lost against the same snapshot, no commit
    | RaceError                // race lost against another snapshot
    | Aborted                  // the transaction failed for another reason

  /** Where a transaction stands. */
  datatype Phase =
    | Read(request: Request, head: Option<Commit>)
    | Inserted(commit: Commit)
    | Kept(request: Request, same: Commit)
    | Lost(request: Request, version: nat)
    | Done(request: Request, outcome: Outcome)

  datatype State = State(chain: Chain, running: map<nat, Phase>)

  datatype Action =
    | Begin(p: nat, request: Request, head: Option<Commit>)
    | Insert(p: nat)
    | Publish(p: nat)
    | Abort(p: nat)
    | Resolve(p: nat)
    | Archive

  ghost predicate Holds(s: State, p: nat, version: nat) {
    p in s.running && s.running[p].Inserted? && s.running[p].commit.version == version
  }

  /** An insertion waits for another transaction that has inserted the same version. */
  ghost predicate Enabled(s: State, a: Action) {
    match a
    case Begin(p, request, head) => p !in s.running && IsHead(s.chain.commits, head)
    case Insert(p) =>
      p in s.running && s.running[p].Read? &&
      (match NewCommit(s.running[p].head, s.running[p].request)
       case None => true
       case Some(c) => forall q: nat :: !Holds(s, q, c.version))
    case Publish(p) => p in s.running && (s.running[p].Inserted? || s.running[p].Kept?)
    case Abort(p) => p in s.running && (s.running[p].Inserted? || s.running[p].Kept?)
    case Resolve(p) => p in s.running && s.running[p].Lost? && s.running[p].version in s.chain.commits
    case Archive => true
  }

  ghost function Next(s: State, a: Action): State
    requires Enabled(s, a)
  {
    match a
    case Begin(p, request, head) => s.(running := s.running[p := Read(request, head)])
    case Insert(p) => s.(running := s.running[p := AfterInsert(s.chain, s.running[p])])
    case Publish(p) =>
      (match s.running[p]
       case Inserted(c) =>
         State(Chain(s.chain.commits[c.version := c], Some(c.request.snapshot)),
             s.running[p := Done(c.request, Created(c))])
       case Kept(request, _) =>
         State(s.chain.(current := Some(request.snapshot)), s.running[p := Done(request, Unchanged)]))
    case Abort(p) => s.(running := s.running[p := Done(RequestOf(s.running[p]), Aborted)])
    case Resolve(p) => s.(running := s.running[p := Resolved(s.chain, s.running[p])])
    case Archive => s.(chain := s.chain.(current := None))
  }

  ghost function RequestOf(phase: Phase): Request {
    match phase
    case Inserted(c) => c.request
    case _ => phase.request
  }

  ghost function AfterInsert(chain: Chain, phase: Phase): Phase
    requires phase.Read?
  {
    match NewCommit(phase.head, phase.request)
    case None => Kept(phase.request, phase.head.value)
    case Some(c) => if c.version in chain.commits then Lost(phase.request, c.version) else Inserted(c)
  }

  /** The loser looks at the commit that took its version. */
  ghost function Resolved(chain: Chain, phase: Phase): Phase
    requires phase.Lost? && phase.version in chain.commits
  {
    Done(phase.request,
         if chain.commits[phase.version].request.snapshot == phase.request.snapshot then SameRace else RaceError)
  }

  ghost predicate IsRun(states: seq<State>, actions: seq<Action>) {
    && |states| == |actions| + 1
    && states[0] == State(Chain(map[], None), map[])
    && forall i | 0 <= i < |actions| :: Enabled(states[i], actions[i]) && states[i + 1] == Next(states[i], actions[i])
  }

  // ----- the invariant -----

  /** Versions are 1 to n without a gap, each has its predecessor as parent, and
      differs from it. */
  ghost predicate IsChain(commits: map<nat, Commit>) {
    && (forall v | v in commits :: 1 <= v <= |commits| && commits[v].version == v)
    && (forall v | 1 <= v <= |commits| :: v in commits)
    && (forall v {:trigger LinksBack(commits, v)} | v in commits :: LinksBack(commits, v))
  }

  ghost predicate LinksBack(commits: map<nat, Commit>, v: nat)
    requires v in commits
  {
    if v == 1 then commits[v].parent == None
    else
      v >= 1 && commits[v].parent == Some((v - 1) as nat) && v - 1 in commits &&
      commits[v - 1].request != commits[v].request
  }

  ghost predicate Known(commits: map<nat, Commit>, c: Commit) {
    c.version in commits && commits[c.version] == c
  }

  ghost predicate PhaseOk(s: State, p: nat)
    requires p in s.running
  {
    var commits := s.chain.commits;
    match s.running[p]
    case Read(_, head) => head.Some? ==> Known(commits, head.value)
    case Inserted(c) =>
      && c.version == |commits| + 1
      && (if c.version == 1 then c.parent == None
          else c.parent == Some(|commits|) && |commits| in commits && commits[|commits|].request != c.request)
      && forall q: nat | Holds(s, q, c.version) :: q == p
    case Kept(request, same) => Known(commits, same) && same.request == request
    case Lost(request, v) => v in commits
    case Done(request, Created(c)) => Known(commits, c) && c.request == request
    case Done(request, _) => true
  }

  /** The transaction that created a version. */
  ghost predicate CreatedBy(s: State, v: nat, p: nat)
    requires v in s.chain.commits
  {
    p in s.running && s.running[p] == Done(s.chain.commits[v].request, Created(s.chain.commits[v]))
  }

  /** Every version was created by exactly one transaction. */
  ghost predicate OneCreator(s: State) {
    && (forall v | v in s.chain.commits :: exists p :: CreatedBy(s, v, p))
    && (forall v, p, q | v in s.chain.commits && CreatedBy(s, v, p) && CreatedBy(s, v, q) :: p == q)
  }

  ghost predicate PhasesOk(s: State) {
    forall p {:trigger PhaseOk(s, p)} | p in s.running :: PhaseOk(s, p)
  }

  /** The current snapshot was committed. */
  ghost predicate CurrentKnown(chain: Chain) {
    chain.current.Some? ==> exists v :: v in chain.commits && chain.commits[v].request.snapshot == chain.current.value
  }

  ghost predicate Inv(s: State) {
    IsChain(s.chain.commits) && PhasesOk(s) && OneCreator(s) && CurrentKnown(s.chain)
  }

  lemma {:induction false} HeadOf(commits: map<nat, Commit>, head: Option<Commit>)
    requires IsChain(commits)
    ensures IsHead(commits, head) <==> head == (if commits == map[] then None else Some(commits[|commits|]))
  {
    if commits != map[] {
      var v :| v in commits;
      assert |commits| >= 1 && |commits| in commits;
      if head.Some? && IsHead(commits, head) {
        var w :| w in commits && commits[w] == head.value;
      }
    } else {
      assert |commits| == 0;
    }
  }

  lemma {:induction false} BegunOk(s: State, a: Action)
    requires Inv(s) && Enabled(s, a) && a.Begin?
    ensures PhaseOk(Next(s, a), a.p)
  {
    HeadOf(s.chain.commits, a.head);
  }

  lemma {:induction false} BeginKeeps(s: State, a: Action)
    requires Inv(s) && Enabled(s, a) && a.Begin?
    ensures Inv(Next(s, a))
  {
    BegunOk(s, a);
    PhaseStepKeeps(s, Next(s, a), a.p);
  }

  /** A step of one transaction that creates no version. */
  lemma {:induction false} PhaseStepKeeps(s: State, t: State, p: nat)
    requires Inv(s) && t.chain == s.chain
    requires t.running.Keys == s.running.Keys + {p} &&
             forall q | q in s.running && q != p :: t.running[q] == s.running[q]
    requires p in s.running ==> !(s.running[p].Done? && s.running[p].outcome.Created?)
    requires !(t.running[p].Done? && t.running[p].outcome.Created?)
    requires t.running[p].Inserted? ==> forall q: nat :: !Holds(s, q, t.running[p].commit.version)
    requires PhaseOk(t, p)
    ensures Inv(t)
  {
    OthersKeep(s, t, p);
  }

  /** The phases of the other transactions, when the chain stays and p holds no new row. */
  lemma {:induction false} OthersKeep(s: State, t: State, p: nat)
    requires Inv(s) && t.chain.commits == s.chain.commits
    requires t.running.Keys == s.running.Keys + {p} &&
             forall q | q in s.running && q != p :: t.running[q] == s.running[q]
    requires p in s.running ==> !(s.running[p].Done? && s.running[p].outcome.Created?)
    requires !(t.running[p].Done? && t.running[p].outcome.Created?)
    requires t.running[p].Inserted? ==> forall q: nat :: !Holds(s, q, t.running[p].commit.version)
    ensures forall q {:trigger PhaseOk(t, q)} | q in s.running && q != p :: PhaseOk(t, q)
    ensures OneCreator(t)
  {
    forall q {:trigger PhaseOk(t, q)} | q in s.running && q != p ensures PhaseOk(t, q) {
      assert PhaseOk(s, q);
      if t.running[q].Inserted? {
        var version := t.running[q].commit.version;
        assert Holds(s, q, version);
        forall r: nat | Holds(t, r, version) ensures r == q {
          assert r != p ==> Holds(s, r, version);
        }
      }
    }
    forall v | v in t.chain.commits ensures exists q :: CreatedBy(t, v, q) {
      var q :| CreatedBy(s, v, q);
      assert CreatedBy(t, v, q);
    }
    forall v, q, r | v in t.chain.commits && CreatedBy(t, v, q) && CreatedBy(t, v, r) ensures q == r {
      assert CreatedBy(s, v, q) && CreatedBy(s, v, r);
    }
  }

  lemma {:induction false} InsertKeeps(s: State, a: Action)
    requires Inv(s) && Enabled(s, a) && a.Insert?
    ensures Inv(Next(s, a))
  {
    assert PhaseOk(s, a.p);
    InsertedOk(s, Next(s, a), a.p);
    PhaseStepKeeps(s, Next(s, a), a.p);
  }

  lemma {:induction false} InsertedOk(s: State, t: State, p: nat)
    requires Inv(s) && Enabled(s, Insert(p)) && t == Next(s, Insert(p))
    ensures PhaseOk(t, p)
  {
    var commits, phase := s.chain.commits, s.running[p];
    assert PhaseOk(s, p);
    if t.running[p].Inserted? {
      var c := t.running[p].commit;
      forall q: nat | Holds(t, q, c.version) ensures q == p {
        assert q != p ==> Holds(s, q, c.version);
      }
      if phase.head.Some? {
        assert phase.head.value.version <= |commits|;
      } else {
        assert commits != map[] ==> 1 in commits by {
          assert commits == map[] || exists v :: v in commits;
        }
      }
    }
  }

  lemma {:induction false} AddKey(commits: map<nat, Commit>, v: nat, c: Commit)
    requires v !in commits
    ensures |commits[v := c]| == |commits| + 1
  {
    var after := commits[v := c];
    assert after.Keys == commits.Keys + {v};
    assert |after.Keys| == |after| && |commits.Keys| == |commits|;
  }

  lemma {:induction false} AddVersion(commits: map<nat, Commit>, c: Commit)
    requires IsChain(commits) && c.version == |commits| + 1
    requires if c.version == 1 then c.parent == None
             else c.parent == Some(|commits|) && |commits| in commits && commits[|commits|].request != c.request
    ensures IsChain(commits[c.version := c])
  {
    var after := commits[c.version := c];
    AddKey(commits, c.version, c);
    forall v {:trigger LinksBack(after, v)} | v in after ensures LinksBack(after, v) {
      if v != c.version {
        assert LinksBack(commits, v);
      }
    }
  }

  lemma {:induction false} PublishKeeps(s: State, a: Action)
    requires Inv(s) && Enabled(s, a) && a.Publish?
    ensures Inv(Next(s, a))
  {
    var t := Next(s, a);
    assert PhaseOk(s, a.p);
    if s.running[a.p].Kept? {
      OthersKeep(s, t, a.p);
      assert s.running[a.p].same.version in t.chain.commits;
    } else {
      PublishCreates(s, a.p);
    }
  }

  lemma {:induction false} PublishCreates(s: State, p: nat)
    requires Inv(s) && Enabled(s, Publish(p)) && s.running[p].Inserted?
    ensures Inv(Next(s, Publish(p)))
  {
    var t, c := Next(s, Publish(p)), s.running[p].commit;
    assert PhaseOk(s, p) && Holds(s, p, c.version);
    AddVersion(s.chain.commits, c);
    forall q | q in t.running ensures PhaseOk(t, q) {
      if q != p {
        assert PhaseOk(s, q);
        assert s.running[q].Inserted? ==> Holds(s, q, c.version);
      }
    }
    assert CreatedBy(t, c.version, p);
    forall v | v in t.chain.commits ensures exists q :: CreatedBy(t, v, q) {
      if v != c.version {
        var q :| CreatedBy(s, v, q);
        assert CreatedBy(t, v, q);
      }
    }
    forall v, q, r | v in t.chain.commits && CreatedBy(t, v, q) && CreatedBy(t, v, r) ensures q == r {
      CreatorBefore(s, t, p, c, v, q);
      CreatorBefore(s, t, p, c, v, r);
      if v != c.version {
        assert CreatedBy(s, v, q) && CreatedBy(s, v, r);
      }
    }
  }

  lemma {:induction false} CreatorBefore(s: State, t: State, p: nat, c: Commit, v: nat, q: nat)
    requires Inv(s) && p in s.running && s.running[p] == Inserted(c)
    requires t == Next(s, Publish(p)) && v in t.chain.commits && CreatedBy(t, v, q)
    ensures if v == c.version then q == p else v in s.chain.commits && CreatedBy(s, v, q)
  {
    assert PhaseOk(s, p);
    if q != p {
      assert PhaseOk(s, q);
    }
  }

  lemma {:induction false} EndKeeps(s: State, a: Action)
    requires Inv(s) && Enabled(s, a) && (a.Abort? || a.Resolve?)
    ensures Inv(Next(s, a))
  {
    PhaseStepKeeps(s, Next(s, a), a.p);
  }

  lemma {:induction false} ArchiveKeeps(s: State)
    requires Inv(s)
    ensures Inv(Next(s, Archive))
  {
    var t := Next(s, Archive);
    forall q | q in t.running ensures PhaseOk(t, q) {
      assert PhaseOk(s, q);
      forall r: nat, v | Holds(t, r, v) ensures Holds(s, r, v) {
      }
    }
    forall v | v in t.chain.commits ensures exists q :: CreatedBy(t, v, q) {
      var q :| CreatedBy(s, v, q);
      assert CreatedBy(t, v, q);
    }
    forall v, q, r | v in t.chain.commits && CreatedBy(t, v, q) && CreatedBy(t, v, r) ensures q == r {
      assert CreatedBy(s, v, q) && CreatedBy(s, v, r);
    }
  }

  lemma {:induction false} StepKeeps(s: State, a: Action)
    requires Inv(s) && Enabled(s, a)
    ensures Inv(Next(s, a))
  {
    match a
    case Begin(_, _, _) => BeginKeeps(s, a);
    case Insert(_) => InsertKeeps(s, a);
    case Publish(_) => PublishKeeps(s, a);
    case Archive => ArchiveKeeps(s);
    case _ => EndKeeps(s, a);
  }

  /** Whatever the interleaving, every state keeps the invariant. */
  lemma {:induction false} RunKeeps(states: seq<State>, actions: seq<Action>, i: nat)
    requires IsRun(states, actions) && i < |states|
    ensures Inv(states[i])
  {
    if i > 0 {
      RunKeeps(states, actions, i - 1);
      StepKeeps(states[i - 1], actions[i - 1]);
    }
  }

  // ----- losing the race -----

  /** Only a successful commit adds to the chain, one row with a new version. */
  lemma {:induction false} ChainGrows(s: State, a: Action)
    requires Inv(s) && Enabled(s, a)
    ensures var t := Next(s, a);
            if a.Publish? && s.running[a.p].Inserted? then
              && s.running[a.p].commit.version == |s.chain.commits| + 1
              && |s.chain.commits| + 1 !in s.chain.commits
              && t.chain.commits == s.chain.commits[s.running[a.p].commit.version := s.running[a.p].commit]
              && t.chain.current == Some(s.running[a.p].commit.request.snapshot)
            else t.chain.commits == s.chain.commits && (t.chain.current != s.chain.current ==> a.Publish? || a.Archive?)
  {
    if a.Publish? {
      assert PhaseOk(s, a.p);
    }
  }

  /** A commit loses the race only if the head moved since it was read; the commit that
      took its version is there to be looked at. */
  lemma {:induction false} LoserKnowsWinner(s: State, p: nat)
    requires Inv(s) && p in s.running
    ensures s.running[p].Lost? ==>
              && Enabled(s, Resolve(p))
              && exists winner :: CreatedBy(s, s.running[p].version, winner)
    ensures s.running[p].Lost? ==> forall winner | CreatedBy(s, s.running[p].version, winner) ::
              Next(s, Resolve(p)).running[p].outcome ==
              if s.running[winner].request.snapshot == s.running[p].request.snapshot then SameRace else RaceError
    ensures Enabled(s, Insert(p)) && Next(s, Insert(p)).running[p].Lost? ==> !IsHead(s.chain.commits, s.running[p].head)
  {
    assert PhaseOk(s, p);
    if Enabled(s, Insert(p)) && Next(s, Insert(p)).running[p].Lost? {
      HeadOf(s.chain.commits, s.running[p].head);
    }
  }

  // ----- the current snapshot -----

  /** The current snapshot, when there is one, is the one of the head. */
  ghost predicate Agrees(chain: Chain) {
    chain.current.Some? ==>
      && |chain.commits| in chain.commits
      && chain.current.value == chain.commits[|chain.commits|].request.snapshot
  }

  /** A transaction that read a head equal to its request, and is overtaken by a commit
      of another snapshot before it updates the current snapshot. */
  ghost predicate Overtaken(s: State, a: Action) {
    && a.Publish? && a.p in s.running && s.running[a.p].Kept?
    && |s.chain.commits| in s.chain.commits
    && s.chain.commits[|s.chain.commits|].request.snapshot != s.running[a.p].request.snapshot
  }

  /** The only step that takes the current snapshot away from the head. */
  lemma {:induction false} AgreesUnlessOvertaken(s: State, a: Action)
    requires Inv(s) && Enabled(s, a) && Agrees(s.chain)
    ensures Agrees(Next(s, a).chain) <==> !Overtaken(s, a)
  {
    if a.Publish? {
      assert PhaseOk(s, a.p);
      if s.running[a.p].Inserted? {
        PublishCreates(s, a.p);
        AddKey(s.chain.commits, s.running[a.p].commit.version, s.running[a.p].commit);
      } else {
        assert s.running[a.p].same.version in s.chain.commits;
      }
    }
  }

  const FIRST := Request(1, 100, None)
  const SECOND := Request(2, 200, None)

  /** It can happen: the head is read for a snapshot that has not changed, another
      snapshot is committed, and then the current snapshot is set back to the old one. */
  lemma {:induction false} OvertakenRun() returns (states: seq<State>, actions: seq<Action>)
    ensures IsRun(states, actions) && !Agrees(states[|states| - 1].chain)
  {
    var first := FirstCommitted();
    var rest := FirstOvertaken(first[3]);
    var c1 := Commit(1, None, FIRST);
    states := [first[0], first[1], first[2], first[3], rest[0], rest[1], rest[2], rest[3], rest[4], rest[5]];
    actions := [Begin(0, FIRST, None), Insert(0), Publish(0), Begin(1, FIRST, Some(c1)), Begin(2, SECOND, Some(c1)),
                Insert(2), Publish(2), Insert(1), Publish(1)];
  }

  ghost predicate Steps(s: State, a: Action, t: State) {
    Enabled(s, a) && t == Next(s, a)
  }

  lemma {:induction false} FirstCommitted() returns (t: seq<State>)
    ensures |t| == 4 && t[0] == State(Chain(map[], None), map[])
    ensures Steps(t[0], Begin(0, FIRST, None), t[1]) && Steps(t[1], Insert(0), t[2]) && Steps(t[2], Publish(0), t[3])
    ensures t[3].chain == Chain(map[1 := Commit(1, None, FIRST)], Some(1))
    ensures t[3].running.Keys == {0} && t[3].running[0].Done?
  {
    var s0 := State(Chain(map[], None), map[]);
    var s1 := Next(s0, Begin(0, FIRST, None));
    var s2 := Next(s1, Insert(0));
    var s3 := Next(s2, Publish(0));
    t := [s0, s1, s2, s3];
  }

  lemma {:induction false} FirstOvertaken(s: State) returns (t: seq<State>)
    requires s.chain == Chain(map[1 := Commit(1, None, FIRST)], Some(1))
    requires s.running.Keys == {0} && s.running[0].Done?
    ensures var c1 := Commit(1, None, FIRST);
            && |t| == 6
            && Steps(s, Begin(1, FIRST, Some(c1)), t[0]) && Steps(t[0], Begin(2, SECOND, Some(c1)), t[1])
            && Steps(t[1], Insert(2), t[2]) && Steps(t[2], Publish(2), t[3])
            && Steps(t[3], Insert(1), t[4]) && Steps(t[4], Publish(1), t[5])
            && !Agrees(t[5].chain)
  {
    var c1, c2 := Commit(1, None, FIRST), Commit(2, Some(1), SECOND);
    OnlyHead(c1);
    var s4 := Next(s, Begin(1, FIRST, Some(c1)));
    var s5 := Next(s4, Begin(2, SECOND, Some(c1)));
    var s6 := Next(s5, Insert(2));
    var s7 := Next(s6, Publish(2));
    assert s7.chain == Chain(map[1 := c1, 2 := c2], Some(2));
    var s8 := Next(s7, Insert(1));
    var s9 := Next(s8, Publish(1));
    assert |s9.chain.commits| == 2 && s9.chain.commits[2] == c2;
    t := [s4, s5, s6, s7, s8, s9];
  }

  lemma {:induction false} OnlyHead(c: Commit)
    requires c.version == 1
    ensures IsHead(map[1 := c], Some(c))
  {
    assert map[1 := c][1] == c;
  }

  // ----- serial runs -----

  function Head(commits: map<nat, Commit>): Option<Commit> {
    if |commits| in commits then Some(commits[|commits|]) else None
  }

  /** A commit that is not disturbed. */
  function CommitAlone(chain: Chain, request: Request): Chain {
    match NewCommit(Head(chain.commits), request)
    case None => chain.(current := Some(request.snapshot))
    case Some(c) => Chain(chain.commits[c.version := c], Some(request.snapshot))
  }

  /** The three steps of a transaction, with no other transaction holding a row. */
  ghost function Alone(s: State, p: nat, request: Request, head: Option<Commit>): (r: State)
    requires Enabled(s, Begin(p, request, head)) && forall q: nat, v: nat :: !Holds(s, q, v)
    requires match NewCommit(head, request) case None => true case Some(c) => c.version !in s.chain.commits
    ensures var s1 := Next(s, Begin(p, request, head));
            && Enabled(s1, Insert(p))
            && Enabled(Next(s1, Insert(p)), Publish(p))
            && r == Next(Next(s1, Insert(p)), Publish(p))
  {
    var s1 := Next(s, Begin(p, request, head));
    assert forall q: nat, v: nat | Holds(s1, q, v) :: Holds(s, q, v);
    Next(Next(s1, Insert(p)), Publish(p))
  }

  /** An undisturbed commit always succeeds and does what `CommitAlone` says. */
  lemma {:induction false} AloneCommits(s: State, p: nat, request: Request)
    requires Inv(s) && p !in s.running && forall q: nat, v: nat :: !Holds(s, q, v)
    ensures var head := Head(s.chain.commits);
            && Enabled(s, Begin(p, request, head))
            && (NewCommit(head, request).Some? ==> NewCommit(head, request).value.version !in s.chain.commits)
            && Alone(s, p, request, head).chain == CommitAlone(s.chain, request)
            && Alone(s, p, request, head).running[p].outcome ==
               (match NewCommit(head, request) case None => Unchanged case Some(c) => Created(c))
  {
    HeadOf(s.chain.commits, Head(s.chain.commits));
    assert s.chain.commits == map[] || exists v :: v in s.chain.commits;
  }

  /** Operations that follow one another: commits, and `archive`. */
  datatype Operation = CommitTree(request: Request) | ArchiveMachine

  function Performed(chain: Chain, o: Operation): Chain {
    match o
    case CommitTree(request) => CommitAlone(chain, request)
    case ArchiveMachine => chain.(current := None)
  }

  function PerformedAll(operations: seq<Operation>): Chain {
    if operations == [] then Chain(map[], None)
    else Performed(PerformedAll(operations[..|operations| - 1]), operations[|operations| - 1])
  }

  lemma {:induction false} CommitAloneKeeps(chain: Chain, request: Request)
    requires IsChain(chain.commits)
    ensures var after := CommitAlone(chain, request);
            && IsChain(after.commits) && Agrees(after)
            && Head(after.commits).Some? && Head(after.commits).value.request == request
            && after.current == Some(request.snapshot)
  {
    assert chain.commits == map[] || exists v :: v in chain.commits;
    var head := Head(chain.commits);
    match NewCommit(head, request)
    case None =>
    case Some(c) =>
      AddVersion(chain.commits, c);
      AddKey(chain.commits, c.version, c);
  }

  /** In a serial run the current snapshot is the head's, and it is only missing if the
      machine was archived after the last commit. */
  lemma {:induction false} SerialRunAgrees(operations: seq<Operation>)
    ensures var chain := PerformedAll(operations);
            && IsChain(chain.commits) && Agrees(chain)
            && (chain.current.Some? <==> operations != [] && operations[|operations| - 1].CommitTree?)
  {
    if operations != [] {
      SerialRunAgrees(operations[..|operations| - 1]);
      var before := PerformedAll(operations[..|operations| - 1]);
      match operations[|operations| - 1]
      case CommitTree(request) => CommitAloneKeeps(before, request);
      case ArchiveMachine =>
    }
  }
}
