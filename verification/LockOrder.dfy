/** Transactions that take their row locks in the global order cannot deadlock. */
module LockOrder {
  import opened Prelude
  import opened Texts
  import opened TrustRegistry
  import opened HostAdmissionService
  import opened HostAdmissionCoordinator
  import opened IntervalStability
  import opened Locks
  import opened LockScripts

  /** Each lock is either held already or comes after everything taken before it. */
  ghost predicate Climbs(script: seq<Lock>) {
    forall i, j :: 0 <= i < j < |script| && script[j] !in script[..j] ==> Before(script[i], script[j])
  }

  lemma BeforeOrder(a: Lock, b: Lock, c: Lock)
    ensures !Before(a, a)
    ensures Before(a, b) && Before(b, c) ==> Before(a, c)
  {
    if a.SubjectRow? {
      LessKeyOrder(SubjectKey(a.subject), [], []);
      if b.SubjectRow? && c.SubjectRow? {
        LessKeyOrder(SubjectKey(a.subject), SubjectKey(b.subject), SubjectKey(c.subject));
      }
    }
  }

  // ---------------------------------------------------------------- concurrent transactions

  /** A transaction: the locks it will take and how many of them it has. */
  datatype Tx = Tx(script: seq<Lock>, taken: nat)

  ghost predicate TxOk(tx: Tx) { tx.taken <= |tx.script| && Climbs(tx.script) }

  ghost function Held(tx: Tx): seq<Lock>
    requires tx.taken <= |tx.script|
  {
    tx.script[..tx.taken]
  }

  /** Has not taken all its locks yet.  A transaction that has keeps them until it commits. */
  ghost predicate Running(tx: Tx) { tx.taken < |tx.script| }

  ghost predicate SystemOk(txs: seq<Tx>) { forall i :: 0 <= i < |txs| ==> TxOk(txs[i]) }

  /** No transaction has taken more locks than it will take. */
  ghost predicate Positioned(txs: seq<Tx>) { forall i :: 0 <= i < |txs| ==> txs[i].taken <= |txs[i].script| }

  /** The lock transaction i takes next. */
  ghost function Wanted(txs: seq<Tx>, i: nat): Lock
    requires i < |txs| && Running(txs[i])
  {
    txs[i].script[txs[i].taken]
  }

  /** Transaction i cannot go on because j holds the lock it wants next. */
  ghost predicate Waits(txs: seq<Tx>, i: nat, j: nat)
    requires Positioned(txs)
  {
    && i < |txs| && j < |txs| && i != j && Running(txs[i])
    && Wanted(txs, i) in Held(txs[j])
    && Wanted(txs, i) !in Held(txs[i])
  }

  /** Along a wait, the lock wanted next climbs. */
  lemma WaitClimbs(txs: seq<Tx>, i: nat, j: nat, k: nat)
    requires SystemOk(txs) && Waits(txs, i, j) && Waits(txs, j, k)
    ensures Before(Wanted(txs, i), Wanted(txs, j))
  {
    var tx := txs[j];
    var p :| 0 <= p < tx.taken && tx.script[p] == Wanted(txs, i);
    assert tx.script[tx.taken] !in tx.script[..tx.taken];
  }

  /** A path in the wait-for graph. */
  ghost predicate WaitPath(txs: seq<Tx>, path: seq<nat>)
    requires Positioned(txs)
  {
    forall n :: 0 <= n < |path| - 1 ==> Waits(txs, path[n], path[n + 1])
  }

  lemma {:induction false} PathClimbs(txs: seq<Tx>, path: seq<nat>, n: nat, m: nat)
    requires SystemOk(txs) && WaitPath(txs, path) && n < m < |path| - 1
    ensures Waits(txs, path[n], path[n + 1]) && Waits(txs, path[m], path[m + 1])
    ensures Before(Wanted(txs, path[n]), Wanted(txs, path[m]))
    decreases m
  {
    assert Waits(txs, path[m - 1], path[m - 1 + 1]) && Waits(txs, path[m], path[m + 1]);
    assert Waits(txs, path[n], path[n + 1]);
    WaitClimbs(txs, path[m - 1], path[m], path[m + 1]);
    if n == m - 1 {
    } else {
      PathClimbs(txs, path, n, m - 1);
      BeforeOrder(Wanted(txs, path[n]), Wanted(txs, path[m - 1]), Wanted(txs, path[m]));
    }
  }

  /** No state of climbing transactions has a cycle of waits. */
  lemma NoWaitCycle(txs: seq<Tx>, path: seq<nat>)
    requires SystemOk(txs) && |path| >= 2 && WaitPath(txs, path)
    ensures path[0] != path[|path| - 1]
  {
    if path[0] == path[|path| - 1] {
      var longer := path + [path[1]];
      assert Waits(txs, path[0], path[0 + 1]);
      assert WaitPath(txs, longer) by {
        forall n | 0 <= n < |longer| - 1
          ensures Waits(txs, longer[n], longer[n + 1])
        {
          if n < |path| - 1 {
            assert Waits(txs, path[n], path[n + 1]);
          }
        }
      }
      PathClimbs(txs, longer, 0, |path| - 1);
      BeforeOrder(Wanted(txs, path[0]), Wanted(txs, path[0]), Wanted(txs, path[0]));
    }
  }

  /** A transaction that holds or wants locks and can take a step: commit if it has all it needs, otherwise
      take its next lock. */
  ghost predicate CanMove(txs: seq<Tx>, k: nat)
    requires SystemOk(txs)
  {
    k < |txs| && txs[k].script != [] && forall j: nat :: !Waits(txs, k, j)
  }

  /** Deadlock freedom: while any transaction has locks to take or to release, some transaction can move. */
  lemma SomeoneCanMove(txs: seq<Tx>, i: nat)
    requires SystemOk(txs) && i < |txs| && txs[i].script != []
    ensures exists k: nat :: CanMove(txs, k)
  {
    if forall k: nat :: !CanMove(txs, k) {
      EndlessWait(txs, [i], Indices(|txs|));
    }
  }

  ghost function Indices(n: nat): (r: set<nat>)
    ensures forall k: nat :: k in r <==> k < n
  {
    if n == 0 then {} else Indices(n - 1) + {n - 1}
  }

  /** If nobody can move, a path of waits can be extended for ever, each time to a transaction not yet on it. */
  lemma {:induction false} EndlessWait(txs: seq<Tx>, path: seq<nat>, left: set<nat>)
    requires SystemOk(txs) && path != [] && WaitPath(txs, path)
    requires forall k: nat :: !CanMove(txs, k)
    requires forall k: nat :: k < |txs| ==> k in left || k in path[..|path| - 1]
    requires path[|path| - 1] in left
    requires path[|path| - 1] < |txs| && txs[path[|path| - 1]].script != []
    ensures false
    decreases |left|
  {
    var last := path[|path| - 1];
    assert !CanMove(txs, last);
    var j: nat :| Waits(txs, last, j);
    var next := path + [j];
    assert WaitPath(txs, next);
    if j in path {
      var n :| 0 <= n < |path| && path[n] == j;
      PathSuffix(txs, next, n);
      NoWaitCycle(txs, next[n..]);
    } else {
      assert next[..|next| - 1] == path;
      EndlessWait(txs, next, left - {last});
    }
  }

  lemma PathSuffix(txs: seq<Tx>, path: seq<nat>, n: nat)
    requires SystemOk(txs) && WaitPath(txs, path) && n <= |path|
    ensures WaitPath(txs, path[n..])
  {
    forall m | 0 <= m < |path[n..]| - 1
      ensures Waits(txs, path[n..][m], path[n..][m + 1])
    {
      assert Waits(txs, path[n + m], path[n + m + 1]);
    }
  }

  // ---------------------------------------------------------------- the operations climb

  /** Locks of strictly increasing rank, each possibly taken again, followed by subjects in order. */
  lemma SubjectsClimb(subjects: seq<Subject>)
    ensures Climbs(SubjectRows(SortedSubjects(subjects)))
  {
    SortedSubjectsCorrect(subjects);
  }

  /** A script below another in rank may be run before it. */
  lemma ClimbsAppend(a: seq<Lock>, b: seq<Lock>)
    requires Climbs(a) && Climbs(b)
    requires forall x, y :: x in a && y in b ==> Rank(x) < Rank(y)
    ensures Climbs(a + b)
  {
    var s := a + b;
    forall i, j | 0 <= i < j < |s| && s[j] !in s[..j]
      ensures Before(s[i], s[j])
    {
      if j < |a| {
        assert s[..j] == a[..j];
      } else if i >= |a| {
        assert s[..j] == a + b[..j - |a|];
      } else {
        assert s[i] in a && s[j] in b;
      }
    }
  }

  /** Every host or policy command takes its locks in order. */
  lemma HostCommandClimbs(b: Bindings, c: HostCommand)
    ensures Climbs(HostCommandLocks(b, c))
  {
  }

  /** Every registry command does. */
  lemma RegistryCommandClimbs(t: Tables, c: Command, locks: seq<Lock>)
    requires RegistryCommandLocks(t, c, locks)
    ensures Climbs(locks)
  {
  }

  /** The finaliser does, at every point it can reach, when the context's credential belongs to the context's
      target; and it takes two target rows in the caller's order exactly when it does not. */
  lemma FinaliserClimbs(w: World, ctx: Context, reached: Progress)
    requires reached != AT_TARGET && ctx.at.target in w.bindings.targets
    requires ctx.at.credentialId in w.credentials && w.credentials[ctx.at.credentialId].target in w.bindings.targets
    ensures Climbs(FinaliserLocks(w, ctx, reached)) <==> w.credentials[ctx.at.credentialId].target == ctx.at.target
  {
    var locks := FinaliserLocks(w, ctx, reached);
    if w.credentials[ctx.at.credentialId].target != ctx.at.target {
      assert locks[0] == TargetRow(ctx.at.target) && locks[1] == TargetRow(w.credentials[ctx.at.credentialId].target);
      assert locks[..1] == [TargetRow(ctx.at.target)];
    } else {
      WholeFinaliserClimbs(w.bindings, ctx.at.target, ctx.at.credentialId);
      ClimbsPrefix(WholeScript(w.bindings, ctx.at.target, ctx.at.credentialId), |locks|);
    }
  }

  /** All the finaliser's locks when the credential's target is the context's. */
  ghost function WholeScript(b: Bindings, target: RowId, credential: RowId): seq<Lock> {
    [TargetRow(target)] + ([TargetRow(target)] + [CredentialRow(credential)])
    + HostPointerLock(b, target) + PolicyPointerLock(b, target) + SubjectLocks(b, target)
  }

  lemma WholeFinaliserClimbs(b: Bindings, target: RowId, credential: RowId)
    ensures Climbs(WholeScript(b, target, credential))
  {
    var first := [TargetRow(target)] + ([TargetRow(target)] + [CredentialRow(credential)]);
    var host, policy, subjects := HostPointerLock(b, target), PolicyPointerLock(b, target), SubjectLocks(b, target);
    ClimbsAppend(first, host);
    ClimbsAppend(first + host, policy);
    if subjects != [] {
      SubjectsClimb(SubjectsLocked(b, target));
    }
    ClimbsAppend(first + host + policy, subjects);
  }

  lemma ClimbsPrefix(s: seq<Lock>, n: nat)
    requires Climbs(s) && n <= |s|
    ensures Climbs(s[..n])
  {
    forall i, j | 0 <= i < j < n && s[..n][j] !in s[..n][..j]
      ensures Before(s[..n][i], s[..n][j])
    {
      assert s[..n][..j] == s[..j];
    }
  }

  /** A context from the resolver, finalised while its credential row still names the same target, climbs. */
  lemma ResolvedFinaliserClimbs(env: Env, w: World, attempt: RowId, p: Presentation, now: Instant, ctx: Context,
                                w': World, reached: Progress)
    requires Resolve(env, w, attempt, p, now) == Success(ctx)
    requires ctx.at.credentialId in w'.credentials
    requires w'.credentials[ctx.at.credentialId].target == w.credentials[ctx.at.credentialId].target
    requires ctx.at.target in w'.bindings.targets && reached != AT_TARGET
    ensures Climbs(FinaliserLocks(w', ctx, reached))
  {
    ResolveShows(env, w, attempt, p, now, ctx);
    FinaliserClimbs(w', ctx, reached);
  }

  /** The credential a context names belongs to the target the context names. */
  ghost predicate OwnCredential(w: World, ctx: Context) {
    ctx.at.credentialId in w.credentials && w.credentials[ctx.at.credentialId].target == ctx.at.target
  }

  ghost predicate HostScript(script: seq<Lock>) { exists b, c :: script == HostCommandLocks(b, c) }

  ghost predicate RegistryScript(script: seq<Lock>) { exists t, c :: RegistryCommandLocks(t, c, script) }

  ghost predicate FinaliserScript(script: seq<Lock>) {
    exists w, ctx, reached :: OwnCredential(w, ctx) && script == FinaliserLocks(w, ctx, reached)
  }

  /** One transaction of the protocol: a host or policy command, a registry command or a finaliser. */
  ghost predicate ProtocolTx(tx: Tx) {
    tx.taken <= |tx.script| && (HostScript(tx.script) || RegistryScript(tx.script) || FinaliserScript(tx.script))
  }

  lemma ProtocolClimbs(tx: Tx)
    requires ProtocolTx(tx)
    ensures TxOk(tx)
  {
    if HostScript(tx.script) {
      var b, c :| tx.script == HostCommandLocks(b, c);
      HostCommandClimbs(b, c);
    } else if RegistryScript(tx.script) {
      var t, c :| RegistryCommandLocks(t, c, tx.script);
      RegistryCommandClimbs(t, c, tx.script);
    } else {
      var w, ctx, reached :| OwnCredential(w, ctx) && tx.script == FinaliserLocks(w, ctx, reached);
      if ctx.at.target in w.bindings.targets && reached != AT_TARGET {
        FinaliserClimbs(w, ctx, reached);
      }
    }
  }

  /** Any set of protocol transactions, however far each has got: no waits form a cycle, and while one of them has
      locks some transaction can move. */
  lemma ProtocolNeverDeadlocks(txs: seq<Tx>)
    requires forall k :: 0 <= k < |txs| ==> ProtocolTx(txs[k])
    ensures SystemOk(txs)
    ensures forall path: seq<nat> :: |path| >= 2 && WaitPath(txs, path) ==> path[0] != path[|path| - 1]
    ensures forall i: nat :: i < |txs| && txs[i].script != [] ==> exists k: nat :: CanMove(txs, k)
  {
    forall k | 0 <= k < |txs|
      ensures TxOk(txs[k])
    {
      ProtocolClimbs(txs[k]);
    }
    forall path: seq<nat> | |path| >= 2 && WaitPath(txs, path)
      ensures path[0] != path[|path| - 1]
    {
      NoWaitCycle(txs, path);
    }
    forall i: nat | i < |txs| && txs[i].script != []
      ensures exists k: nat :: CanMove(txs, k)
    {
      SomeoneCanMove(txs, i);
    }
  }

  /** Two finalisers given contexts that name each other's targets: once each has locked the target of its own
      context, each waits for the other, whatever lies further along their way. */
  lemma CrossedContextsDeadlock(w: World, one: Context, two: Context, r1: Progress, r2: Progress)
    requires one.at.target != two.at.target
    requires one.at.target in w.bindings.targets && w.bindings.targets[one.at.target] == one.at.targetRef
    requires two.at.target in w.bindings.targets && w.bindings.targets[two.at.target] == two.at.targetRef
    requires one.at.credentialId in w.credentials && w.credentials[one.at.credentialId].target == two.at.target
    requires two.at.credentialId in w.credentials && w.credentials[two.at.credentialId].target == one.at.target
    requires Reaches(w, one, r1) && Reaches(w, two, r2)
    ensures var txs := [Tx(FinaliserLocks(w, one, r1), 1), Tx(FinaliserLocks(w, two, r2), 1)];
            Positioned(txs) && Waits(txs, 0, 1) && Waits(txs, 1, 0) && WaitPath(txs, [0, 1, 0])
  {
    FinaliserStart(w, one, r1);
    FinaliserStart(w, two, r2);
    var txs := [Tx(FinaliserLocks(w, one, r1), 1), Tx(FinaliserLocks(w, two, r2), 1)];
    assert Held(txs[0]) == [TargetRow(one.at.target)] && Held(txs[1]) == [TargetRow(two.at.target)];
  }

  /** Past its first lock, the finaliser wants the row of its credential's own target. */
  lemma FinaliserStart(w: World, ctx: Context, reached: Progress)
    requires ctx.at.target in w.bindings.targets && reached != AT_TARGET
    requires ctx.at.credentialId in w.credentials && w.credentials[ctx.at.credentialId].target in w.bindings.targets
    ensures var locks := FinaliserLocks(w, ctx, reached);
            |locks| > 1 && locks[0] == TargetRow(ctx.at.target)
            && locks[1] == TargetRow(w.credentials[ctx.at.credentialId].target)
  {
  }
}
