/** The runtime refresh transaction of deployment/runtime_refresh.py.

    A refresh replaces six live locations under the protection of a journal.  Each disk mutation is
    one step of a machine; the process may be killed between any two steps, and any step may raise
    an exception instead of taking effect.  Every theorem ranges over every sequence of such events. */
module RuntimeRefresh {
  import opened Prelude

  type Sha = string

  // ----- What the files hold -----------------------------------------------------------------

  /** The repository boundary, identified by the snapshot manifest inside it. */
  datatype Tree = Tree(mainSha: Sha, files: Bytes)

  datatype Generation = Generation(mainSha: Sha, tree: Tree, inventory: Bytes)

  datatype RuntimeManifest = RuntimeManifest(
    mainSha: Sha,
    package: Digest<Generation>,
    snapshot: Digest<Tree>,
    environment: Digest<Bytes>,
    config: Digest<Bytes>)

  /** The six locations that a refresh switches. */
  datatype Live = Live(
    boundary: Stored<Tree>,
    runtime: Stored<RuntimeManifest>,
    environment: Stored<Bytes>,
    config: Stored<Bytes>,
    generationFile: Stored<Generation>,
    pointer: Stored<Sha>)

  datatype Phase = PREPARED | STAGED | SWITCHING | SWITCHED | COMMITTED | ROLLED_BACK

  /** Artifact digests that the journal binds from SWITCHED on. */
  datatype Bindings = Bindings(
    generation: Digest<Generation>,
    snapshot: Digest<Tree>,
    runtime: Digest<RuntimeManifest>,
    environment: Digest<Bytes>,
    config: Digest<Bytes>)

  /** The `previous…` fields say whether the journal names a backup; the backup paths are fixed. */
  datatype Journal = Journal(
    phase: Phase,
    generationCreated: bool,
    repositoryWasPresent: bool,
    previousPointer: Stored<Sha>,
    previousRepository: bool,
    previousRuntime: bool,
    previousEnvironment: bool,
    previousConfig: bool,
    previousGenerationFile: bool,
    bound: Option<Bindings>)

  datatype Backups = Backups(
    runtime: Stored<RuntimeManifest>,
    environment: Stored<Bytes>,
    config: Stored<Bytes>,
    generationFile: Stored<Generation>)

  datatype Disk = Disk(
    live: Live,
    journal: Option<Journal>,
    backups: Backups,
    previousRepository: Stored<Tree>,
    failed: Stored<Tree>,
    generation: Stored<Generation>,
    stage: Stored<Tree>,
    completion: bool)

  datatype Handoff = Handoff(installedSha: Sha, requiredSha: Sha, installedRuntime: Digest<RuntimeManifest>)

  /** One transaction: the handoff, the live set it started from and the artifacts it installs. */
  datatype Context = Context(
    handoff: Handoff,
    before: Live,
    generation: Generation,
    environment: Bytes,
    config: Bytes)

  predicate ValidContext(c: Context) {
    && c.generation.mainSha == c.handoff.requiredSha
    && c.generation.tree.mainSha == c.handoff.requiredSha
  }

  /** The manifest that `_runtime_manifest` renders for the required main. */
  function NewRuntime(c: Context): RuntimeManifest {
    RuntimeManifest(c.handoff.requiredSha, Digest(c.generation), Digest(c.generation.tree),
                    Digest(c.environment), Digest(c.config))
  }

  /** The live set after a complete switch. */
  function New(c: Context): Live {
    Live(Whole(c.generation.tree), Whole(NewRuntime(c)), Whole(c.environment), Whole(c.config),
         Whole(c.generation), Whole(c.handoff.requiredSha))
  }

  function NewBindings(c: Context): Bindings {
    Bindings(Digest(c.generation), Digest(c.generation.tree), Digest(NewRuntime(c)),
             Digest(c.environment), Digest(c.config))
  }

  // ----- Attestation -------------------------------------------------------------------------

  /** `_attest_pre_refresh`, on the four locations it reads. */
  predicate AttestPre(h: Handoff, live: Live) {
    && live.runtime.Whole?
    && Digest(live.runtime.value) == h.installedRuntime
    && live.runtime.value.mainSha == h.installedSha
    && live.environment.Whole? && Digest(live.environment.value) == live.runtime.value.environment
    && live.config.Whole? && Digest(live.config.value) == live.runtime.value.config
    && live.boundary.Whole? && Digest(live.boundary.value) == live.runtime.value.snapshot
    && live.boundary.value.mainSha == h.installedSha
  }

  /** A manifest that names `tree`, `environment` and `config` lets in exactly that installation, under a
      handoff for exactly its main. */
  lemma AttestPreExactly(h: Handoff, m: RuntimeManifest, tree: Tree, environment: Bytes, config: Bytes, live: Live)
    requires h.installedRuntime == Digest(m)
    requires m.snapshot == Digest(tree) && m.environment == Digest(environment) && m.config == Digest(config)
    ensures AttestPre(h, live) <==>
              && m.mainSha == h.installedSha && tree.mainSha == h.installedSha
              && live.runtime == Whole(m)
              && live.boundary == Whole(tree) && live.environment == Whole(environment) && live.config == Whole(config)
  {
  }

  /** The same handoff never lets in two installations. */
  lemma AttestPrePins(h: Handoff, a: Live, b: Live)
    requires AttestPre(h, a) && AttestPre(h, b)
    ensures a.boundary == b.boundary && a.runtime == b.runtime && a.environment == b.environment && a.config == b.config
  {
    var m := a.runtime.value;
    AttestPreExactly(h, m, a.boundary.value, a.environment.value, a.config.value, b);
  }

  /** What a refresh installs is what the entry attestation of the next one accepts, and nothing else is. */
  lemma NextRefreshAcceptsExactly(c: Context, next: Sha, live: Live)
    requires ValidContext(c)
    ensures AttestPre(Handoff(c.handoff.requiredSha, next, Digest(NewRuntime(c))), live) <==>
              && live.boundary == Whole(c.generation.tree) && live.runtime == Whole(NewRuntime(c))
              && live.environment == Whole(c.environment) && live.config == Whole(c.config)
    ensures AttestPre(Handoff(c.handoff.requiredSha, next, Digest(NewRuntime(c))), New(c))
  {
    var h := Handoff(c.handoff.requiredSha, next, Digest(NewRuntime(c)));
    AttestPreExactly(h, NewRuntime(c), c.generation.tree, c.environment, c.config, live);
    AttestPreExactly(h, NewRuntime(c), c.generation.tree, c.environment, c.config, New(c));
  }

  /** `_attest_committed`. */
  predicate AttestCommitted(h: Handoff, j: Journal, d: Disk) {
    && j.bound.Some?
    && d.generation.Whole? && Digest(d.generation.value) == j.bound.value.generation
    && d.generation.value.mainSha == h.requiredSha
    && d.live.pointer == Whole(h.requiredSha)
    && d.live.boundary.Whole? && Digest(d.live.boundary.value) == j.bound.value.snapshot
    && d.live.boundary.value.mainSha == h.requiredSha
    && d.live.runtime.Whole? && Digest(d.live.runtime.value) == j.bound.value.runtime
    && d.live.environment.Whole? && Digest(d.live.environment.value) == j.bound.value.environment
    && d.live.config.Whole? && Digest(d.live.config.value) == j.bound.value.config
    && d.live.generationFile.Whole? && Digest(d.live.generationFile.value) == j.bound.value.generation
    && d.live.runtime.value.mainSha == h.requiredSha
    && d.live.runtime.value.package == j.bound.value.generation
    && d.live.runtime.value.snapshot == j.bound.value.snapshot
    && d.live.runtime.value.environment == j.bound.value.environment
    && d.live.runtime.value.config == j.bound.value.config
  }

  // ----- The switch, one mutation at a time -----------------------------------------------------

  const SWITCH_STEPS: nat := 7

  function SwitchStep(c: Context, k: nat, d: Disk): Disk
    requires k < SWITCH_STEPS
  {
    match k
    case 0 => if d.live.boundary.Absent? then d
              else d.(previousRepository := d.live.boundary, live := d.live.(boundary := Absent))
    case 1 => d.(stage := Absent, live := d.live.(boundary := d.stage))
    case 2 => d.(live := d.live.(runtime := Whole(NewRuntime(c))))
    case 3 => d.(live := d.live.(environment := Whole(c.environment)))
    case 4 => d.(live := d.live.(config := Whole(c.config)))
    case 5 => d.(live := d.live.(generationFile := Whole(c.generation)))
    case _ => d.(live := d.live.(pointer := Whole(c.handoff.requiredSha)))
  }

  function Switch(c: Context, k: nat, d: Disk): Disk
    requires k <= SWITCH_STEPS
  {
    if k == 0 then d else SwitchStep(c, k - 1, Switch(c, k - 1, d))
  }

  // ----- The rollback, one mutation at a time ---------------------------------------------------

  /** `_restore_file`: without a named backup the target is removed; a named backup that is missing
      changes nothing. */
  function Restore<T>(target: Stored<T>, named: bool, backup: Stored<T>): Stored<T> {
    if !named then Absent else if backup.Absent? then target else backup
  }

  predicate RemovesBoundary(j: Journal, d: Disk) {
    !j.repositoryWasPresent || (j.previousRepository && !d.previousRepository.Absent?)
  }

  const ROLLBACK_STEPS: nat := 12

  function RollbackStep(j: Journal, k: nat, d: Disk): Disk
    requires k < ROLLBACK_STEPS
  {
    match k
    case 0 => d.(live := d.live.(pointer := Absent))
    case 1 => if j.previousPointer.Absent? then d else d.(live := d.live.(pointer := j.previousPointer))
    case 2 => if RemovesBoundary(j, d) && !d.live.boundary.Absent? && !d.failed.Absent?
              then d.(failed := Torn) else d
    case 3 => if RemovesBoundary(j, d) && !d.live.boundary.Absent? then d.(failed := Absent) else d
    case 4 => if RemovesBoundary(j, d) && !d.live.boundary.Absent?
              then d.(failed := d.live.boundary, live := d.live.(boundary := Absent)) else d
    case 5 => if j.previousRepository && !d.previousRepository.Absent?
              then d.(previousRepository := Absent, live := d.live.(boundary := d.previousRepository)) else d
    case 6 => d.(live := d.live.(runtime := Restore(d.live.runtime, j.previousRuntime, d.backups.runtime)))
    case 7 => d.(live := d.live.(environment :=
                Restore(d.live.environment, j.previousEnvironment, d.backups.environment)))
    case 8 => d.(live := d.live.(config := Restore(d.live.config, j.previousConfig, d.backups.config)))
    case 9 => d.(live := d.live.(generationFile :=
                Restore(d.live.generationFile, j.previousGenerationFile, d.backups.generationFile)))
    case 10 => if j.generationCreated && !d.generation.Absent? then d.(generation := Torn) else d
    case _ => if j.generationCreated then d.(generation := Absent) else d
  }

  /** The first `k` steps of `_rollback_switch`. */
  function Rollback(j: Journal, k: nat, d: Disk): Disk
    requires k <= ROLLBACK_STEPS
  {
    if k == 0 then d else RollbackStep(j, k - 1, Rollback(j, k - 1, d))
  }

  predicate ValidCuts(cuts: seq<nat>) {
    forall i | 0 <= i < |cuts| :: cuts[i] <= ROLLBACK_STEPS
  }

  /** A rollback that was killed after `cuts[0]` steps, restarted, killed after `cuts[1]` steps, … */
  function Interrupted(j: Journal, cuts: seq<nat>, d: Disk): Disk
    requires ValidCuts(cuts)
  {
    if cuts == [] then d
    else Rollback(j, cuts[|cuts| - 1], Interrupted(j, cuts[..|cuts| - 1], d))
  }

  predicate Holds<T(==)>(named: bool, backup: Stored<T>, original: Stored<T>) {
    if original.Absent? then !named else named && backup == original
  }

  /** The journal and the backups are enough to bring back `base`, whatever the live files hold. */
  predicate Recoverable(j: Journal, base: Live, d: Disk) {
    && Holds(j.previousRuntime, d.backups.runtime, base.runtime)
    && Holds(j.previousEnvironment, d.backups.environment, base.environment)
    && Holds(j.previousConfig, d.backups.config, base.config)
    && Holds(j.previousGenerationFile, d.backups.generationFile, base.generationFile)
    && j.previousPointer == base.pointer
    && j.repositoryWasPresent == !base.boundary.Absent?
    && j.previousRepository
    && if base.boundary.Absent? then d.previousRepository.Absent?
       else d.previousRepository == base.boundary
            || (d.previousRepository.Absent? && d.live.boundary == base.boundary)
  }

  /** What the first `k` rollback steps have already brought back. */
  predicate Restored(k: nat, base: Live, d: Disk) {
    && (k == 1 ==> d.live.pointer.Absent?)
    && (k >= 2 ==> d.live.pointer == base.pointer)
    && (k >= 5 && base.boundary.Absent? ==> d.live.boundary.Absent?)
    && (k == 5 && !d.previousRepository.Absent? ==> d.live.boundary.Absent?)
    && (k >= 6 ==> d.live.boundary == base.boundary && d.previousRepository.Absent?)
    && (k >= 7 ==> d.live.runtime == base.runtime)
    && (k >= 8 ==> d.live.environment == base.environment)
    && (k >= 9 ==> d.live.config == base.config)
    && (k >= 10 ==> d.live.generationFile == base.generationFile)
  }

  lemma BoundaryStepRestores(j: Journal, k: nat, base: Live, d: Disk)
    requires k < 6
    requires Recoverable(j, base, d) && Restored(k, base, d)
    ensures Recoverable(j, base, RollbackStep(j, k, d))
    ensures Restored(k + 1, base, RollbackStep(j, k, d))
  {
  }

  lemma FileStepRestores(j: Journal, k: nat, base: Live, d: Disk)
    requires 6 <= k < ROLLBACK_STEPS
    requires Recoverable(j, base, d) && Restored(k, base, d)
    ensures Recoverable(j, base, RollbackStep(j, k, d))
    ensures Restored(k + 1, base, RollbackStep(j, k, d))
  {
  }

  lemma RollbackStepRestores(j: Journal, k: nat, base: Live, d: Disk)
    requires k < ROLLBACK_STEPS
    requires Recoverable(j, base, d) && Restored(k, base, d)
    ensures Recoverable(j, base, RollbackStep(j, k, d))
    ensures Restored(k + 1, base, RollbackStep(j, k, d))
  {
    if k < 6 {
      BoundaryStepRestores(j, k, base, d);
    } else {
      FileStepRestores(j, k, base, d);
    }
  }

  lemma {:induction false} RollbackRestores(j: Journal, k: nat, base: Live, d: Disk)
    requires k <= ROLLBACK_STEPS
    requires Recoverable(j, base, d)
    ensures Recoverable(j, base, Rollback(j, k, d))
    ensures Restored(k, base, Rollback(j, k, d))
  {
    if k > 0 {
      RollbackRestores(j, k - 1, base, d);
      RollbackStepRestores(j, k - 1, base, Rollback(j, k - 1, d));
    }
  }

  /** However often it is killed and restarted, a rollback that finishes restores all six locations. */
  lemma {:induction false} InterruptedRollbackRestores(j: Journal, cuts: seq<nat>, base: Live, d: Disk)
    requires ValidCuts(cuts)
    requires Recoverable(j, base, d)
    ensures Recoverable(j, base, Interrupted(j, cuts, d))
    ensures Rollback(j, ROLLBACK_STEPS, Interrupted(j, cuts, d)).live == base
  {
    if cuts != [] {
      var rest := cuts[..|cuts| - 1];
      InterruptedRollbackRestores(j, rest, base, d);
      RollbackRestores(j, cuts[|cuts| - 1], base, Interrupted(j, rest, d));
    }
    RollbackRestores(j, ROLLBACK_STEPS, base, Interrupted(j, cuts, d));
  }

  lemma {:induction false} SwitchKeepsRecoverable(c: Context, j: Journal, k: nat, d: Disk)
    requires k <= SWITCH_STEPS
    requires Recoverable(j, d.live, d) && d.previousRepository.Absent?
    ensures Recoverable(j, d.live, Switch(c, k, d))
    ensures k == 0 ==> Switch(c, k, d) == d
    ensures k >= 1 ==> Switch(c, k, d).previousRepository == d.live.boundary
  {
    if k > 0 {
      SwitchKeepsRecoverable(c, j, k - 1, d);
    }
  }

  /** Rolling back any prefix of the switch, with any interruptions, undoes it exactly. */
  lemma SwitchThenRollback(c: Context, j: Journal, switched: nat, cuts: seq<nat>, d: Disk)
    requires switched <= SWITCH_STEPS
    requires ValidCuts(cuts)
    requires Recoverable(j, d.live, d) && d.previousRepository.Absent?
    ensures Rollback(j, ROLLBACK_STEPS, Interrupted(j, cuts, Switch(c, switched, d))).live == d.live
  {
    SwitchKeepsRecoverable(c, j, switched, d);
    InterruptedRollbackRestores(j, cuts, d.live, Switch(c, switched, d));
  }

  // ----- The whole refresh as a machine -----------------------------------------------------------

  /** Where an invocation of `refresh` stands.  `Unwind` is the rollback in its exception handler,
      `Resume` the rollback of a switch that an earlier invocation journalled. */
  datatype Proc =
    | Idle
    | Begin
    | Attested
    | Resume(journal: Journal, k: nat)
    | Republish
    | Prepare
    | Build
    | Stage(created: bool)
    | Copy(created: bool)
    | Backup(created: bool, k: nat)
    | Plan(created: bool)
    | Journalling(switching: Journal)
    | Switching(switching: Journal, k: nat)
    | Bind(switching: Journal)
    | Commit(switching: Journal)
    | Recheck(switching: Journal)
    | Publish(switching: Journal)
    | Unwind(switching: Journal, k: nat)
    | Returned

  /** `base`, `progress` and `rollbackBegun` are history: the live set the transaction protects, how
      many switch steps followed the last SWITCHING write, and whether a rollback started since. */
  datatype State = State(disk: Disk, proc: Proc, base: Live, progress: nat, rollbackBegun: bool)

  datatype Event = Start | Step | Raise | Crash

  predicate Early(d: Disk) {
    d.journal.None? || d.journal.value.phase in {PREPARED, STAGED, ROLLED_BACK}
  }

  function Prepared(): Journal {
    Journal(PREPARED, false, false, Absent, false, false, false, false, false, None)
  }

  function StagedJournal(created: bool): Journal {
    Prepared().(phase := STAGED, generationCreated := created)
  }

  function SwitchingJournal(created: bool, live: Live): Journal {
    Journal(SWITCHING, created, !live.boundary.Absent?, live.pointer, true, !live.runtime.Absent?,
            !live.environment.Absent?, !live.config.Absent?, !live.generationFile.Absent?, None)
  }

  const BACKUP_STEPS: nat := 8

  /** `_backup` copies in place: the copy is torn until it is complete. */
  function BackupStep(k: nat, d: Disk): Disk
    requires k < BACKUP_STEPS
  {
    match k
    case 0 => if d.live.runtime.Absent? then d else d.(backups := d.backups.(runtime := Torn))
    case 1 => if d.live.runtime.Absent? then d else d.(backups := d.backups.(runtime := d.live.runtime))
    case 2 => if d.live.environment.Absent? then d else d.(backups := d.backups.(environment := Torn))
    case 3 => if d.live.environment.Absent? then d
              else d.(backups := d.backups.(environment := d.live.environment))
    case 4 => if d.live.config.Absent? then d else d.(backups := d.backups.(config := Torn))
    case 5 => if d.live.config.Absent? then d else d.(backups := d.backups.(config := d.live.config))
    case 6 => if d.live.generationFile.Absent? then d else d.(backups := d.backups.(generationFile := Torn))
    case _ => if d.live.generationFile.Absent? then d
              else d.(backups := d.backups.(generationFile := d.live.generationFile))
  }

  function WriteJournal(s: State, j: Journal, next: Proc): State {
    s.(disk := s.disk.(journal := Some(j)), proc := next)
  }

  /** One step of the invocation in progress. */
  function Advance(c: Context, s: State): State {
    var d := s.disk;
    match s.proc
    case Idle => s
    case Begin => s.(proc := if AttestPre(c.handoff, d.live) then Attested else Idle)
    case Attested =>
      if d.journal.None? then s.(proc := Prepare)
      else if d.journal.value.phase == COMMITTED then
        s.(proc := if AttestCommitted(c.handoff, d.journal.value, d) then Republish else Idle)
      else if d.journal.value.phase in {SWITCHING, SWITCHED} then
        s.(proc := Resume(d.journal.value, 0), rollbackBegun := true)
      else s.(proc := Prepare)
    case Resume(j, k) =>
      if k < ROLLBACK_STEPS then s.(disk := RollbackStep(j, k, d), proc := Resume(j, k + 1))
      else WriteJournal(s, j.(phase := ROLLED_BACK), Prepare)
    case Republish => s.(disk := d.(completion := true), proc := Returned)
    case Prepare => WriteJournal(s, Prepared(), Build)
    case Build =>
      if d.generation.Absent? then
        s.(disk := d.(generation := Whole(c.generation)), proc := Stage(true))
      else s.(proc := if d.generation == Whole(c.generation) then Stage(false) else Idle)
    case Stage(created) =>
      WriteJournal(s, StagedJournal(created), Copy(created))
    case Copy(created) => s.(disk := d.(stage := Whole(c.generation.tree)), proc := Backup(created, 0))
    case Backup(created, k) =>
      if k < BACKUP_STEPS then s.(disk := BackupStep(k, d), proc := Backup(created, k + 1))
      else s.(proc := Plan(created))
    case Plan(created) => s.(proc := Journalling(SwitchingJournal(created, d.live)))
    case Journalling(sw) => WriteJournal(s, sw, Switching(sw, 0)).(progress := 0, rollbackBegun := false)
    case Switching(sw, k) =>
      if k < SWITCH_STEPS then
        s.(disk := SwitchStep(c, k, d), proc := Switching(sw, k + 1), progress := k + 1)
      else s.(proc := Bind(sw))
    case Bind(sw) => WriteJournal(s, sw.(phase := SWITCHED, bound := Some(NewBindings(c))), Commit(sw))
    case Commit(sw) => WriteJournal(s, sw.(phase := COMMITTED, bound := Some(NewBindings(c))), Recheck(sw))
    case Recheck(sw) =>
      if d.journal.Some? && AttestCommitted(c.handoff, d.journal.value, d) then s.(proc := Publish(sw)) else BeginUnwind(s, sw)
    case Publish(sw) => s.(disk := d.(completion := true), proc := Returned)
    case Unwind(sw, k) =>
      if k < ROLLBACK_STEPS then s.(disk := RollbackStep(sw, k, d), proc := Unwind(sw, k + 1))
      else WriteJournal(s, sw.(phase := ROLLED_BACK), Idle)
    case Returned => s
  }

  /** An exception.  Once `switching` is bound, which is before its journal write, the handler rolls
      back; an exception anywhere else ends the invocation. */
  function Throw(s: State): State {
    match Handler(s.proc)
    case Some(sw) => BeginUnwind(s, sw)
    case None => Stop(s)
  }

  function Handler(p: Proc): Option<Journal> {
    match p
    case Journalling(sw) => Some(sw)
    case Switching(sw, _) => Some(sw)
    case Bind(sw) => Some(sw)
    case Commit(sw) => Some(sw)
    case Recheck(sw) => Some(sw)
    case Publish(sw) => Some(sw)
    case _ => None
  }

  function BeginUnwind(s: State, sw: Journal): State {
    s.(proc := Unwind(sw, 0), rollbackBegun := true)
  }

  /** The invocation ends here.  From now on the transaction protects what an early journal left live. */
  function Stop(s: State): State {
    s.(proc := Idle, base := if Early(s.disk) then s.disk.live else s.base)
  }

  function Apply(c: Context, s: State, e: Event): State {
    match e
    case Start => if s.proc.Idle? || s.proc.Returned? then s.(proc := Begin) else s
    case Step => Advance(c, s)
    case Raise => Throw(s)
    case Crash => Stop(s)
  }

  function Run(c: Context, s: State, events: seq<Event>): State {
    if events == [] then s else Apply(c, Run(c, s, events[..|events| - 1]), events[|events| - 1])
  }

  /** No earlier transaction with this identity; leftovers elsewhere may hold anything. */
  predicate Initial(c: Context, s: State) {
    && ValidContext(c)
    && s.proc.Idle?
    && s.disk.live == c.before == s.base
    && s.disk.journal.None?
    && s.disk.previousRepository.Absent?
    && s.progress == 0 && !s.rollbackBegun
  }

  // ----- The invariant ----------------------------------------------------------------------------

  /** The live set after `k` switch steps from `base`. */
  function Mixed(c: Context, k: nat, base: Live): Live {
    Live(if k == 0 then base.boundary else if k == 1 then Absent else Whole(c.generation.tree),
         if k <= 2 then base.runtime else Whole(NewRuntime(c)),
         if k <= 3 then base.environment else Whole(c.environment),
         if k <= 4 then base.config else Whole(c.config),
         if k <= 5 then base.generationFile else Whole(c.generation),
         if k <= 6 then base.pointer else Whole(c.handoff.requiredSha))
  }

  predicate BackedUp<T(==)>(done: bool, live: Stored<T>, backup: Stored<T>) {
    done && !live.Absent? ==> backup == live
  }

  predicate BackupsTaken(k: nat, d: Disk) {
    && BackedUp(k >= 2, d.live.runtime, d.backups.runtime)
    && BackedUp(k >= 4, d.live.environment, d.backups.environment)
    && BackedUp(k >= 6, d.live.config, d.backups.config)
    && BackedUp(k >= 8, d.live.generationFile, d.backups.generationFile)
  }

  /** What holds of the disk alone, hence after a crash. */
  predicate DiskInv(c: Context, s: State) {
    var d := s.disk;
    if Early(d) then
      d.previousRepository.Absent?
    else
      && s.progress <= SWITCH_STEPS
      && Recoverable(d.journal.value, s.base, d)
      && (s.progress == 0 && !s.rollbackBegun ==> d.previousRepository.Absent?)
      && (!s.rollbackBegun ==> d.live == Mixed(c, s.progress, s.base))
      && (d.journal.value.phase != SWITCHING ==>
            s.progress == SWITCH_STEPS && d.journal.value.bound == Some(NewBindings(c)))
  }

  /** The transaction may lose the pointer, and nothing else. */
  predicate BaseInv(c: Context, s: State) {
    s.base == c.before || s.base == c.before.(pointer := Absent)
  }

  predicate LiveInv(c: Context, s: State) {
    Early(s.disk) ==>
      s.disk.live == s.base || (s.proc.Unwind? && s.proc.k == 1 && s.disk.live == s.base.(pointer := Absent))
  }

  predicate ProcInv(c: Context, s: State) {
    var d := s.disk;
    match s.proc
    case Idle => true
    case Begin => true
    case Attested => AttestPre(c.handoff, d.live)
    case Resume(j, k) =>
      && k <= ROLLBACK_STEPS && d.journal == Some(j) && !Early(d) && s.rollbackBegun
      && j.phase in {SWITCHING, SWITCHED}
      && Restored(k, s.base, d)
    case Republish => InCommitted(c, d) && d.live == New(c) && AttestPre(c.handoff, d.live)
    case Prepare => Early(d)
    case Build => d.journal == Some(Prepared())
    case Stage(_) => d.journal == Some(Prepared()) && d.generation == Whole(c.generation)
    case Copy(created) => d.journal == Some(StagedJournal(created)) && d.generation == Whole(c.generation)
    case Backup(created, k) =>
      Built(c, d) && k <= BACKUP_STEPS && d.journal == Some(StagedJournal(created)) && BackupsTaken(k, d)
    case Plan(created) => Built(c, d) && d.journal == Some(StagedJournal(created)) && BackupsTaken(BACKUP_STEPS, d)
    case Journalling(sw) =>
      && sw.phase == SWITCHING && InStaged(d) && Recoverable(sw, s.base, d) && Built(c, d)
    case Switching(sw, k) =>
      && d.journal == Some(sw) && sw.phase == SWITCHING && k == s.progress <= SWITCH_STEPS && !s.rollbackBegun
      && (k <= 1 ==> d.stage == Whole(c.generation.tree)) && d.generation == Whole(c.generation)
    case Bind(sw) => Forward(c, s, sw) && d.journal.value == sw
    case Commit(sw) => Forward(c, s, sw) && d.journal.value.phase == SWITCHED
    case Recheck(sw) => Forward(c, s, sw) && d.journal.value.phase == COMMITTED
    case Publish(sw) => Forward(c, s, sw) && d.journal.value.phase == COMMITTED
    case Unwind(sw, k) =>
      && k <= ROLLBACK_STEPS && s.rollbackBegun && sw.phase == SWITCHING
      && Recoverable(sw, s.base, d) && Restored(k, s.base, d)
      && (Early(d) ==> InStaged(d))
    case Returned => InCommitted(c, d) && d.live == New(c) && d.completion
  }

  /** The generation is in its slot and the boundary is staged. */
  predicate Built(c: Context, d: Disk) {
    d.generation == Whole(c.generation) && d.stage == Whole(c.generation.tree)
  }

  predicate InCommitted(c: Context, d: Disk) {
    d.journal.Some? && d.journal.value.phase == COMMITTED && AttestCommitted(c.handoff, d.journal.value, d)
  }

  predicate InStaged(d: Disk) {
    d.journal.Some? && d.journal.value.phase == STAGED
  }

  predicate Forward(c: Context, s: State, sw: Journal) {
    && s.disk.journal.Some? && !Early(s.disk) && !s.rollbackBegun && s.progress == SWITCH_STEPS
    && sw.phase == SWITCHING && Recoverable(sw, s.base, s.disk) && s.disk.generation == Whole(c.generation)
  }

  predicate Inv(c: Context, s: State) {
    ValidContext(c) && DiskInv(c, s) && BaseInv(c, s) && LiveInv(c, s) && ProcInv(c, s)
  }

  /** Whatever the journal binds, the committed attestation accepts exactly the disk that holds those artifacts in
      their places, and only if the bound runtime manifest names the other bound artifacts and everything is for
      the required main. */
  lemma AttestCommittedBinds(h: Handoff, j: Journal, d: Disk, g: Generation, tree: Tree, m: RuntimeManifest, environment: Bytes, config: Bytes)
    requires j.bound == Some(Bindings(Digest(g), Digest(tree), Digest(m), Digest(environment), Digest(config)))
    ensures AttestCommitted(h, j, d) <==>
              && g.mainSha == h.requiredSha && tree.mainSha == h.requiredSha
              && m == RuntimeManifest(h.requiredSha, Digest(g), Digest(tree), Digest(environment), Digest(config))
              && d.generation == Whole(g)
              && d.live == Live(Whole(tree), Whole(m), Whole(environment), Whole(config), Whole(g), Whole(h.requiredSha))
  {
  }

  /** Under the bindings of this transaction, the committed attestation accepts exactly the complete new
      installation. */
  lemma AttestCommittedExactly(c: Context, j: Journal, d: Disk)
    requires ValidContext(c) && j.bound == Some(NewBindings(c))
    ensures AttestCommitted(c.handoff, j, d) <==>
              && d.generation == Whole(c.generation)
              && d.live == New(c)
  {
    AttestCommittedBinds(c.handoff, j, d, c.generation, c.generation.tree, NewRuntime(c), c.environment, c.config);
  }

  lemma ResumeKeepsInv(c: Context, s: State)
    requires Inv(c, s) && s.proc.Attested? && !Early(s.disk) && s.disk.journal.value.phase in {SWITCHING, SWITCHED}
    ensures Inv(c, s.(proc := Resume(s.disk.journal.value, 0), rollbackBegun := true))
  {
  }

  lemma AdvanceAttested(c: Context, s: State)
    requires Inv(c, s) && s.proc.Attested?
    ensures Inv(c, Advance(c, s))
  {
    if Early(s.disk) {
      assert Advance(c, s) == s.(proc := Prepare);
    } else if s.disk.journal.value.phase == COMMITTED {
      if AttestCommitted(c.handoff, s.disk.journal.value, s.disk) {
        AttestCommittedExactly(c, s.disk.journal.value, s.disk);
      }
    } else {
      ResumeKeepsInv(c, s);
    }
  }

  lemma AdvanceEntry(c: Context, s: State)
    requires Inv(c, s) && (s.proc.Begin? || s.proc.Republish?)
    ensures Inv(c, Advance(c, s))
  {
  }

  lemma AdvanceStaging(c: Context, s: State)
    requires Inv(c, s) && (s.proc.Prepare? || s.proc.Build? || s.proc.Stage? || s.proc.Copy? || s.proc.Plan?)
    ensures Inv(c, Advance(c, s))
  {
  }

  /** A backup step writes nothing but its backup, which it takes from the live file. */
  lemma BackupStepTakes(k: nat, d: Disk)
    requires k < BACKUP_STEPS && BackupsTaken(k, d)
    ensures BackupsTaken(k + 1, BackupStep(k, d)) && BackupStep(k, d).(backups := d.backups) == d
  {
  }

  lemma AdvanceBackup(c: Context, s: State)
    requires Inv(c, s) && s.proc.Backup?
    ensures Inv(c, Advance(c, s))
  {
    if s.proc.k < BACKUP_STEPS {
      BackupStepTakes(s.proc.k, s.disk);
    }
  }

  lemma AdvanceJournalling(c: Context, s: State)
    requires Inv(c, s) && s.proc.Journalling?
    ensures Inv(c, Advance(c, s))
  {
  }

  /** A switch step moves one location on and keeps the old values recoverable. */
  lemma SwitchStepKeeps(c: Context, j: Journal, base: Live, k: nat, d: Disk)
    requires k < SWITCH_STEPS && Recoverable(j, base, d) && d.live == Mixed(c, k, base)
    requires k == 0 ==> d.previousRepository.Absent?
    requires k <= 1 ==> d.stage == Whole(c.generation.tree)
    ensures Recoverable(j, base, SwitchStep(c, k, d)) && SwitchStep(c, k, d).live == Mixed(c, k + 1, base)
    ensures SwitchStep(c, k, d).journal == d.journal && (k == 0 ==> SwitchStep(c, k, d).stage == d.stage)
  {
  }

  lemma AdvanceSwitch(c: Context, s: State)
    requires Inv(c, s) && s.proc.Switching?
    ensures Inv(c, Advance(c, s))
  {
    if s.proc.k < SWITCH_STEPS {
      SwitchStepKeeps(c, s.proc.switching, s.base, s.proc.k, s.disk);
    }
  }

  lemma AdvanceCommit(c: Context, s: State)
    requires Inv(c, s) && (s.proc.Bind? || s.proc.Commit?)
    ensures Inv(c, Advance(c, s))
  {
  }

  lemma AdvancePublish(c: Context, s: State)
    requires Inv(c, s) && (s.proc.Recheck? || s.proc.Publish?)
    ensures Inv(c, Advance(c, s))
    ensures s.proc.Recheck? ==> Advance(c, s).proc.Publish?
  {
    AttestCommittedExactly(c, s.disk.journal.value, s.disk);
    assert s.disk.live == Mixed(c, SWITCH_STEPS, s.base) == New(c);
    var t := Advance(c, s);
    assert AttestCommitted(c.handoff, t.disk.journal.value, t.disk);
  }

  lemma AdvanceResume(c: Context, s: State)
    requires Inv(c, s) && s.proc.Resume?
    ensures Inv(c, Advance(c, s))
  {
    if s.proc.k < ROLLBACK_STEPS {
      RollbackStepRestores(s.proc.journal, s.proc.k, s.base, s.disk);
    }
  }

  lemma UnwoundKeepsInv(c: Context, s: State, d: Disk)
    requires Inv(c, s) && s.proc.Unwind? && s.proc.k < ROLLBACK_STEPS
    requires d.journal == s.disk.journal && d.backups == s.disk.backups
    requires Recoverable(s.proc.switching, s.base, d) && Restored(s.proc.k + 1, s.base, d)
    requires Early(d) ==>
               && d.previousRepository.Absent?
               && d.live == if s.proc.k == 0 then s.base.(pointer := Absent) else s.base
    ensures Inv(c, s.(disk := d, proc := Unwind(s.proc.switching, s.proc.k + 1)))
  {
  }

  /** While the pointer is being restored under an early journal, nothing else moves. */
  lemma EarlyUnwindStep(c: Context, s: State)
    requires Inv(c, s) && s.proc.Unwind? && s.proc.k < ROLLBACK_STEPS && Early(s.disk)
    ensures var d := RollbackStep(s.proc.switching, s.proc.k, s.disk);
            && d.previousRepository.Absent?
            && d.live == if s.proc.k == 0 then s.base.(pointer := Absent) else s.base
  {
  }

  lemma UnwindFinishes(c: Context, s: State)
    requires Inv(c, s) && s.proc.Unwind? && s.proc.k >= ROLLBACK_STEPS
    ensures Inv(c, Advance(c, s))
  {
  }

  lemma RollbackStepFrame(j: Journal, k: nat, d: Disk)
    requires k < ROLLBACK_STEPS
    ensures RollbackStep(j, k, d).journal == d.journal && RollbackStep(j, k, d).backups == d.backups
  {
  }

  lemma UnwindGoesOn(c: Context, s: State)
    requires Inv(c, s) && s.proc.Unwind? && s.proc.k < ROLLBACK_STEPS
    ensures Inv(c, s.(disk := RollbackStep(s.proc.switching, s.proc.k, s.disk), proc := Unwind(s.proc.switching, s.proc.k + 1)))
  {
    var sw, k := s.proc.switching, s.proc.k;
    RollbackStepRestores(sw, k, s.base, s.disk);
    RollbackStepFrame(sw, k, s.disk);
    if Early(s.disk) {
      EarlyUnwindStep(c, s);
    }
    UnwoundKeepsInv(c, s, RollbackStep(sw, k, s.disk));
  }

  lemma AdvanceUnwind(c: Context, s: State)
    requires Inv(c, s) && s.proc.Unwind?
    ensures Inv(c, Advance(c, s))
  {
    if s.proc.k < ROLLBACK_STEPS {
      UnwindGoesOn(c, s);
    } else {
      UnwindFinishes(c, s);
    }
  }

  lemma AdvanceKeepsInv(c: Context, s: State)
    requires Inv(c, s)
    ensures Inv(c, Advance(c, s))
  {
    if s.proc.Idle? || s.proc.Returned? {
      assert Advance(c, s) == s;
    } else if Handler(s.proc).Some? {
      AdvanceHandled(c, s);
    } else if IsStaging(s.proc) {
      AdvanceUnhandled(c, s);
    } else {
      AdvanceReentry(c, s);
    }
  }

  predicate IsStaging(p: Proc) {
    p.Prepare? || p.Build? || p.Stage? || p.Copy? || p.Plan? || p.Backup?
  }

  lemma AdvanceReentry(c: Context, s: State)
    requires Inv(c, s) && (s.proc.Begin? || s.proc.Attested? || s.proc.Republish? || s.proc.Resume? || s.proc.Unwind?)
    ensures Inv(c, Advance(c, s))
  {
    match s.proc
    case Begin => AdvanceEntry(c, s);
    case Attested => AdvanceAttested(c, s);
    case Republish => AdvanceEntry(c, s);
    case Resume(_, _) => AdvanceResume(c, s);
    case Unwind(_, _) => AdvanceUnwind(c, s);
  }

  lemma AdvanceHandled(c: Context, s: State)
    requires Inv(c, s) && Handler(s.proc).Some?
    ensures Inv(c, Advance(c, s))
  {
    match s.proc
    case Journalling(_) => AdvanceJournalling(c, s);
    case Switching(_, _) => AdvanceSwitch(c, s);
    case Bind(_) => AdvanceCommit(c, s);
    case Commit(_) => AdvanceCommit(c, s);
    case Recheck(_) => AdvancePublish(c, s);
    case Publish(_) => AdvancePublish(c, s);
  }

  lemma AdvanceUnhandled(c: Context, s: State)
    requires Inv(c, s) && IsStaging(s.proc)
    ensures Inv(c, Advance(c, s))
  {
    if s.proc.Backup? {
      AdvanceBackup(c, s);
    } else {
      AdvanceStaging(c, s);
    }
  }

  lemma StopKeepsInv(c: Context, s: State)
    requires Inv(c, s)
    ensures Inv(c, Stop(s))
  {
  }

  lemma UnwindKeepsInv(c: Context, s: State, sw: Journal)
    requires Inv(c, s) && !s.proc.Unwind?
    requires sw.phase == SWITCHING && Recoverable(sw, s.base, s.disk) && (Early(s.disk) ==> InStaged(s.disk))
    ensures Inv(c, BeginUnwind(s, sw))
  {
  }

  lemma HandlerCanRecover(c: Context, s: State)
    requires Inv(c, s) && Handler(s.proc).Some?
    ensures var sw := Handler(s.proc).value;
            sw.phase == SWITCHING && Recoverable(sw, s.base, s.disk) && (Early(s.disk) ==> InStaged(s.disk))
  {
  }

  lemma ThrowKeepsInv(c: Context, s: State)
    requires Inv(c, s)
    ensures Inv(c, Throw(s))
  {
    match Handler(s.proc)
    case Some(sw) => HandlerCanRecover(c, s); UnwindKeepsInv(c, s, sw);
    case None => StopKeepsInv(c, s);
  }

  lemma {:induction false} RunKeepsInv(c: Context, s: State, events: seq<Event>)
    requires Initial(c, s)
    ensures Inv(c, Run(c, s, events))
  {
    if events != [] {
      RunKeepsInv(c, s, events[..|events| - 1]);
      var s', e := Run(c, s, events[..|events| - 1]), events[|events| - 1];
      match e
      case Start =>
      case Step => AdvanceKeepsInv(c, s');
      case Raise => ThrowKeepsInv(c, s');
      case Crash => StopKeepsInv(c, s');
    }
  }

  // ----- What every run guarantees ------------------------------------------------------------------

  /** Under an absent, PREPARED, STAGED or ROLLED_BACK journal nothing is switched: all six locations
      are the ones from before, except that the pointer may be missing. */
  lemma EarlyJournalIsUnswitched(c: Context, s: State, events: seq<Event>)
    requires Initial(c, s)
    ensures var t := Run(c, s, events);
            Early(t.disk) ==> t.disk.live == c.before || t.disk.live == c.before.(pointer := Absent)
  {
    RunKeepsInv(c, s, events);
  }

  /** A live set that is neither the old nor the new one exists only from SWITCHING on (or while the
      pointer is cut under STAGED), and under SWITCHED or COMMITTED only once a rollback has begun. */
  lemma MixedStatesAreJournalled(c: Context, s: State, events: seq<Event>)
    requires Initial(c, s)
    ensures var t := Run(c, s, events);
            t.disk.live != New(c) && t.disk.live != c.before && t.disk.live != c.before.(pointer := Absent) ==>
              && !Early(t.disk)
              && (t.disk.journal.value.phase != SWITCHING ==> t.rollbackBegun)
  {
    RunKeepsInv(c, s, events);
  }

  /** Nothing is published, and no invocation returns, unless the disk passes the committed attestation. */
  lemma PublishedIsAttested(c: Context, s: State, events: seq<Event>)
    requires Initial(c, s)
    ensures var t := Run(c, s, events);
            t.proc.Publish? || t.proc.Republish? || t.proc.Returned? ==>
              && t.disk.journal.Some? && t.disk.journal.value.phase == COMMITTED
              && AttestCommitted(c.handoff, t.disk.journal.value, t.disk)
  {
    RunKeepsInv(c, s, events);
    var t := Run(c, s, events);
    if t.proc.Publish? {
      AttestCommittedExactly(c, t.disk.journal.value, t.disk);
    }
  }

  /** A normal COMMITTED return means all six locations are new and the completion is published. */
  lemma CommittedReturnIsComplete(c: Context, s: State, events: seq<Event>)
    requires Initial(c, s)
    ensures Run(c, s, events).proc.Returned? ==>
              Run(c, s, events).disk.live == New(c) && InCommitted(c, Run(c, s, events).disk) && Run(c, s, events).disk.completion
  {
    RunKeepsInv(c, s, events);
  }

  /** An exception anywhere from the planned SWITCHING write to the completion is undone by the handler: the
      protected live set is back, recorded as ROLLED_BACK, and nothing else is in progress. */
  lemma RaisedSwitchIsUndone(c: Context, s: State, events: seq<Event>)
    requires Initial(c, s)
    requires var p := Run(c, s, events).proc;
             p.Journalling? || p.Switching? || p.Bind? || p.Commit? || p.Recheck? || p.Publish?
    ensures var t := Run(c, s, events);
            var u := Steps(c, Apply(c, t, Raise), ROLLBACK_STEPS + 1);
            && u.proc.Idle? && u.disk.live == t.base
            && u.disk.journal.Some? && u.disk.journal.value.phase == ROLLED_BACK
  {
    var raised := Apply(c, Run(c, s, events), Raise);
    assert raised.proc.Unwind? && raised.proc.k == 0;
    UnwindEnds(c, raised);
    RunKeepsInv(c, s, events);
    ThrowKeepsInv(c, Run(c, s, events));
    StepsKeepInv(c, raised, ROLLBACK_STEPS + 1);
    StoppedEarlyIsBase(c, Steps(c, raised, ROLLBACK_STEPS + 1));
  }

  lemma UnwindEnds(c: Context, s: State)
    requires s.proc.Unwind? && s.proc.k == 0
    ensures var u := Steps(c, s, ROLLBACK_STEPS + 1);
            && u.proc.Idle? && u.base == s.base && u.disk.completion == s.disk.completion
            && u.disk.journal.Some? && u.disk.journal.value.phase == ROLLED_BACK
  {
    var u, n := s, 0;
    while n < ROLLBACK_STEPS
      invariant n <= ROLLBACK_STEPS && u == Steps(c, s, n) && u.base == s.base && u.disk.completion == s.disk.completion
      invariant u.proc.Unwind? && u.proc.k == n
    {
      u, n := Advance(c, u), n + 1;
    }
  }

  /** A disk that fails the committed attestation, whoever changed it, is not published: the handler rolls the switch
      back and the completion stays as it was. */
  lemma FailedRecheckRollsBack(c: Context, s: State)
    requires s.proc.Recheck? && s.disk.journal.Some? && !AttestCommitted(c.handoff, s.disk.journal.value, s.disk)
    ensures var u := Steps(c, s, ROLLBACK_STEPS + 2);
            && u.proc.Idle? && u.disk.completion == s.disk.completion
            && u.disk.journal.Some? && u.disk.journal.value.phase == ROLLED_BACK
  {
    assert Steps(c, s, 1) == Advance(c, s);
    UnwindEnds(c, Advance(c, s));
    StepsAdd(c, s, 1, ROLLBACK_STEPS + 1);
  }

  /** The journal is written ahead: PREPARED before anything is built, STAGED with the ownership of the generation
      before anything is backed up, SWITCHING before anything is switched, SWITCHED and COMMITTED with the digests of
      what was installed. */
  lemma JournalIsAhead(c: Context, s: State, events: seq<Event>)
    requires Initial(c, s)
    ensures var t := Run(c, s, events);
            && (t.proc.Build? || t.proc.Stage? ==> JournalIs(t.disk, PREPARED))
            && (t.proc.Copy? || t.proc.Backup? || t.proc.Plan? ==>
                  JournalIs(t.disk, STAGED) && t.disk.journal.value.generationCreated == t.proc.created)
            && (t.proc.Journalling? ==> JournalIs(t.disk, STAGED))
            && (t.proc.Switching? || t.proc.Bind? ==> JournalIs(t.disk, SWITCHING))
            && (t.proc.Commit? ==> JournalIs(t.disk, SWITCHED))
            && (t.proc.Recheck? || t.proc.Publish? ==> JournalIs(t.disk, COMMITTED))
  {
    RunKeepsInv(c, s, events);
  }

  predicate JournalIs(d: Disk, phase: Phase) {
    d.journal.Some? && d.journal.value.phase == phase
  }

  lemma StoppedEarlyIsBase(c: Context, s: State)
    requires Inv(c, s) && s.proc.Idle? && Early(s.disk)
    ensures s.disk.live == s.base
  {
  }

  /** From every reachable state of a journalled switch, finishing the rollback restores everything. */
  lemma ReachableRollbackRestores(c: Context, s: State, events: seq<Event>, cuts: seq<nat>)
    requires Initial(c, s) && ValidCuts(cuts)
    requires !Early(Run(c, s, events).disk)
    ensures var t := Run(c, s, events);
            && Rollback(t.disk.journal.value, ROLLBACK_STEPS, Interrupted(t.disk.journal.value, cuts, t.disk)).live == t.base
            && (t.base == c.before || t.base == c.before.(pointer := Absent))
  {
    RunKeepsInv(c, s, events);
    var t := Run(c, s, events);
    InterruptedRollbackRestores(t.disk.journal.value, cuts, t.base, t.disk);
  }

  // ----- Re-entry -------------------------------------------------------------------------------------

  /** Once the live set fails attestation, no later invocation writes anything. */
  lemma {:induction false} UnattestedIsFrozen(c: Context, s: State, events: seq<Event>)
    requires s.proc.Idle? && !AttestPre(c.handoff, s.disk.live)
    ensures var t := Run(c, s, events); t.disk == s.disk && (t.proc.Idle? || t.proc.Begin?)
  {
    if events != [] {
      UnattestedIsFrozen(c, s, events[..|events| - 1]);
    }
  }

  /** So a stopped host on which any of the four attested locations is not the installed one never changes. */
  lemma EditedHostIsFrozen(c: Context, s: State, events: seq<Event>)
    requires s.proc.Idle? && AttestPre(c.handoff, c.before)
    requires s.disk.live.boundary != c.before.boundary || s.disk.live.runtime != c.before.runtime
             || s.disk.live.environment != c.before.environment || s.disk.live.config != c.before.config
    ensures Run(c, s, events).disk == s.disk && !Run(c, s, events).proc.Returned?
  {
    if AttestPre(c.handoff, s.disk.live) {
      AttestPrePins(c.handoff, c.before, s.disk.live);
    } else {
      UnattestedIsFrozen(c, s, events);
    }
  }

  lemma SwitchedFailsAttestation(c: Context, s: State, events: seq<Event>)
    requires Initial(c, s) && c.handoff.installedSha != c.handoff.requiredSha
    requires var t := Run(c, s, events); !Early(t.disk) && !t.rollbackBegun && t.progress > 0
    ensures !AttestPre(c.handoff, Run(c, s, events).disk.live)
  {
    RunKeepsInv(c, s, events);
  }

  /** Killing a refresh after its first switch step and before a rollback begins is permanent: every
      later invocation of the same handoff raises and the disk never changes again.  In particular a
      kill between the COMMITTED write and the completion means the completion never appears. */
  lemma KilledSwitchIsFrozen(c: Context, s: State, events: seq<Event>, later: seq<Event>)
    requires Initial(c, s) && c.handoff.installedSha != c.handoff.requiredSha
    requires var t := Run(c, s, events); !Early(t.disk) && !t.rollbackBegun && t.progress > 0
    ensures Run(c, Stop(Run(c, s, events)), later).disk == Run(c, s, events).disk
    ensures !Run(c, Stop(Run(c, s, events)), later).proc.Returned?
  {
    SwitchedFailsAttestation(c, s, events);
    UnattestedIsFrozen(c, Stop(Run(c, s, events)), later);
  }

  /** So a re-entry that reaches the journalled rollback finds either an untouched live set or an
      interrupted rollback. */
  lemma ResumeOnlyFinishesRollbacks(c: Context, s: State, events: seq<Event>)
    requires Initial(c, s) && c.handoff.installedSha != c.handoff.requiredSha
    ensures var t := Run(c, s, events);
            t.proc.Attested? && !Early(t.disk) ==>
              t.rollbackBegun || (t.progress == 0 && t.disk.live == t.base && t.disk.journal.value.phase == SWITCHING)
  {
    RunKeepsInv(c, s, events);
  }

  /** A COMMITTED journal is never accepted on re-entry while the two identities differ. */
  lemma CommittedReentryRaises(c: Context, s: State, events: seq<Event>)
    requires Initial(c, s) && c.handoff.installedSha != c.handoff.requiredSha
    ensures !Run(c, s, events).proc.Republish?
  {
    RunKeepsInv(c, s, events);
  }

  // ----- The pointer window -----------------------------------------------------------------------------

  /** An exception while SWITCHING is being journalled starts a rollback under a STAGED journal. */
  ghost predicate RaisedWhileJournalling(c: Context, s: State, events: seq<Event>) {
    exists i :: 0 <= i < |events| && events[i] == Raise && Run(c, s, events[..i]).proc.Journalling?
  }

  lemma {:induction false} RaisedIsMonotone(c: Context, s: State, events: seq<Event>)
    requires events != [] && RaisedWhileJournalling(c, s, events[..|events| - 1])
    ensures RaisedWhileJournalling(c, s, events)
  {
    var shorter := events[..|events| - 1];
    var i :| 0 <= i < |shorter| && shorter[i] == Raise && Run(c, s, shorter[..i]).proc.Journalling?;
    assert shorter[..i] == events[..i];
  }

  predicate PointerAtRisk(c: Context, s: State) {
    s.base != c.before || (s.proc.Unwind? && Early(s.disk))
  }

  /** A step protects the same live set and begins no rollback in the handler. */
  lemma StepBeginsNoUnwind(c: Context, s: State)
    requires s.proc.Unwind? ==> s.proc.k <= ROLLBACK_STEPS
    requires s.proc.Recheck? ==> Advance(c, s).proc.Publish?
    ensures Advance(c, s).base == s.base
    ensures Advance(c, s).proc.Unwind? ==> s.proc.Unwind? && Advance(c, s).disk.journal == s.disk.journal
  {
  }

  lemma StopKeepsBase(c: Context, s: State)
    requires Inv(c, s) && !PointerAtRisk(c, s)
    ensures Stop(s).base == c.before
  {
  }

  /** Once SWITCHING is journalled, an exception is handled under a journal that is not early. */
  lemma EarlyHandlerIsJournalling(c: Context, s: State)
    requires Inv(c, s) && Handler(s.proc).Some? && Early(s.disk)
    ensures s.proc.Journalling?
  {
  }

  lemma RiskBeginsByRaise(c: Context, s: State, e: Event)
    requires Inv(c, s) && !PointerAtRisk(c, s) && PointerAtRisk(c, Apply(c, s, e))
    ensures e == Raise && s.proc.Journalling?
  {
    StopKeepsBase(c, s);
    match e
    case Start =>
    case Step => if s.proc.Recheck? { AdvancePublish(c, s); } StepBeginsNoUnwind(c, s);
    case Raise => if Handler(s.proc).Some? { EarlyHandlerIsJournalling(c, s); }
    case Crash =>
  }

  /** Nothing else can make an early journal disagree with the live set. */
  lemma {:induction false} PointerLossNeedsRaise(c: Context, s: State, events: seq<Event>)
    requires Initial(c, s)
    requires var t := Run(c, s, events); PointerAtRisk(c, t) || (Early(t.disk) && t.disk.live != c.before)
    ensures RaisedWhileJournalling(c, s, events)
  {
    RunKeepsInv(c, s, events);
    assert PointerAtRisk(c, Run(c, s, events));
    if events != [] {
      var last := |events| - 1;
      RunKeepsInv(c, s, events[..last]);
      if PointerAtRisk(c, Run(c, s, events[..last])) {
        PointerLossNeedsRaise(c, s, events[..last]);
        RaisedIsMonotone(c, s, events);
      } else {
        RiskBeginsByRaise(c, Run(c, s, events[..last]), events[last]);
      }
    }
  }

  function Steps(c: Context, s: State, n: nat): State {
    if n == 0 then s else Advance(c, Steps(c, s, n - 1))
  }

  lemma RunAppend(c: Context, s: State, events: seq<Event>, e: Event)
    ensures Run(c, s, events + [e]) == Apply(c, Run(c, s, events), e)
  {
    assert (events + [e])[..|events|] == events;
  }

  lemma {:induction false} StepsAreRuns(c: Context, s: State, events: seq<Event>, n: nat) returns (more: seq<Event>)
    ensures Run(c, s, more) == Steps(c, Run(c, s, events), n)
  {
    if n == 0 {
      more := events;
    } else {
      var shorter := StepsAreRuns(c, s, events, n - 1);
      more := shorter + [Step];
      calc {
        Run(c, s, more);
        { RunAppend(c, s, shorter, Step); }
        Advance(c, Run(c, s, shorter));
        Advance(c, Steps(c, Run(c, s, events), n - 1));
        Steps(c, Run(c, s, events), n);
      }
    }
  }

  /** The handoff is still current and the generation slot does not conflict. */
  predicate CanSwitch(c: Context, s: State) {
    && AttestPre(c.handoff, c.before)
    && (s.disk.generation.Absent? || s.disk.generation == Whole(c.generation))
  }

  /** Steps from the start of an invocation to the point where SWITCHING is about to be journalled. */
  const STEPS_TO_JOURNALLING: nat := 16

  lemma ReachesBackups(c: Context, s: State)
    requires Initial(c, s) && CanSwitch(c, s)
    ensures var t := Steps(c, s.(proc := Begin), 6);
            t.proc.Backup? && t.proc.k == 0 && InStaged(t.disk) && t.disk.live == c.before
  {
    var b := s.(proc := Begin);
    var s1 := Advance(c, b);
    assert s1.proc.Attested? && Steps(c, b, 1) == s1;
    var s2 := Advance(c, s1);
    assert s2.proc.Prepare? && Steps(c, b, 2) == s2;
    var s3 := Advance(c, s2);
    assert s3.proc.Build? && Steps(c, b, 3) == s3;
    var s4 := Advance(c, s3);
    assert s4.proc.Stage? && Steps(c, b, 4) == s4;
    var s5 := Advance(c, s4);
    assert s5.proc.Copy? && InStaged(s5.disk) && Steps(c, b, 5) == s5;
    assert Steps(c, b, 6) == Advance(c, s5);
  }

  lemma ReachesJournalling(c: Context, s: State)
    requires Initial(c, s) && CanSwitch(c, s)
    ensures var t := Steps(c, s.(proc := Begin), STEPS_TO_JOURNALLING);
            t.proc.Journalling? && InStaged(t.disk) && t.disk.live == c.before
  {
    ReachesBackups(c, s);
    var b := s.(proc := Begin);
    var t, n := Steps(c, b, 6), 0;
    while n < BACKUP_STEPS
      invariant n <= BACKUP_STEPS && t == Steps(c, b, 6 + n)
      invariant t.proc.Backup? && t.proc.k == n && InStaged(t.disk) && t.disk.live == c.before
    {
      t, n := Advance(c, t), n + 1;
    }
    assert Steps(c, b, 15) == Advance(c, t) && Advance(c, t).proc.Plan?;
    assert Steps(c, b, 16) == Advance(c, Advance(c, t));
  }

  /** With a pointer in place, an exception during the SWITCHING write followed by a kill loses it
      under a STAGED journal. */
  lemma PointerCanBeLost(c: Context, s: State) returns (events: seq<Event>)
    requires Initial(c, s) && CanSwitch(c, s) && !c.before.pointer.Absent?
    ensures var t := Run(c, s, events);
            t.proc.Idle? && InStaged(t.disk) && t.disk.live == c.before.(pointer := Absent)
  {
    ReachesJournalling(c, s);
    RunAppend(c, s, [], Start);
    events := StepsAreRuns(c, s, [] + [Start], STEPS_TO_JOURNALLING);
    var t := Run(c, s, events);
    RunAppend(c, s, events, Raise);
    RunAppend(c, s, events + [Raise], Step);
    RunAppend(c, s, events + [Raise] + [Step], Crash);
    events := events + [Raise] + [Step] + [Crash];
    var unwinding := BeginUnwind(t, t.proc.switching);
    assert Throw(t) == unwinding;
    assert Advance(c, unwinding).disk == t.disk.(live := t.disk.live.(pointer := Absent));
  }

  lemma {:induction false} CannotSwitchKeepsLive(c: Context, s: State, events: seq<Event>)
    requires Initial(c, s) && !CanSwitch(c, s)
    ensures var t := Run(c, s, events);
            && t.disk.live == c.before && t.disk.generation == s.disk.generation && Early(t.disk)
            && (t.proc.Idle? || t.proc.Begin? || t.proc.Attested? || t.proc.Prepare? || t.proc.Build?)
            && (t.proc.Attested? || t.proc.Prepare? || t.proc.Build? ==> AttestPre(c.handoff, c.before))
  {
    if events != [] {
      CannotSwitchKeepsLive(c, s, events[..|events| - 1]);
    }
  }

  /** Every early journal comes with the untouched live set. */
  ghost predicate EarlyKeepsAll(c: Context, s: State) {
    forall events :: Early(Run(c, s, events).disk) ==> Run(c, s, events).disk.live == c.before
  }

  /** Exactly the refreshes that start without a `current` pointer (or cannot switch at all) keep all
      six locations under every early journal. */
  lemma EarlyKeepsAllExactly(c: Context, s: State)
    requires Initial(c, s)
    ensures EarlyKeepsAll(c, s) <==> c.before.pointer.Absent? || !CanSwitch(c, s)
  {
    if CanSwitch(c, s) && !c.before.pointer.Absent? {
      var events := PointerCanBeLost(c, s);
      assert Early(Run(c, s, events).disk);
    } else {
      forall events | Early(Run(c, s, events).disk)
        ensures Run(c, s, events).disk.live == c.before
      {
        if CanSwitch(c, s) {
          EarlyJournalIsUnswitched(c, s, events);
        } else {
          CannotSwitchKeepsLive(c, s, events);
        }
      }
    }
  }

  lemma {:induction false} StepsAdd(c: Context, s: State, m: nat, n: nat)
    ensures Steps(c, s, m + n) == Steps(c, Steps(c, s, m), n)
  {
    if n > 0 {
      StepsAdd(c, s, m, n - 1);
    }
  }

  lemma ReachesSwitched(c: Context, s: State)
    requires Initial(c, s) && CanSwitch(c, s)
    ensures var t := Steps(c, s.(proc := Begin), 24); t.proc.Switching? && t.proc.k == SWITCH_STEPS
  {
    ReachesJournalling(c, s);
    var b := s.(proc := Begin);
    var t, n := Advance(c, Steps(c, b, STEPS_TO_JOURNALLING)), 0;
    while n < SWITCH_STEPS
      invariant n <= SWITCH_STEPS && t == Steps(c, b, 17 + n)
      invariant t.proc.Switching? && t.proc.k == n
    {
      t, n := Advance(c, t), n + 1;
    }
  }

  lemma {:induction false} StepsKeepInv(c: Context, s: State, n: nat)
    requires Inv(c, s)
    ensures Inv(c, Steps(c, s, n))
  {
    if n > 0 {
      StepsKeepInv(c, s, n - 1);
      AdvanceKeepsInv(c, Steps(c, s, n - 1));
    }
  }

  lemma RecheckReturns(c: Context, s: State)
    requires s.proc.Recheck? && Inv(c, s)
    ensures Steps(c, s, 2).proc.Returned?
  {
    AdvancePublish(c, s);
    PublishReturns(c, s);
  }

  lemma PublishReturns(c: Context, s: State)
    requires Advance(c, s).proc.Publish?
    ensures Steps(c, s, 2).proc.Returned?
  {
    assert Steps(c, s, 1) == Advance(c, s);
  }

  lemma ReachesRecheck(c: Context, s: State)
    requires s.proc.Switching? && s.proc.k == SWITCH_STEPS
    ensures Steps(c, s, 3).proc.Recheck?
  {
    var s1 := Advance(c, s);
    assert s1.proc.Bind? && Steps(c, s, 1) == s1;
    var s2 := Advance(c, s1);
    assert s2.proc.Commit? && Steps(c, s, 2) == s2;
  }

  /** Whatever reaches the committed attestation passes it and returns. */
  lemma ReachesReturn(c: Context, s: State, n: nat)
    requires Inv(c, s) && Steps(c, s, n).proc.Recheck?
    ensures Steps(c, s, n + 2).proc.Returned?
  {
    StepsKeepInv(c, s, n);
    RecheckReturns(c, Steps(c, s, n));
    StepsAdd(c, s, n, 2);
  }

  /** An undisturbed invocation commits. */
  lemma UndisturbedRefreshCommits(c: Context, s: State) returns (events: seq<Event>)
    requires Initial(c, s) && CanSwitch(c, s)
    ensures var t := Run(c, s, events);
            t.proc.Returned? && t.disk.live == New(c) && t.disk.completion && InCommitted(c, t.disk)
  {
    ReachesSwitched(c, s);
    var b := s.(proc := Begin);
    ReachesRecheck(c, Steps(c, b, 24));
    StepsAdd(c, b, 24, 3);
    ReachesReturn(c, b, 27);
    RunAppend(c, s, [], Start);
    events := StepsAreRuns(c, s, [] + [Start], 29);
    CommittedReturnIsComplete(c, s, events);
  }
}
