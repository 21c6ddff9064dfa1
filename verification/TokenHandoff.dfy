/** The two processes of deployment/github_token_refresher.py.

    Any number of `refresh` and `promote` invocations interleave, one file replacement or one read at a
    time, and any of them may die between two steps.  `os.replace` is one atomic step. */
module TokenHandoff {
  import opened Prelude

  /** The identity and permission scope of an installation token. */
  datatype Scope = Scope(appId: nat, installation: nat, repository: string, permissions: map<string, string>)

  datatype Policy = Policy(scope: Scope, refreshBefore: nat)

  datatype Metadata = Metadata(scope: Scope, tokenDigest: Digest<string>, issuedAt: int, expiresAt: int)

  predicate WellFormedToken(token: string) {
    "ghs_" <= token && forall i :: 0 <= i < |token| ==> token[i] !in {'\0', '\r', '\n'}
  }

  const TWO_HOURS: int := 7200

  /** What `refresh` demands of the API answer. */
  predicate Issuable(policy: Policy, token: string, now: int, expires: int) {
    && WellFormedToken(token) && 20 <= |token| <= 4096
    && now + policy.refreshBefore < expires <= now + TWO_HOURS
  }

  /** What `promote` demands of the two files it read. */
  predicate Promotable(policy: Policy, token: string, metadata: Metadata, now: int) {
    && metadata.scope == policy.scope
    && metadata.tokenDigest == Digest(token)
    && metadata.expiresAt > now + policy.refreshBefore
    && WellFormedToken(token)
  }

  /** What a refresh accepts, in full. */
  lemma IssuableMeans(policy: Policy, token: string, now: int, expires: int)
    ensures Issuable(policy, token, now, expires) <==>
              && 20 <= |token| <= 4096 && token[..4] == "ghs_"
              && (forall i :: 0 <= i < |token| ==> token[i] != '\0' && token[i] != '\r' && token[i] != '\n')
              && expires - now > policy.refreshBefore && expires - now <= 7200
  {
  }

  /** What a refresh issued can be promoted for as long as more than the refresh margin is left, and no longer. */
  lemma FreshPairIsPromotable(policy: Policy, token: string, now: int, expires: int, later: int)
    requires Issuable(policy, token, now, expires)
    ensures Promotable(policy, token, Issue(policy, token, now, expires), later) <==> later < expires - policy.refreshBefore
    ensures now < expires - policy.refreshBefore
  {
  }

  datatype Access = RootOnly | ControllerReadable

  datatype Installed<T> = Installed(value: T, access: Access)

  /** Where one invocation stands. */
  datatype Proc =
    | RefreshToken(token: string, metadata: Metadata)
    | RefreshMetadata(metadata: Metadata)
    | ReadToken
    | ReadMetadata(token: string)
    | Check(token: string, metadata: Metadata)
    | InstallMetadata(token: string, metadata: Metadata, at: int)
    | OwnMetadata(token: string, metadata: Metadata, at: int)
    | InstallToken(token: string, metadata: Metadata, at: int)
    | OwnToken
    | Done

  /** `issued` is history: every pair that some refresh made. */
  datatype State = State(
    outboxToken: Option<string>,
    outboxMetadata: Option<Metadata>,
    targetToken: Option<Installed<string>>,
    targetMetadata: Option<Installed<Metadata>>,
    procs: map<nat, Proc>,
    issued: set<(string, Metadata)>)

  datatype Event =
    | StartRefresh(pid: nat, token: string, expires: int)
    | StartPromote(pid: nat)
    | Run(pid: nat)
    | Crash(pid: nat)

  function Issue(policy: Policy, token: string, now: int, expires: int): Metadata {
    Metadata(policy.scope, Digest(token), now, expires)
  }

  /** One step of one invocation. */
  function Advance(policy: Policy, s: State, pid: nat, now: int): State
    requires pid in s.procs
  {
    match s.procs[pid]
    case RefreshToken(t, m) => s.(outboxToken := Some(t), procs := s.procs[pid := RefreshMetadata(m)])
    case RefreshMetadata(m) => s.(outboxMetadata := Some(m), procs := s.procs[pid := Done])
    case ReadToken => s.(procs := s.procs[pid := if s.outboxToken.Some? then ReadMetadata(s.outboxToken.value) else Done])
    case ReadMetadata(t) =>
      s.(procs := s.procs[pid := if s.outboxMetadata.Some? then Check(t, s.outboxMetadata.value) else Done])
    case Check(t, m) =>
      s.(procs := s.procs[pid := if Promotable(policy, t, m, now) then InstallMetadata(t, m, now) else Done])
    case InstallMetadata(t, m, at) =>
      s.(targetMetadata := Some(Installed(m, RootOnly)), procs := s.procs[pid := OwnMetadata(t, m, at)])
    case OwnMetadata(t, m, at) =>
      s.(targetMetadata := Own(s.targetMetadata), procs := s.procs[pid := InstallToken(t, m, at)])
    case InstallToken(t, m, at) =>
      s.(targetToken := Some(Installed(t, RootOnly)), procs := s.procs[pid := OwnToken])
    case OwnToken => s.(targetToken := Own(s.targetToken), procs := s.procs[pid := Done])
    case Done => s
  }

  function Own<T>(f: Option<Installed<T>>): Option<Installed<T>> {
    match f
    case None => None
    case Some(i) => Some(i.(access := ControllerReadable))
  }

  /** The clock reads `now` while this event happens. */
  function Apply(policy: Policy, s: State, e: Event, now: int): State {
    match e
    case StartRefresh(pid, token, expires) =>
      if pid in s.procs || !Issuable(policy, token, now, expires) then s
      else
        var m := Issue(policy, token, now, expires);
        s.(procs := s.procs[pid := RefreshToken(token, m)], issued := s.issued + {(token, m)})
    case StartPromote(pid) => if pid in s.procs then s else s.(procs := s.procs[pid := ReadToken])
    case Run(pid) => if pid in s.procs then Advance(policy, s, pid, now) else s
    case Crash(pid) => s.(procs := s.procs - {pid})
  }

  function RunAll(policy: Policy, s: State, events: seq<(Event, int)>): State {
    if events == [] then s
    else
      var last := events[|events| - 1];
      Apply(policy, RunAll(policy, s, events[..|events| - 1]), last.0, last.1)
  }

  /** The outbox is empty or holds files that some refresh wrote; no invocation is under way. */
  predicate Initial(policy: Policy, s: State) {
    && s.procs == map[]
    && OutboxIssued(s, s.outboxToken, s.outboxMetadata)
    && PairsMatch(policy, s)
  }

  predicate PairsMatch(policy: Policy, s: State) {
    forall p :: p in s.issued ==> p.1.tokenDigest == Digest(p.0) && p.1.scope == policy.scope
  }

  predicate TokenIssued(s: State, t: string) {
    exists p :: p in s.issued && p.0 == t
  }

  predicate MetadataIssued(s: State, m: Metadata) {
    exists p :: p in s.issued && p.1 == m
  }

  /** A pair that a promote may install: made together by one refresh and checked against the policy. */
  predicate Genuine(policy: Policy, s: State, t: string, m: Metadata, at: int) {
    (t, m) in s.issued && Promotable(policy, t, m, at)
  }

  ghost predicate ProcInv(policy: Policy, s: State, p: Proc) {
    match p
    case RefreshToken(t, m) => (t, m) in s.issued
    case RefreshMetadata(m) => MetadataIssued(s, m)
    case ReadToken => true
    case ReadMetadata(t) => TokenIssued(s, t)
    case Check(t, m) => TokenIssued(s, t) && MetadataIssued(s, m)
    case InstallMetadata(t, m, at) => Genuine(policy, s, t, m, at)
    case OwnMetadata(t, m, at) => Genuine(policy, s, t, m, at)
    case InstallToken(t, m, at) => Genuine(policy, s, t, m, at)
    case OwnToken => true
    case Done => true
  }

  ghost predicate TargetInv(policy: Policy, first: State, s: State) {
    s.targetToken.None? || SameToken(first.targetToken, s.targetToken.value.value)
    || exists m, at :: Genuine(policy, s, s.targetToken.value.value, m, at)
  }

  predicate SameToken(f: Option<Installed<string>>, token: string) {
    f.Some? && f.value.value == token
  }

  ghost predicate Inv(policy: Policy, first: State, s: State) {
    && PairsMatch(policy, s)
    && OutboxIssued(s, s.outboxToken, s.outboxMetadata)
    && (forall pid :: pid in s.procs ==> ProcInv(policy, s, s.procs[pid]))
    && (first.targetToken.Some? ==> s.targetToken.Some?)
    && TargetInv(policy, first, s)
  }

  /** Files of two different refreshes never pass the check together. */
  lemma TornPairIsRefused(policy: Policy, s: State, t: string, m: Metadata, now: int)
    requires PairsMatch(policy, s) && MetadataIssued(s, m)
    ensures Promotable(policy, t, m, now) ==> (t, m) in s.issued
  {
    var p :| p in s.issued && p.1 == m;
    if Promotable(policy, t, m, now) {
      assert p == (t, m);
    }
  }

  lemma IssuedOnlyGrows(policy: Policy, s: State, s': State)
    requires s.issued <= s'.issued
    ensures forall t :: TokenIssued(s, t) ==> TokenIssued(s', t)
    ensures forall m :: MetadataIssued(s, m) ==> MetadataIssued(s', m)
    ensures forall p :: ProcInv(policy, s, p) ==> ProcInv(policy, s', p)
  {
  }

  lemma TargetKept(policy: Policy, first: State, s: State, s': State)
    requires TargetInv(policy, first, s) && s.issued <= s'.issued
    requires s.targetToken.None? <==> s'.targetToken.None?
    requires s.targetToken.Some? ==> s'.targetToken.value.value == s.targetToken.value.value
    ensures TargetInv(policy, first, s')
  {
    if s.targetToken.Some? && !SameToken(first.targetToken, s.targetToken.value.value) {
      var m, at :| Genuine(policy, s, s.targetToken.value.value, m, at);
      assert Genuine(policy, s', s'.targetToken.value.value, m, at);
    }
  }

  predicate OutboxIssued(s: State, token: Option<string>, metadata: Option<Metadata>) {
    && (token.Some? ==> TokenIssued(s, token.value))
    && (metadata.Some? ==> MetadataIssued(s, metadata.value))
  }

  lemma NextProcInv(policy: Policy, s: State, pid: nat, now: int)
    requires PairsMatch(policy, s) && OutboxIssued(s, s.outboxToken, s.outboxMetadata)
    requires pid in s.procs && ProcInv(policy, s, s.procs[pid])
    ensures var s' := Advance(policy, s, pid, now);
            ProcInv(policy, s, s'.procs[pid]) && OutboxIssued(s, s'.outboxToken, s'.outboxMetadata)
  {
    match s.procs[pid]
    case RefreshToken(t, m) => assert (t, m) in s.issued && (t, m).0 == t && (t, m).1 == m;
    case Check(t, m) => TornPairIsRefused(policy, s, t, m, now);
    case _ =>
  }

  lemma AdvanceKeepsInv(policy: Policy, first: State, s: State, pid: nat, now: int)
    requires Inv(policy, first, s) && pid in s.procs
    ensures Inv(policy, first, Advance(policy, s, pid, now))
  {
    var s' := Advance(policy, s, pid, now);
    NextProcInv(policy, s, pid, now);
    IssuedOnlyGrows(policy, s, s');
    if s.procs[pid].InstallToken? {
      assert Genuine(policy, s', s'.targetToken.value.value, s.procs[pid].metadata, s.procs[pid].at);
    } else {
      TargetKept(policy, first, s, s');
    }
    forall q | q in s'.procs ensures ProcInv(policy, s', s'.procs[q]) {
      assert ProcInv(policy, s, s'.procs[q]);
    }
  }

  lemma StepKeepsInv(policy: Policy, first: State, s: State, e: Event, now: int)
    requires Inv(policy, first, s)
    ensures Inv(policy, first, Apply(policy, s, e, now))
  {
    var s' := Apply(policy, s, e, now);
    if e.Run? && e.pid in s.procs {
      AdvanceKeepsInv(policy, first, s, e.pid, now);
    } else {
      IssuedOnlyGrows(policy, s, s');
      TargetKept(policy, first, s, s');
    }
  }

  lemma {:induction false} RunsKeepInv(policy: Policy, s: State, events: seq<(Event, int)>)
    requires Initial(policy, s)
    ensures Inv(policy, s, RunAll(policy, s, events))
  {
    if events != [] {
      var last := |events| - 1;
      RunsKeepInv(policy, s, events[..last]);
      StepKeepsInv(policy, s, RunAll(policy, s, events[..last]), events[last].0, events[last].1);
    }
  }

  // ----- When the pair was checked, and when it was made ---------------------------------------------------

  /** Event `k` is the step in which a promote that had read `token` and `m` checked them: the clock of that step
      left the token more than the refresh margin to live, and digest, scope and form were right. */
  ghost predicate CheckedAt(policy: Policy, s: State, events: seq<(Event, int)>, k: nat, token: string, m: Metadata)
    requires k < |events|
  {
    var before := RunAll(policy, s, events[..k]);
    && events[k].0.Run? && events[k].0.pid in before.procs && before.procs[events[k].0.pid] == Check(token, m)
    && m.expiresAt > events[k].1 + policy.refreshBefore
    && m.tokenDigest == Digest(token) && m.scope == policy.scope
    && |token| >= 4 && token[..4] == "ghs_" && (forall i :: 0 <= i < |token| ==> token[i] != '\0' && token[i] != '\r' && token[i] != '\n')
  }

  ghost predicate Checked(policy: Policy, s: State, events: seq<(Event, int)>, token: string, m: Metadata) {
    exists k :: 0 <= k < |events| && CheckedAt(policy, s, events, k, token, m)
  }

  /** Event `k` started the refresh that made the pair: the API answered with a token of 20 to 4096 characters that
      expires within two hours and after the refresh margin, and the metadata says so. */
  ghost predicate MadeAt(policy: Policy, events: seq<(Event, int)>, k: nat, token: string, m: Metadata)
    requires k < |events|
  {
    && events[k].0.StartRefresh? && events[k].0.token == token && 20 <= |token| <= 4096
    && m.issuedAt == events[k].1 && m.expiresAt == events[k].0.expires
    && m.issuedAt + policy.refreshBefore < m.expiresAt <= m.issuedAt + 7200
    && m.tokenDigest == Digest(token) && m.scope == policy.scope
  }

  ghost predicate Made(policy: Policy, events: seq<(Event, int)>, token: string, m: Metadata) {
    exists k :: 0 <= k < |events| && MadeAt(policy, events, k, token, m)
  }

  predicate PastCheck(p: Proc, token: string, m: Metadata) {
    match p
    case InstallMetadata(t, n, _) => t == token && n == m
    case OwnMetadata(t, n, _) => t == token && n == m
    case InstallToken(t, n, _) => t == token && n == m
    case _ => false
  }

  /** What the run so far says about every pair on its way to the target, the target's token and every issued pair. */
  ghost predicate Traced(policy: Policy, s: State, events: seq<(Event, int)>) {
    var t := RunAll(policy, s, events);
    && (forall pid, token, m :: pid in t.procs && PastCheck(t.procs[pid], token, m) ==> Checked(policy, s, events, token, m))
    && (t.targetToken.None? || SameToken(s.targetToken, t.targetToken.value.value)
        || exists m :: (t.targetToken.value.value, m) in t.issued && Checked(policy, s, events, t.targetToken.value.value, m))
    && (forall p :: p in t.issued ==> p in s.issued || Made(policy, events, p.0, p.1))
  }

  lemma {:induction false} TraceGrows(policy: Policy, s: State, events: seq<(Event, int)>)
    requires events != []
    ensures forall token, m :: Checked(policy, s, events[..|events| - 1], token, m) ==> Checked(policy, s, events, token, m)
    ensures forall token, m :: Made(policy, events[..|events| - 1], token, m) ==> Made(policy, events, token, m)
  {
    var shorter := events[..|events| - 1];
    forall token, m | Checked(policy, s, shorter, token, m) ensures Checked(policy, s, events, token, m) {
      var k :| 0 <= k < |shorter| && CheckedAt(policy, s, shorter, k, token, m);
      assert shorter[..k] == events[..k];
      assert CheckedAt(policy, s, events, k, token, m);
    }
    forall token, m | Made(policy, shorter, token, m) ensures Made(policy, events, token, m) {
      var k :| 0 <= k < |shorter| && MadeAt(policy, shorter, k, token, m);
      assert MadeAt(policy, events, k, token, m);
    }
  }

  /** The last event lets a pair past the check only by checking it. */
  lemma {:induction false} LastCheck(policy: Policy, s: State, events: seq<(Event, int)>, pid: nat, token: string, m: Metadata)
    requires events != []
    requires var t := RunAll(policy, s, events); pid in t.procs && PastCheck(t.procs[pid], token, m)
    requires var b := RunAll(policy, s, events[..|events| - 1]); pid in b.procs && !PastCheck(b.procs[pid], token, m)
    ensures CheckedAt(policy, s, events, |events| - 1, token, m)
  {
  }

  lemma {:induction false} ProcsStayTraced(policy: Policy, s: State, events: seq<(Event, int)>)
    requires events != [] && Traced(policy, s, events[..|events| - 1])
    ensures var t := RunAll(policy, s, events);
            forall pid, token, m :: pid in t.procs && PastCheck(t.procs[pid], token, m) ==> Checked(policy, s, events, token, m)
  {
    TraceGrows(policy, s, events);
    var b, t := RunAll(policy, s, events[..|events| - 1]), RunAll(policy, s, events);
    forall pid, token, m | pid in t.procs && PastCheck(t.procs[pid], token, m) ensures Checked(policy, s, events, token, m) {
      assert pid in b.procs;
      if !PastCheck(b.procs[pid], token, m) {
        LastCheck(policy, s, events, pid, token, m);
      }
    }
  }

  lemma {:induction false} IssuedStaysTraced(policy: Policy, s: State, events: seq<(Event, int)>)
    requires events != [] && Traced(policy, s, events[..|events| - 1])
    ensures forall p :: p in RunAll(policy, s, events).issued ==> p in s.issued || Made(policy, events, p.0, p.1)
  {
    TraceGrows(policy, s, events);
    var b, t := RunAll(policy, s, events[..|events| - 1]), RunAll(policy, s, events);
    forall p | p in t.issued && p !in b.issued ensures Made(policy, events, p.0, p.1) {
      assert MadeAt(policy, events, |events| - 1, p.0, p.1);
    }
  }

  lemma {:induction false} TargetStaysTraced(policy: Policy, s: State, events: seq<(Event, int)>)
    requires Initial(policy, s) && events != [] && Traced(policy, s, events[..|events| - 1])
    ensures var t := RunAll(policy, s, events);
            t.targetToken.None? || SameToken(s.targetToken, t.targetToken.value.value)
            || exists m :: (t.targetToken.value.value, m) in t.issued && Checked(policy, s, events, t.targetToken.value.value, m)
  {
    TraceGrows(policy, s, events);
    var b, t := RunAll(policy, s, events[..|events| - 1]), RunAll(policy, s, events);
    var e := events[|events| - 1].0;
    if e.Run? && e.pid in b.procs && b.procs[e.pid].InstallToken? {
      var token, m := b.procs[e.pid].token, b.procs[e.pid].metadata;
      RunsKeepInv(policy, s, events[..|events| - 1]);
      assert PastCheck(b.procs[e.pid], token, m) && ProcInv(policy, b, b.procs[e.pid]);
      assert (token, m) in t.issued && Checked(policy, s, events, token, m);
    } else if t.targetToken.Some? {
      assert b.targetToken.Some? && b.targetToken.value.value == t.targetToken.value.value && b.issued <= t.issued;
    }
  }

  lemma {:induction false} RunsStayTraced(policy: Policy, s: State, events: seq<(Event, int)>)
    requires Initial(policy, s)
    ensures Traced(policy, s, events)
  {
    if events != [] {
      RunsStayTraced(policy, s, events[..|events| - 1]);
      ProcsStayTraced(policy, s, events);
      IssuedStaysTraced(policy, s, events);
      TargetStaysTraced(policy, s, events);
    }
  }

  /** In every interleaving and after every crash, the installed token is the one from before or one of a pair that a
      single refresh made and that a promote of this run checked before installing it: right digest, right scope,
      and by the clock of that check more than the refresh margin left to live. */
  lemma InstalledTokenIsGenuine(policy: Policy, s: State, events: seq<(Event, int)>)
    requires Initial(policy, s)
    ensures var t := RunAll(policy, s, events);
            t.targetToken.None? || SameToken(s.targetToken, t.targetToken.value.value)
            || exists m :: var token := t.targetToken.value.value;
                 && Checked(policy, s, events, token, m)
                 && ((token, m) in s.issued || Made(policy, events, token, m))
    ensures s.targetToken.Some? ==> RunAll(policy, s, events).targetToken.Some?
  {
    RunsKeepInv(policy, s, events);
    RunsStayTraced(policy, s, events);
    var t := RunAll(policy, s, events);
    if t.targetToken.Some? && !SameToken(s.targetToken, t.targetToken.value.value) {
      var token := t.targetToken.value.value;
      var m :| (token, m) in t.issued && Checked(policy, s, events, token, m);
      assert (token, m).0 == token && (token, m).1 == m;
      assert (token, m) in s.issued || Made(policy, events, token, m);
    }
  }
}
