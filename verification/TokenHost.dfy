/** `refresh` and `promote` of deployment/github_token_refresher.py as the program runs them, on files that
    change in place, and their place among the runs of `TokenHandoff`. */
module TokenHost {
  import opened Prelude
  import opened TokenHandoff

  datatype Files = Files(
    outboxToken: Option<string>,
    outboxMetadata: Option<Metadata>,
    targetToken: Option<Installed<string>>,
    targetMetadata: Option<Installed<Metadata>>)

  function FilesOf(s: State): Files {
    Files(s.outboxToken, s.outboxMetadata, s.targetToken, s.targetMetadata)
  }

  function Refreshed(policy: Policy, files: Files, token: string, now: int, expires: int): Files {
    files.(outboxToken := Some(token), outboxMetadata := Some(Issue(policy, token, now, expires)))
  }

  predicate CanPromote(policy: Policy, files: Files, now: int) {
    files.outboxToken.Some? && files.outboxMetadata.Some?
    && Promotable(policy, files.outboxToken.value, files.outboxMetadata.value, now)
  }

  function Promoted(files: Files): Files
    requires files.outboxToken.Some? && files.outboxMetadata.Some?
  {
    files.(targetMetadata := Some(Installed(files.outboxMetadata.value, ControllerReadable)),
           targetToken := Some(Installed(files.outboxToken.value, ControllerReadable)))
  }

  class Host {
    var outboxToken: Option<string>
    var outboxMetadata: Option<Metadata>
    var targetToken: Option<Installed<string>>
    var targetMetadata: Option<Installed<Metadata>>

    ghost function View(): Files
      reads this
    {
      Files(outboxToken, outboxMetadata, targetToken, targetMetadata)
    }

    /** Both outbox files, or neither if the answer is unsafe or stale. */
    method Refresh(policy: Policy, token: string, now: int, expires: int) returns (ok: bool)
      modifies this
      ensures ok <==> Issuable(policy, token, now, expires)
      ensures View() == if ok then Refreshed(policy, old(View()), token, now, expires) else old(View())
    {
      if !Issuable(policy, token, now, expires) {
        return false;
      }
      outboxToken := Some(token);
      outboxMetadata := Some(Issue(policy, token, now, expires));
      return true;
    }

    /** Metadata first, the token last, each handed to the controller after it is in place. */
    method Promote(policy: Policy, now: int) returns (ok: bool)
      modifies this
      ensures ok <==> CanPromote(policy, old(View()), now)
      ensures View() == if ok then Promoted(old(View())) else old(View())
    {
      if outboxToken.None? || outboxMetadata.None? {
        return false;
      }
      var token, metadata := outboxToken.value, outboxMetadata.value;
      if !Promotable(policy, token, metadata, now) {
        return false;
      }
      targetMetadata := Some(Installed(metadata, RootOnly));
      targetMetadata := Some(targetMetadata.value.(access := ControllerReadable));
      targetToken := Some(Installed(token, RootOnly));
      targetToken := Some(targetToken.value.(access := ControllerReadable));
      return true;
    }
  }

  /** `n` steps of one process with nothing in between. */
  function Undisturbed(policy: Policy, s: State, pid: nat, now: int, n: nat): State {
    if n == 0 then s else Apply(policy, Undisturbed(policy, s, pid, now, n - 1), Run(pid), now)
  }

  lemma {:induction false} RunAllNext(policy: Policy, s: State, events: seq<(Event, int)>, e: Event, now: int)
    ensures RunAll(policy, s, events + [(e, now)]) == Apply(policy, RunAll(policy, s, events), e, now)
  {
    assert (events + [(e, now)])[..|events|] == events;
  }

  /** Undisturbed steps are among the runs that the theorems of `TokenHandoff` range over. */
  lemma {:induction false} UndisturbedIsARun(policy: Policy, s: State, before: seq<(Event, int)>, pid: nat, now: int, n: nat)
    returns (events: seq<(Event, int)>)
    ensures RunAll(policy, s, events) == Undisturbed(policy, RunAll(policy, s, before), pid, now, n)
    ensures before <= events
  {
    events := before;
    if n > 0 {
      var shorter := UndisturbedIsARun(policy, s, before, pid, now, n - 1);
      RunAllNext(policy, s, shorter, Run(pid), now);
      events := shorter + [(Run(pid), now)];
    }
  }

  const REFRESH_STEPS: nat := 2
  const PROMOTE_STEPS: nat := 7

  /** An undisturbed refresh process does what `Host.Refresh` does. */
  lemma {:induction false} RefreshProcess(policy: Policy, s: State, pid: nat, token: string, now: int, expires: int)
    requires pid !in s.procs && Issuable(policy, token, now, expires)
    ensures var t := Undisturbed(policy, Apply(policy, s, StartRefresh(pid, token, expires), now), pid, now, REFRESH_STEPS);
            t.procs[pid := Done] == t.procs && FilesOf(t) == Refreshed(policy, FilesOf(s), token, now, expires)
  {
    var s0 := Apply(policy, s, StartRefresh(pid, token, expires), now);
    var s1 := Advance(policy, s0, pid, now);
    assert Undisturbed(policy, s0, pid, now, 1) == s1;
    assert Undisturbed(policy, s0, pid, now, 2) == Advance(policy, s1, pid, now);
  }

  /** Where an undisturbed promote process stands and what it has done after `n` steps. */
  lemma {:induction false} PromoteSteps(policy: Policy, s: State, pid: nat, now: int, n: nat)
    requires pid !in s.procs && n <= PROMOTE_STEPS
    ensures var t := Undisturbed(policy, Apply(policy, s, StartPromote(pid), now), pid, now, n);
            && t.procs == s.procs[pid := PromoteAt(policy, FilesOf(s), now, n)]
            && t.issued == s.issued && FilesOf(t) == FilesAt(policy, FilesOf(s), now, n)
  {
    if n > 0 {
      PromoteSteps(policy, s, pid, now, n - 1);
    }
  }

  /** An undisturbed promote process does what `Host.Promote` does. */
  lemma {:induction false} PromoteProcess(policy: Policy, s: State, pid: nat, now: int)
    requires pid !in s.procs
    ensures var t := Undisturbed(policy, Apply(policy, s, StartPromote(pid), now), pid, now, PROMOTE_STEPS);
            && pid in t.procs && t.procs[pid] == Done
            && FilesOf(t) == if CanPromote(policy, FilesOf(s), now) then Promoted(FilesOf(s)) else FilesOf(s)
  {
    PromoteSteps(policy, s, pid, now, PROMOTE_STEPS);
  }

  /** Where the promote process stands after `n` steps. */
  function PromoteAt(policy: Policy, files: Files, now: int, n: nat): Proc {
    if n == 0 then ReadToken
    else if files.outboxToken.None? then Done
    else
      var token := files.outboxToken.value;
      if n == 1 then ReadMetadata(token)
      else if files.outboxMetadata.None? then Done
      else
        var metadata := files.outboxMetadata.value;
        if n == 2 then Check(token, metadata)
        else if !CanPromote(policy, files, now) then Done
        else if n == 3 then InstallMetadata(token, metadata, now)
        else if n == 4 then OwnMetadata(token, metadata, now)
        else if n == 5 then InstallToken(token, metadata, now)
        else if n == 6 then OwnToken
        else Done
  }

  /** What the files hold after `n` steps. */
  function FilesAt(policy: Policy, files: Files, now: int, n: nat): Files {
    if n < 4 || !CanPromote(policy, files, now) then files
    else
      var token, metadata := files.outboxToken.value, files.outboxMetadata.value;
      files.(targetMetadata := Some(Installed(metadata, if n == 4 then RootOnly else ControllerReadable)),
             targetToken := if n < 6 then files.targetToken
                            else Some(Installed(token, if n == 6 then RootOnly else ControllerReadable)))
  }
}
