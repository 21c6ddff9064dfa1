/** The completion audit of tcfactory/completion.py: who may declare the product complete, and the
    remediation tasks it proposes otherwise. */
module CompletionAudit {
  import opened Decimals

  datatype Verdict = COMPLETE | INCOMPLETE | BLOCKED

  datatype WorkItem = WorkItem(taskId: string, outcome: string, dependsOn: seq<string>)

  datatype Report = Report(verdict: Verdict, missing: seq<WorkItem>, blockers: seq<string>, evidence: seq<string>)

  /** `_validate_completion_report`. */
  predicate Consistent(r: Report) {
    r.verdict == COMPLETE ==> r.missing == [] && r.blockers == []
  }

  predicate AllConsistent(reports: seq<Report>) {
    forall i :: 0 <= i < |reports| ==> Consistent(reports[i])
  }

  /** `_reports_agree_complete`. */
  predicate AgreeComplete(reports: seq<Report>) {
    reports != [] && forall i :: 0 <= i < |reports| ==> reports[i].verdict == COMPLETE
  }

  /** `_needs_adjudicator`; sorted item lists are equal exactly when they are permutations. */
  predicate NeedsAdjudicator(reports: seq<Report>) {
    || reports == []
    || (exists i :: 0 <= i < |reports| && reports[i].verdict != reports[0].verdict)
    || (reports[0].verdict == INCOMPLETE
        && exists i :: 0 <= i < |reports| && multiset(reports[i].missing) != multiset(reports[0].missing))
  }

  /** The adjudicator is spared exactly when there are reports, they agree on the verdict, and on an INCOMPLETE
      one they name the same items, each as often. */
  lemma NeedsAdjudicatorExactly(reports: seq<Report>)
    ensures !NeedsAdjudicator(reports) <==>
              && reports != []
              && (forall r, s :: r in reports && s in reports ==> r.verdict == s.verdict)
              && (forall r, s, item :: r in reports && s in reports && r.verdict == INCOMPLETE ==>
                    multiset(r.missing)[item] == multiset(s.missing)[item])
  {
    if !NeedsAdjudicator(reports) {
      forall r | r in reports
        ensures r.verdict == reports[0].verdict && (r.verdict == INCOMPLETE ==> multiset(r.missing) == multiset(reports[0].missing))
      {
        var i :| 0 <= i < |reports| && reports[i] == r;
      }
    } else if reports != [] {
      if i :| 0 <= i < |reports| && reports[i].verdict != reports[0].verdict {
        assert reports[i] in reports && reports[0] in reports;
      } else {
        var i :| 0 <= i < |reports| && multiset(reports[i].missing) != multiset(reports[0].missing);
        assert reports[i] in reports && reports[0] in reports;
        var item :| multiset(reports[i].missing)[item] != multiset(reports[0].missing)[item];
      }
    }
  }

  // ----- Fresh task identifiers -----------------------------------------------------------------------

  function ZeroPadded(s: string, width: nat): string
    decreases width - |s|
  {
    if |s| >= width then s else ZeroPadded(['0'] + s, width)
  }

  /** f"AUTO{cursor:03d}". */
  function AutoId(cursor: nat): string {
    "AUTO" + ZeroPadded(Decimal(cursor), 3)
  }

  lemma {:induction false} LeadingZero(s: string)
    ensures Value(['0'] + s) == Value(s)
  {
    if s == [] {
      assert (['0'] + s)[..0] == [];
    } else {
      LeadingZero(s[..|s| - 1]);
      assert (['0'] + s)[..|s|] == ['0'] + s[..|s| - 1];
    }
  }

  lemma {:induction false} PaddingKeepsValue(s: string, width: nat)
    ensures Value(ZeroPadded(s, width)) == Value(s)
    decreases width - |s|
  {
    if |s| < width {
      LeadingZero(s);
      PaddingKeepsValue(['0'] + s, width);
    }
  }

  lemma {:induction false} PaddingShape(s: string, width: nat)
    requires forall i :: 0 <= i < |s| ==> IsDigit(s[i])
    ensures |ZeroPadded(s, width)| == if |s| < width then width else |s|
    ensures forall i :: 0 <= i < |ZeroPadded(s, width)| ==> IsDigit(ZeroPadded(s, width)[i])
    decreases width - |s|
  {
    if |s| < width {
      PaddingShape(['0'] + s, width);
    }
  }

  /** The identifier is AUTO and then the cursor in decimal, with at least three digits. */
  lemma AutoIdShape(cursor: nat)
    ensures |AutoId(cursor)| >= 7 && AutoId(cursor)[..4] == "AUTO"
    ensures forall i :: 4 <= i < |AutoId(cursor)| ==> '0' <= AutoId(cursor)[i] <= '9'
    ensures Value(AutoId(cursor)[4..]) == cursor
    ensures |AutoId(cursor)| > 7 ==> AutoId(cursor)[4..] == Decimal(cursor)
  {
    DecimalShape(cursor);
    PaddingShape(Decimal(cursor), 3);
    PaddingKeepsValue(Decimal(cursor), 3);
    DecimalValue(cursor);
    assert AutoId(cursor)[4..] == ZeroPadded(Decimal(cursor), 3);
  }

  lemma AutoIdIsInjective(a: nat, b: nat)
    requires AutoId(a) == AutoId(b)
    ensures a == b
  {
    assert AutoId(a)[4..] == ZeroPadded(Decimal(a), 3);
    assert AutoId(b)[4..] == ZeroPadded(Decimal(b), 3);
    PaddingKeepsValue(Decimal(a), 3);
    PaddingKeepsValue(Decimal(b), 3);
    DecimalValue(a);
    DecimalValue(b);
  }

  ghost predicate IsAutoFrom(id: string, cursor: nat) {
    exists k: nat :: k >= cursor && AutoId(k) == id
  }

  /** The used identifiers that the search can still run into. */
  ghost function Ahead(used: set<string>, cursor: nat): set<string> {
    set id | id in used && IsAutoFrom(id, cursor)
  }

  lemma SearchAdvances(used: set<string>, cursor: nat)
    requires AutoId(cursor) in used
    ensures Ahead(used, cursor + 1) < Ahead(used, cursor)
  {
    assert AutoId(cursor) in Ahead(used, cursor);
    assert AutoId(cursor) !in Ahead(used, cursor + 1) by {
      if IsAutoFrom(AutoId(cursor), cursor + 1) {
        var k: nat :| k >= cursor + 1 && AutoId(k) == AutoId(cursor);
        AutoIdIsInjective(k, cursor);
      }
    }
    forall id | id in Ahead(used, cursor + 1) ensures id in Ahead(used, cursor) {
      var k: nat :| k >= cursor + 1 && AutoId(k) == id;
    }
  }

  /** The cursor loop: one fresh identifier per failure, for every finite ledger. */
  method GenerateIds(existing: set<string>, count: nat) returns (ids: seq<string>)
    ensures |ids| == count
    ensures forall i :: 0 <= i < count ==> ids[i] !in existing && IsAutoFrom(ids[i], 1)
    ensures forall i, j :: 0 <= i < j < count ==> ids[i] != ids[j]
  {
    ids := [];
    var used := existing;
    var cursor := 1;
    for n := 0 to count
      invariant |ids| == n && cursor >= 1
      invariant existing <= used && forall i :: 0 <= i < n ==> ids[i] in used
      invariant forall i :: 0 <= i < n ==> ids[i] !in existing && IsAutoFrom(ids[i], 1)
      invariant forall i, j :: 0 <= i < j < n ==> ids[i] != ids[j]
    {
      while AutoId(cursor) in used
        invariant cursor >= 1
        decreases Ahead(used, cursor)
      {
        SearchAdvances(used, cursor);
        cursor := cursor + 1;
      }
      var id := AutoId(cursor);
      used := used + {id};
      ids := ids + [id];
      cursor := cursor + 1;
    }
  }

  // ----- Proposed work ----------------------------------------------------------------------------------

  predicate DistinctIds(items: seq<WorkItem>) {
    forall i, j :: 0 <= i < j < |items| ==> items[i].taskId != items[j].taskId
  }

  predicate KnownDependencies(existing: set<string>, items: seq<WorkItem>) {
    forall i, d :: 0 <= i < |items| && d in items[i].dependsOn ==>
      d in existing || exists j :: 0 <= j < |items| && items[j].taskId == d
  }

  /** `_validate_new_items`. */
  predicate ValidNewItems(existing: set<string>, items: seq<WorkItem>) {
    && DistinctIds(items)
    && (forall i :: 0 <= i < |items| ==> items[i].taskId !in existing)
    && KnownDependencies(existing, items)
  }

  /** No kept item depends on one that the cut drops. */
  predicate NoneDropped(items: seq<WorkItem>, n: nat)
    requires n <= |items|
  {
    forall i, j :: 0 <= i < n <= j < |items| ==> items[j].taskId !in items[i].dependsOn
  }

  /** A cut of valid work keeps every dependency known exactly when no kept item depends on a dropped one. */
  lemma {:induction false} CutKeepsDependencies(existing: set<string>, items: seq<WorkItem>, n: nat)
    requires ValidNewItems(existing, items) && n <= |items|
    ensures KnownDependencies(existing, items[..n]) <==> NoneDropped(items, n)
  {
    var kept := items[..n];
    if KnownDependencies(existing, kept) {
      forall i, j | 0 <= i < n <= j < |items| ensures items[j].taskId !in items[i].dependsOn {
        assert kept[i] == items[i];
        assert forall k :: 0 <= k < n ==> kept[k].taskId == items[k].taskId != items[j].taskId;
      }
    }
    if NoneDropped(items, n) {
      forall i, d | 0 <= i < n && d in kept[i].dependsOn && d !in existing
        ensures exists k :: 0 <= k < n && kept[k].taskId == d
      {
        assert kept[i] == items[i];
        var k :| 0 <= k < |items| && items[k].taskId == d;
        assert k < n && kept[k].taskId == d;
      }
    }
  }

  /** One remediation item per deterministic failure; validation always accepts them. */
  method Remediate(existing: set<string>, failures: seq<string>) returns (items: seq<WorkItem>)
    ensures |items| == |failures| && ValidNewItems(existing, items)
    ensures forall i :: 0 <= i < |items| ==> items[i].dependsOn == []
    ensures forall i :: 0 <= i < |items| ==> items[i].outcome == "Resolve deterministic product completion failure: " + failures[i]
  {
    var ids := GenerateIds(existing, |failures|);
    items := seq(|failures|, i requires 0 <= i < |failures| =>
      WorkItem(ids[i], "Resolve deterministic product completion failure: " + failures[i], []));
  }

  // ----- The decision -----------------------------------------------------------------------------------

  /** Everything the audit observes; the adjudicator is consulted only when it is needed. */
  datatype Audit = Audit(
    existing: set<string>,
    buildComplete: bool,
    reports: seq<Report>,
    adjudicator: Report,
    failures: seq<string>,
    gatePassed: bool,
    gateDetail: string,
    mainMoved: bool)

  datatype Outcome = Complete | Proposed(items: seq<WorkItem>) | Refused

  const GATE_FAILURE: string := "Private product-completion gate failed: "

  /** The report that decides. */
  function Decision(a: Audit): Report {
    if NeedsAdjudicator(a.reports) then a.adjudicator else a.reports[|a.reports| - 1]
  }

  /** Every report that counts is consistent, and neither the roadmap nor main stands in the way. */
  predicate MayDecide(a: Audit) {
    && a.buildComplete && !a.mainMoved
    && (forall r :: r in a.reports ==> r.verdict == COMPLETE ==> r.missing == [] && r.blockers == [])
    && (NeedsAdjudicator(a.reports) && a.adjudicator.verdict == COMPLETE ==> a.adjudicator.missing == [] && a.adjudicator.blockers == [])
  }

  /** The deterministic failures, with the private gate's if it was run and did not pass. */
  function AllFailures(a: Audit): seq<string> {
    if a.failures == [] && !a.gatePassed && a.reports != [] && forall r :: r in a.reports ==> r.verdict == COMPLETE
    then ["Private product-completion gate failed: " + a.gateDetail] else a.failures
  }

  lemma MayDecideExactly(a: Audit)
    ensures MayDecide(a) <==>
              a.buildComplete && !a.mainMoved && AllConsistent(a.reports) && (NeedsAdjudicator(a.reports) ==> Consistent(a.adjudicator))
  {
    assert forall r :: r in a.reports ==> exists i :: 0 <= i < |a.reports| && a.reports[i] == r;
  }

  lemma FailuresExactly(a: Audit)
    ensures AllFailures(a) == if AgreeComplete(a.reports) && a.failures == [] && !a.gatePassed then [GATE_FAILURE + a.gateDetail] else a.failures
  {
    assert AgreeComplete(a.reports) <==> a.reports != [] && forall r :: r in a.reports ==> r.verdict == COMPLETE;
  }

  /** Something can be proposed: remediation of failures despite a COMPLETE decision, or valid missing work. */
  predicate HasProposal(existing: set<string>, decision: Report, failures: seq<string>) {
    && decision.verdict != BLOCKED
    && ((decision.verdict == COMPLETE && failures != []) || (decision.missing != [] && ValidNewItems(existing, decision.missing)))
  }

  /** The proposed work: one item for each failure of a COMPLETE decision, else what the decision misses. */
  ghost predicate IsProposal(decision: Report, failures: seq<string>, work: seq<WorkItem>) {
    if decision.verdict == COMPLETE && failures != [] then
      && |work| == |failures|
      && forall i :: 0 <= i < |work| ==>
           work[i].dependsOn == [] && work[i].outcome == "Resolve deterministic product completion failure: " + failures[i]
    else work == decision.missing
  }

  /** `audit_and_expand_or_complete`.  The work is validated before it is cut to five items. */
  method Decide(a: Audit) returns (o: Outcome, ghost work: seq<WorkItem>)
    ensures o.Complete? <==> MayComplete(a)
    ensures o.Proposed? <==> MayDecide(a) && !MayComplete(a) && HasProposal(a.existing, Decision(a), AllFailures(a))
    ensures o.Proposed? ==>
              && IsProposal(Decision(a), AllFailures(a), work)
              && ValidNewItems(a.existing, work) && 1 <= |o.items| <= |work| && o.items == work[..|o.items|]
              && |o.items| == (if |work| > 5 then 5 else |work|)
              && DistinctIds(o.items) && (forall i :: 0 <= i < |o.items| ==> o.items[i].taskId !in a.existing)
              && (KnownDependencies(a.existing, o.items) <==> NoneDropped(work, |o.items|))
  {
    work := [];
    var ok := CheckReports(a);
    if !ok {
      o := Refused;
      return;
    }
    var failures := RunGate(a);
    CompleteExactly(a);
    if AgreeComplete(a.reports) && failures == [] {
      o := Complete;
      return;
    }
    o, work := Propose(a.existing, Decision(a), failures);
  }

  /** The checks before a decision: the roadmap, each report, the adjudicator's if it is asked, and main. */
  method CheckReports(a: Audit) returns (ok: bool)
    ensures ok <==> MayDecide(a)
  {
    MayDecideExactly(a);
    if !a.buildComplete || !AllConsistent(a.reports) {
      return false;
    }
    if NeedsAdjudicator(a.reports) && !Consistent(a.adjudicator) {
      return false;
    }
    ok := !a.mainMoved;
  }

  /** The private gate is run only if every report says COMPLETE and nothing else failed. */
  method RunGate(a: Audit) returns (failures: seq<string>)
    ensures failures == AllFailures(a)
  {
    FailuresExactly(a);
    failures := a.failures;
    if AgreeComplete(a.reports) && failures == [] && !a.gatePassed {
      failures := failures + [GATE_FAILURE + a.gateDetail];
    }
  }

  lemma CompleteExactly(a: Audit)
    ensures MayComplete(a) <==> MayDecide(a) && AgreeComplete(a.reports) && AllFailures(a) == []
  {
    MayDecideExactly(a);
    FailuresExactly(a);
  }

  /** The proposal, when the product is not complete. */
  method Propose(existing: set<string>, decision: Report, failures: seq<string>) returns (o: Outcome, ghost work: seq<WorkItem>)
    ensures !o.Complete?
    ensures o.Proposed? <==> HasProposal(existing, decision, failures)
    ensures o.Proposed? ==>
              && IsProposal(decision, failures, work)
              && ValidNewItems(existing, work) && 1 <= |o.items| <= |work| && o.items == work[..|o.items|]
              && |o.items| == (if |work| > 5 then 5 else |work|)
              && (KnownDependencies(existing, o.items) <==> NoneDropped(work, |o.items|))
  {
    o, work := Refused, [];
    if decision.verdict == BLOCKED {
      return;
    }
    var missing := decision.missing;
    if decision.verdict == COMPLETE && failures != [] {
      missing := Remediate(existing, failures);
    }
    if missing == [] || !ValidNewItems(existing, missing) {
      return;
    }
    work := missing;
    var n := if |missing| > 5 then 5 else |missing|;
    CutKeepsDependencies(existing, work, n);
    o := Proposed(missing[..n]);
  }

  /** Completion needs every independent report, the deterministic checks, the private gate and a main
      branch that stood still. */
  predicate MayComplete(a: Audit) {
    && a.buildComplete && a.reports != [] && !a.mainMoved && a.failures == [] && a.gatePassed
    && forall i :: 0 <= i < |a.reports| ==>
         a.reports[i].verdict == COMPLETE && a.reports[i].missing == [] && a.reports[i].blockers == []
  }

  /** When completion is possible the adjudicator is not even asked, so no verdict of its can bring it about. */
  lemma AdjudicatorCannotComplete(a: Audit, other: Report)
    ensures MayComplete(a) ==> !NeedsAdjudicator(a.reports)
    ensures MayComplete(a.(adjudicator := other)) <==> MayComplete(a)
  {
  }
}
