/** The loan overdue sweep (backend/src/jobs/issueOverdue.job.js): at one
    instant `now`, every loan still `ISSUED` whose due date is strictly
    before `now` becomes `OVERDUE`. Only the loan's status is written; the
    book keeps its status (the book schema has no overdue value). */
module IssueOverdue {
  import opened Books

  /** The sweep's query: `status: "ISSUED", dueAt: { $lt: now }`. */
  predicate IsPastDue(i: Issue, now: int) {
    i.status == IssueStatus.ISSUED && i.dueAt < now
  }

  /** The loop over the matching loans, one document at a time. */
  function MarkOverdue(issues: seq<Issue>, now: int): (r: seq<Issue>)
    ensures |r| == |issues|
    ensures forall k | 0 <= k < |issues| && IsPastDue(issues[k], now) ::
      r[k] == issues[k].(status := IssueStatus.OVERDUE)
    ensures forall k | 0 <= k < |issues| && !IsPastDue(issues[k], now) :: r[k] == issues[k]
  {
    if |issues| == 0 then []
    else
      var i := if IsPastDue(issues[0], now) then issues[0].(status := IssueStatus.OVERDUE) else issues[0];
      [i] + MarkOverdue(issues[1..], now)
  }

  /** One tick of the job over the library. */
  function SweepIssues(db: LibraryDb, now: int): (r: LibraryDb)
    ensures r.books == db.books
    ensures |r.issues| == |db.issues|
    ensures forall k | 0 <= k < |db.issues| ::
      r.issues[k].status == (if IsPastDue(db.issues[k], now) then IssueStatus.OVERDUE else db.issues[k].status)
    ensures forall k | 0 <= k < |db.issues| ::
      r.issues[k] == db.issues[k].(status := r.issues[k].status)
  {
    db.(issues := MarkOverdue(db.issues, now))
  }

  /** The boundary: a loan due exactly at `now` is not yet overdue; returned
      and overdue loans are untouched; the fine, return time and due date
      of every loan are kept. */
  lemma OverdueBoundary(db: LibraryDb, now: int, k: nat)
    requires k < |db.issues|
    ensures db.issues[k].dueAt == now ==> SweepIssues(db, now).issues[k] == db.issues[k]
    ensures db.issues[k].status != IssueStatus.ISSUED ==> SweepIssues(db, now).issues[k] == db.issues[k]
    ensures var i := SweepIssues(db, now).issues[k];
      i.fineAmount == db.issues[k].fineAmount && i.returnedAt == db.issues[k].returnedAt
      && i.dueAt == db.issues[k].dueAt
  {
  }

  /** A book on an overdue loan keeps its `ISSUED` status. */
  lemma BookStaysIssued(db: LibraryDb, now: int, b: nat)
    requires b < |db.books| && db.books[b].status == BookStatus.ISSUED
    ensures SweepIssues(db, now).books[b].status == BookStatus.ISSUED
  {
  }

  /** A second sweep at the same instant changes nothing. */
  lemma OverdueIdempotent(db: LibraryDb, now: int)
    ensures SweepIssues(SweepIssues(db, now), now) == SweepIssues(db, now)
  {
    var once := SweepIssues(db, now);
    assert SweepIssues(once, now).issues == once.issues;
  }
}
