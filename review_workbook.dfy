/** The parent's review of submitted workbooks (src/pages/ReviewWorkbook.tsx). The new
    status is written first; an approval then awards the (kid, workbook) override if there
    is one, or else the points the parent types, which are remembered as a new override. */
module ReviewWorkbook {
  import opened Records
  import opened ChoreDatabase
  import opened ProfilePage

  datatype WorkbookVerdict = Approve | Reject

  /** What an approval awards: points, and whether they are to be kept as a new override;
      or nothing, when there is no override and the typed text is not a number. */
  datatype Award = Award(points: int, remember: bool) | InvalidInput

  /** The award of an approval: the pair's first override, else the parsed input. */
  function WorkbookAward(overrides: seq<KidWorkbookPointOverride>, kidId: string, bookId: nat, typed: Option<int>): Award {
    match OverridePoints(overrides, kidId, bookId)
    case Some(p) => Award(p, false)
    case None =>
      match typed
      case Some(p) => Award(p, true)
      case None => InvalidInput
  }

  /** The kid after a workbook award. */
  function AwardedKid(k: Kid, award: int): Kid {
    k.(points := k.points + award, completedWorkbooks := k.completedWorkbooks + 1,
       lifetimePoints := k.lifetimePoints + award)
  }

  function StatusOf(v: WorkbookVerdict): WorkStatus {
    if v == Approve then Approved else WorkStatus.Rejected
  }

  /** `updateStatus(assignment, status)` on the tables; `typed` is the parent's answer to the
      prompt, parsed (`None` when it is not a number). */
  function ReviewWorkbookTables(t: Tables, a: WorkbookAssignment, v: WorkbookVerdict, typed: Option<int>): Tables {
    var written := t.(workbookAssignments := t.workbookAssignments[a.id := a.(status := StatusOf(v))]);
    if a.kidId !in t.kidProfiles || a.workBookId !in t.woodBooks || v == Reject then written
    else
      match WorkbookAward(t.kidWorkbookPointOverrides, a.kidId, a.workBookId, typed)
      case InvalidInput => written
      case Award(p, remember) =>
        written.(
          kidWorkbookPointOverrides :=
            if remember then t.kidWorkbookPointOverrides + [KidWorkbookPointOverride(a.kidId, a.workBookId, p)]
            else t.kidWorkbookPointOverrides,
          kidProfiles := t.kidProfiles[a.kidId := AwardedKid(t.kidProfiles[a.kidId], p)],
          workbookAssignments := t.workbookAssignments[a.id := a.(status := Approved, points := Some(p))])
  }

  /** The verdict is always written to the assignment, whatever follows. */
  lemma VerdictAlwaysWritten(t: Tables, a: WorkbookAssignment, v: WorkbookVerdict, typed: Option<int>)
    ensures var u := ReviewWorkbookTables(t, a, v, typed);
      a.id in u.workbookAssignments && u.workbookAssignments[a.id].status == StatusOf(v)
      && u.workbookAssignments.Keys == t.workbookAssignments.Keys + {a.id}
      && (forall n :: n in t.workbookAssignments && n != a.id ==> u.workbookAssignments[n] == t.workbookAssignments[n])
  {
  }

  /** A rejection, a missing kid or book, or an unusable answer leaves everything but the
      assignment's status as it was: no kid field changes (not even `rejectedWorkbooks`)
      and no override is added. */
  lemma OnlyStatusWithoutAward(t: Tables, a: WorkbookAssignment, v: WorkbookVerdict, typed: Option<int>)
    requires v == Reject || a.kidId !in t.kidProfiles || a.workBookId !in t.woodBooks
             || WorkbookAward(t.kidWorkbookPointOverrides, a.kidId, a.workBookId, typed) == InvalidInput
    ensures ReviewWorkbookTables(t, a, v, typed)
            == t.(workbookAssignments := t.workbookAssignments[a.id := a.(status := StatusOf(v))])
  {
  }

  /** An approval with an override awards the override and adds no new one. */
  lemma ApproveWithOverride(t: Tables, a: WorkbookAssignment, typed: Option<int>)
    requires a.kidId in t.kidProfiles && a.workBookId in t.woodBooks
    requires OverridePoints(t.kidWorkbookPointOverrides, a.kidId, a.workBookId).Some?
    ensures var p := OverridePoints(t.kidWorkbookPointOverrides, a.kidId, a.workBookId).value;
      var u := ReviewWorkbookTables(t, a, Approve, typed);
      u.kidWorkbookPointOverrides == t.kidWorkbookPointOverrides
      && u.kidProfiles[a.kidId] == AwardedKid(t.kidProfiles[a.kidId], p)
      && u.workbookAssignments[a.id].points == Some(p)
  {
  }

  /** An approval that credits `p` adds it to the balance and the lifetime points, counts
      the workbook, and changes no other field of the kid. */
  lemma AwardedKidDeltas(k: Kid, p: int)
    ensures var r := AwardedKid(k, p);
      r.points == k.points + p && r.lifetimePoints == k.lifetimePoints + p
      && r.completedWorkbooks == k.completedWorkbooks + 1
      && r.(points := k.points, lifetimePoints := k.lifetimePoints, completedWorkbooks := k.completedWorkbooks) == k
  {
  }

  /** The override a first approval records is the one every later approval of the same
      kid and book awards, whatever the parent types then. */
  lemma OverrideReused(t: Tables, a: WorkbookAssignment, p: int, b: WorkbookAssignment, typed: Option<int>)
    requires a.kidId in t.kidProfiles && a.workBookId in t.woodBooks
    requires OverridePoints(t.kidWorkbookPointOverrides, a.kidId, a.workBookId).None?
    requires b.kidId == a.kidId && b.workBookId == a.workBookId
    ensures var u := ReviewWorkbookTables(t, a, Approve, Some(p));
      u.kidWorkbookPointOverrides == t.kidWorkbookPointOverrides + [KidWorkbookPointOverride(a.kidId, a.workBookId, p)]
      && WorkbookAward(u.kidWorkbookPointOverrides, b.kidId, b.workBookId, typed) == Award(p, false)
  {
    OverridePointsAfterAppend(t.kidWorkbookPointOverrides, a.kidId, a.workBookId, p);
  }

  /** A pair without an override finds the first override added for it. */
  lemma {:induction false} OverridePointsAfterAppend(os: seq<KidWorkbookPointOverride>, kidId: string, bookId: nat, p: int)
    requires OverridePoints(os, kidId, bookId).None?
    ensures OverridePoints(os + [KidWorkbookPointOverride(kidId, bookId, p)], kidId, bookId) == Some(p)
  {
    if os != [] {
      assert (os + [KidWorkbookPointOverride(kidId, bookId, p)])[1..] == os[1..] + [KidWorkbookPointOverride(kidId, bookId, p)];
      OverridePointsAfterAppend(os[1..], kidId, bookId, p);
    }
  }

  /** A workbook with an override, submitted and then approved, credits the override twice
      to the lifetime points (once at submission, once at approval) and once to the balance. */
  lemma SubmitThenApproveCreditsLifetimeTwice(t: Tables, kidId: string, bookId: nat, today: string, newId: nat, typed: Option<int>)
    requires kidId != "" && kidId in t.kidProfiles && bookId in t.woodBooks && newId !in t.workbookAssignments
    requires !HasActiveWorkbook(t.workbookAssignments, kidId, bookId, today)
    requires OverridePoints(t.kidWorkbookPointOverrides, kidId, bookId).Some?
    ensures var o := OverridePoints(t.kidWorkbookPointOverrides, kidId, bookId).value;
      var s := SubmitWorkbook(t, Some(kidId), bookId, today, newId);
      var u := ReviewWorkbookTables(s, s.workbookAssignments[newId], Approve, typed);
      u.kidProfiles[kidId].lifetimePoints == t.kidProfiles[kidId].lifetimePoints + 2 * o
      && u.kidProfiles[kidId].points == t.kidProfiles[kidId].points + o
  {
    SubmitWorkbookCreditsLifetime(t, kidId, bookId, today, newId);
  }

  /** Approve and reject are offered for a pending assignment only. */
  predicate WorkbookReviewOffered(s: WorkStatus) {
    s == Pending
  }

  /** After either verdict the assignment is no longer offered for review. */
  lemma ReviewedNotOfferedAgain(t: Tables, a: WorkbookAssignment, v: WorkbookVerdict, typed: Option<int>)
    ensures !WorkbookReviewOffered(ReviewWorkbookTables(t, a, v, typed).workbookAssignments[a.id].status)
  {
  }

  /** `updateStatus`: `put` of the assignment with its new status; then, for an approval of
      a known kid and book, the award. */
  method UpdateWorkbookStatus(db: ChoreDb, a: WorkbookAssignment, v: WorkbookVerdict, typed: Option<int>)
    modifies db
    ensures db.Contents() == ReviewWorkbookTables(old(db.Contents()), a, v, typed)
  {
    ghost var t := db.Contents();
    var status := StatusOf(v);
    db.workbookAssignments := db.workbookAssignments[a.id := a.(status := status)];
    if a.kidId !in db.kidProfiles || a.workBookId !in db.woodBooks { return; }
    var kid := db.kidProfiles[a.kidId];
    if v == Approve {
      var award: int;
      var over := OverridePoints(db.kidWorkbookPointOverrides, a.kidId, a.workBookId);
      if over.Some? {
        award := over.value;
        assert WorkbookAward(t.kidWorkbookPointOverrides, a.kidId, a.workBookId, typed) == Award(award, false);
      } else if typed.Some? {
        award := typed.value;
        assert WorkbookAward(t.kidWorkbookPointOverrides, a.kidId, a.workBookId, typed) == Award(award, true);
        db.kidWorkbookPointOverrides := db.kidWorkbookPointOverrides + [KidWorkbookPointOverride(a.kidId, a.workBookId, award)];
      } else {
        assert WorkbookAward(t.kidWorkbookPointOverrides, a.kidId, a.workBookId, typed) == InvalidInput;
        return;
      }
      db.kidProfiles := db.kidProfiles[a.kidId := AwardedKid(kid, award)];
      var written := db.workbookAssignments[a.id];
      db.workbookAssignments := db.workbookAssignments[a.id := written.(points := Some(award))];
      assert db.workbookAssignments == t.workbookAssignments[a.id := a.(status := Approved, points := Some(award))];
      assert db.kidProfiles == t.kidProfiles[a.kidId := AwardedKid(t.kidProfiles[a.kidId], award)];
    }
  }
}
