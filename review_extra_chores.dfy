/** The parent's review of extra-chore claims (src/pages/ReviewExtraChores.tsx): the new
    status is written first; an approval then credits the chore's points, halved (rounded
    down) for a claim on partial points. */
module ReviewExtraChores {
  import opened Records
  import opened ChoreDatabase
  import opened ProfilePage

  datatype ClaimVerdict = ApproveClaim | RejectClaim

  /** `partialPoints ? Math.floor(points / 2) : points`. */
  function ExtraAward(points: int, partial: bool): (r: int)
    ensures partial ==> 2 * r <= points < 2 * r + 2
    ensures !partial ==> r == points
  {
    if partial then points / 2 else points
  }

  /** A partial award never exceeds the full one on a chore worth no less than zero, and
      the two halves of a chore claimed twice never add up to more than the chore. */
  lemma PartialAwardBounds(points: int)
    requires points >= 0
    ensures 0 <= ExtraAward(points, true) <= ExtraAward(points, false)
    ensures ExtraAward(points, true) + ExtraAward(points, true) <= points
  {
  }

  /** The kid after an approved claim: the award goes to the balance and the lifetime
      points, and one more completed chore is counted, the counter daily chores use. */
  function CreditedKid(k: Kid, award: int): Kid {
    k.(points := k.points + award, lifetimePoints := k.lifetimePoints + award,
       completedChores := k.completedChores + 1)
  }

  /** `updateStatus(assignment, status)` on the tables. */
  function ReviewClaimTables(t: Tables, a: ExtraChoreAssignment, v: ClaimVerdict): Tables {
    var status := if v == ApproveClaim then Approved else WorkStatus.Rejected;
    var written := t.(extraChoreAssignments := t.extraChoreAssignments[a.id := a.(status := status)]);
    if a.assignedTo !in t.kidProfiles || a.choreId !in t.extraChoreTemplates || v == RejectClaim then written
    else
      var award := ExtraAward(t.extraChoreTemplates[a.choreId].points, a.partialPoints);
      written.(kidProfiles := t.kidProfiles[a.assignedTo := CreditedKid(t.kidProfiles[a.assignedTo], award)])
  }

  /** An approval of a known kid and chore credits the (possibly halved) points to that kid
      only; the claim holds the approval; no other claim and no other table changes. */
  lemma ApproveClaimCredits(t: Tables, a: ExtraChoreAssignment)
    requires a.assignedTo in t.kidProfiles && a.choreId in t.extraChoreTemplates
    ensures var u := ReviewClaimTables(t, a, ApproveClaim);
      var award := ExtraAward(t.extraChoreTemplates[a.choreId].points, a.partialPoints);
      var k := t.kidProfiles[a.assignedTo];
      u.kidProfiles[a.assignedTo].points == k.points + award
      && u.kidProfiles[a.assignedTo].lifetimePoints == k.lifetimePoints + award
      && u.kidProfiles[a.assignedTo].completedChores == k.completedChores + 1
      && u.kidProfiles[a.assignedTo].(points := k.points, lifetimePoints := k.lifetimePoints, completedChores := k.completedChores) == k
      && (forall id :: id in t.kidProfiles && id != a.assignedTo ==> u.kidProfiles[id] == t.kidProfiles[id])
      && u.extraChoreAssignments == t.extraChoreAssignments[a.id := a.(status := Approved)]
      && u.(kidProfiles := t.kidProfiles, extraChoreAssignments := t.extraChoreAssignments) == t
  {
  }

  /** A rejection, or a missing kid or chore, writes the claim's status and nothing else. */
  lemma OnlyClaimStatusWithoutCredit(t: Tables, a: ExtraChoreAssignment, v: ClaimVerdict)
    requires v == RejectClaim || a.assignedTo !in t.kidProfiles || a.choreId !in t.extraChoreTemplates
    ensures ReviewClaimTables(t, a, v).(extraChoreAssignments := t.extraChoreAssignments) == t
    ensures ReviewClaimTables(t, a, v).extraChoreAssignments
            == t.extraChoreAssignments[a.id := a.(status := if v == ApproveClaim then Approved else WorkStatus.Rejected)]
  {
  }

  /** Approve and reject are offered for a pending or submitted claim only. */
  predicate ClaimReviewOffered(s: WorkStatus) {
    s == Pending || s == Submitted
  }

  /** Rewriting a stored claim with the same chore and day, not live unless it was live
      before, keeps at most one live claim per chore and day. */
  lemma RewriteClaimKeepsOneActive(c: map<nat, ExtraChoreAssignment>, id: nat, b: ExtraChoreAssignment)
    requires OneActiveClaim(c) && id in c
    requires b.choreId == c[id].choreId && b.date == c[id].date
    requires b.status != WorkStatus.Rejected ==> c[id].status != WorkStatus.Rejected
    ensures OneActiveClaim(c[id := b])
  {
    var u := c[id := b];
    forall m, n | m in u && n in u && u[m].choreId == u[n].choreId && u[m].date == u[n].date
                  && u[m].status != WorkStatus.Rejected && u[n].status != WorkStatus.Rejected
      ensures m == n
    {
      assert u[m].choreId == c[m].choreId && u[m].date == c[m].date && c[m].status != WorkStatus.Rejected;
      assert u[n].choreId == c[n].choreId && u[n].date == c[n].date && c[n].status != WorkStatus.Rejected;
    }
  }

  /** Reviewing a claim the screen offers for review, as it is stored, keeps at most one
      live claim per chore and day. (Approving a claim that was already rejected could
      revive it beside a sibling's later claim; the screen does not offer that.) */
  lemma ReviewKeepsOneActiveClaim(t: Tables, a: ExtraChoreAssignment, v: ClaimVerdict)
    requires OneActiveClaim(t.extraChoreAssignments)
    requires a.id in t.extraChoreAssignments && t.extraChoreAssignments[a.id] == a && ClaimReviewOffered(a.status)
    ensures OneActiveClaim(ReviewClaimTables(t, a, v).extraChoreAssignments)
  {
    var status := if v == ApproveClaim then Approved else WorkStatus.Rejected;
    RewriteClaimKeepsOneActive(t.extraChoreAssignments, a.id, a.(status := status));
    assert ReviewClaimTables(t, a, v).extraChoreAssignments == t.extraChoreAssignments[a.id := a.(status := status)];
  }

  /** After either verdict the claim is no longer offered, so one claim is credited once. */
  lemma ReviewedClaimNotOfferedAgain(t: Tables, a: ExtraChoreAssignment, v: ClaimVerdict)
    ensures !ClaimReviewOffered(ReviewClaimTables(t, a, v).extraChoreAssignments[a.id].status)
  {
  }

  method UpdateClaimStatus(db: ChoreDb, a: ExtraChoreAssignment, v: ClaimVerdict)
    modifies db
    ensures db.Contents() == ReviewClaimTables(old(db.Contents()), a, v)
  {
    var status := if v == ApproveClaim then Approved else WorkStatus.Rejected;
    db.extraChoreAssignments := db.extraChoreAssignments[a.id := a.(status := status)];
    if a.assignedTo !in db.kidProfiles || a.choreId !in db.extraChoreTemplates { return; }
    var kid := db.kidProfiles[a.assignedTo];
    var chore := db.extraChoreTemplates[a.choreId];
    if v == ApproveClaim {
      var award := ExtraAward(chore.points, a.partialPoints);
      db.kidProfiles := db.kidProfiles[a.assignedTo := CreditedKid(kid, award)];
    }
  }
}
