/** A kid's own page (src/pages/ProfilePage.tsx): today's chores, submitting a workbook
    or claiming an extra chore, the checklist of today's chores, the pin repair run on
    opening the page, and the request to cash in a reward. */
module ProfilePage {
  import opened Records
  import opened JsText
  import opened Schedule
  import opened ChoreDatabase

  // ---------------------------------------------------------------------------
  // Today

  /** `getTodayKey`: the key of the weekday `getDay()` returns (0 for Sunday). */
  function TodayKey(weekday: nat): string
    requires weekday < 7
  {
    WeekdayKeys[weekday]
  }

  /** Every weekday has its own key, Sunday first and Saturday last. */
  lemma TodayKeysDistinct(i: nat, j: nat)
    requires i < 7 && j < 7
    ensures TodayKey(i) == TodayKey(j) <==> i == j
    ensures TodayKey(0) == "Sun" && TodayKey(6) == "Sat"
  {
  }

  /** Today's chores of the kid: exactly the templates assigned to it on today's weekday,
      in template order. */
  function TodaysChores(chores: seq<ChoreTemplate>, weekday: nat, kidId: string): (r: seq<ChoreTemplate>)
    requires weekday < 7
    ensures forall c :: c in r <==> c in chores && AssigneeOn(c, TodayKey(weekday)) == Some(kidId)
  {
    AssignedOn(chores, TodayKey(weekday), kidId)
  }

  /** The route parameter is present and not empty. */
  predicate Truthy(id: Option<string>) {
    id.Some? && id.value != ""
  }

  // ---------------------------------------------------------------------------
  // Submitting a workbook

  /** The kid already has a workbook assignment of the book for the date that was not rejected. */
  predicate HasActiveWorkbook(wa: map<nat, WorkbookAssignment>, kidId: string, bookId: nat, date: string) {
    exists n :: n in wa && wa[n].kidId == kidId && wa[n].workBookId == bookId && wa[n].date == date
                && wa[n].status != WorkStatus.Rejected
  }

  /** At most one active assignment per kid, book and date. */
  predicate OneActiveWorkbook(wa: map<nat, WorkbookAssignment>) {
    forall m, n ::
      (m in wa && n in wa && wa[m].kidId == wa[n].kidId && wa[m].workBookId == wa[n].workBookId
       && wa[m].date == wa[n].date && wa[m].status != WorkStatus.Rejected && wa[n].status != WorkStatus.Rejected)
      ==> m == n
  }

  /** The points a submission pre-credits: the pair's override, or 0. */
  function SubmissionPoints(t: Tables, kidId: string, bookId: nat): int {
    OverridePoints(t.kidWorkbookPointOverrides, kidId, bookId).GetOr(0)
  }

  /** `handleSubmitWorkbook`: unless the kid already has an active assignment of the book
      today, adds a pending assignment carrying the override's points (or 0) and adds
      those points to the kid's lifetime points at once. */
  function SubmitWorkbook(t: Tables, id: Option<string>, bookId: nat, today: string, newId: nat): Tables {
    if !Truthy(id) || HasActiveWorkbook(t.workbookAssignments, id.value, bookId, today) then t
    else if newId in t.workbookAssignments then t
    else
      var kidId := id.value;
      var award := SubmissionPoints(t, kidId, bookId);
      var wa := t.workbookAssignments[newId := WorkbookAssignment(newId, kidId, bookId, today, Pending, None, Some(award))];
      if kidId in t.kidProfiles then
        var k := t.kidProfiles[kidId];
        t.(workbookAssignments := wa, kidProfiles := t.kidProfiles[kidId := k.(lifetimePoints := k.lifetimePoints + award)])
      else t.(workbookAssignments := wa)
  }

  /** A second submission of a book the kid already has under way today changes nothing. */
  lemma SubmitWorkbookBlocksDuplicate(t: Tables, kidId: string, bookId: nat, today: string, newId: nat)
    requires HasActiveWorkbook(t.workbookAssignments, kidId, bookId, today)
    ensures SubmitWorkbook(t, Some(kidId), bookId, today, newId) == t
  {
  }

  /** An accepted submission adds one pending assignment carrying the override's points
      (or 0), and credits the same amount to lifetime points only: the balance, every
      other kid and every other table are untouched. */
  lemma SubmitWorkbookCreditsLifetime(t: Tables, kidId: string, bookId: nat, today: string, newId: nat)
    requires kidId != "" && !HasActiveWorkbook(t.workbookAssignments, kidId, bookId, today)
    requires newId !in t.workbookAssignments && kidId in t.kidProfiles
    ensures var u := SubmitWorkbook(t, Some(kidId), bookId, today, newId);
      var award := SubmissionPoints(t, kidId, bookId);
      u.workbookAssignments.Keys == t.workbookAssignments.Keys + {newId}
      && u.workbookAssignments[newId].status == Pending && u.workbookAssignments[newId].points == Some(award)
      && u.workbookAssignments[newId].kidId == kidId && u.workbookAssignments[newId].workBookId == bookId
      && (forall n :: n in t.workbookAssignments ==> u.workbookAssignments[n] == t.workbookAssignments[n])
      && u.kidProfiles[kidId].lifetimePoints == t.kidProfiles[kidId].lifetimePoints + award
      && u.kidProfiles[kidId].(lifetimePoints := t.kidProfiles[kidId].lifetimePoints) == t.kidProfiles[kidId]
      && u.kidProfiles.Keys == t.kidProfiles.Keys
      && (forall k :: k in t.kidProfiles && k != kidId ==> u.kidProfiles[k] == t.kidProfiles[k])
      && u.(workbookAssignments := t.workbookAssignments, kidProfiles := t.kidProfiles) == t
  {
  }

  /** Adding an assignment under a fresh key, when every stored assignment of its kid,
      book and day is rejected, keeps at most one active per kid, book and day. */
  lemma AddAssignmentKeepsOneActive(w: map<nat, WorkbookAssignment>, newId: nat, a: WorkbookAssignment)
    requires OneActiveWorkbook(w) && newId !in w
    requires !HasActiveWorkbook(w, a.kidId, a.workBookId, a.date)
    ensures OneActiveWorkbook(w[newId := a])
  {
    var u := w[newId := a];
    forall m, n | m in u && n in u && u[m].kidId == u[n].kidId && u[m].workBookId == u[n].workBookId
                  && u[m].date == u[n].date && u[m].status != WorkStatus.Rejected && u[n].status != WorkStatus.Rejected
      ensures m == n
    {
      if m != newId && n != newId {
        assert u[m] == w[m] && u[n] == w[n];
      }
    }
  }

  /** Submission keeps at most one active assignment per kid, book and day. */
  lemma SubmitWorkbookKeepsOneActive(t: Tables, id: Option<string>, bookId: nat, today: string, newId: nat)
    requires OneActiveWorkbook(t.workbookAssignments)
    ensures OneActiveWorkbook(SubmitWorkbook(t, id, bookId, today, newId).workbookAssignments)
  {
    var w := t.workbookAssignments;
    if Truthy(id) && !HasActiveWorkbook(w, id.value, bookId, today) && newId !in w {
      var award := SubmissionPoints(t, id.value, bookId);
      var a := WorkbookAssignment(newId, id.value, bookId, today, Pending, None, Some(award));
      AddAssignmentKeepsOneActive(w, newId, a);
      var u := SubmitWorkbook(t, id, bookId, today, newId);
      if id.value in t.kidProfiles {
        var k := t.kidProfiles[id.value];
        assert u == t.(workbookAssignments := w[newId := a],
                       kidProfiles := t.kidProfiles[id.value := k.(lifetimePoints := k.lifetimePoints + award)]);
      } else {
        assert u == t.(workbookAssignments := w[newId := a]);
      }
    } else {
      assert SubmitWorkbook(t, id, bookId, today, newId) == t;
    }
  }

  /** A rejected submission does not block a new one. */
  lemma ResubmitAfterRejection(t: Tables, kidId: string, bookId: nat, today: string, newId: nat)
    requires kidId != "" && newId !in t.workbookAssignments
    requires forall n ::
      (n in t.workbookAssignments && t.workbookAssignments[n].kidId == kidId
       && t.workbookAssignments[n].workBookId == bookId && t.workbookAssignments[n].date == today)
      ==> t.workbookAssignments[n].status == WorkStatus.Rejected
    ensures newId in SubmitWorkbook(t, Some(kidId), bookId, today, newId).workbookAssignments
  {
  }

  /** The screen offers "Submit" for a book only while the kid has no assignment of it
      today, rejected or not. */
  predicate WorkbookSubmitOffered(wa: map<nat, WorkbookAssignment>, kidId: string, bookId: nat, date: string) {
    forall n :: n in wa && wa[n].kidId == kidId && wa[n].date == date ==> wa[n].workBookId != bookId
  }

  /** Where the screen offers "Submit" the handler accepts; after a rejection the handler
      would accept again, but the screen no longer offers it. */
  lemma WorkbookSubmitOfferedIsSound(t: Tables, kidId: string, bookId: nat, today: string, rejected: nat)
    ensures WorkbookSubmitOffered(t.workbookAssignments, kidId, bookId, today)
            ==> !HasActiveWorkbook(t.workbookAssignments, kidId, bookId, today)
    ensures rejected in t.workbookAssignments && t.workbookAssignments[rejected].kidId == kidId
            && t.workbookAssignments[rejected].workBookId == bookId && t.workbookAssignments[rejected].date == today
            ==> !WorkbookSubmitOffered(t.workbookAssignments, kidId, bookId, today)
  {
  }

  method HandleSubmitWorkbook(db: ChoreDb, id: Option<string>, bookId: nat, today: string, newId: nat)
    modifies db
    ensures db.Contents() == SubmitWorkbook(old(db.Contents()), id, bookId, today, newId)
  {
    if !Truthy(id) { return; }
    var kidId := id.value;
    if HasActiveWorkbook(db.workbookAssignments, kidId, bookId, today) { return; }
    var award := OverridePoints(db.kidWorkbookPointOverrides, kidId, bookId).GetOr(0);
    if newId in db.workbookAssignments { return; }
    db.workbookAssignments := db.workbookAssignments[newId := WorkbookAssignment(newId, kidId, bookId, today, Pending, None, Some(award))];
    if kidId in db.kidProfiles {
      var k := db.kidProfiles[kidId];
      db.kidProfiles := db.kidProfiles[kidId := k.(lifetimePoints := k.lifetimePoints + award)];
    }
  }

  // ---------------------------------------------------------------------------
  // Claiming an extra chore

  /** A claim on the chore for the date, by the kid (`own`) or by another kid, that was
      not rejected. */
  predicate ActiveClaim(claims: map<nat, ExtraChoreAssignment>, choreId: nat, date: string, kidId: string, own: bool) {
    exists n :: n in claims && claims[n].choreId == choreId && claims[n].date == date
                && (claims[n].assignedTo == kidId) == own && claims[n].status != WorkStatus.Rejected
  }

  /** A rejected claim on the chore for the date by another kid. */
  predicate RejectedClaimByOther(claims: map<nat, ExtraChoreAssignment>, choreId: nat, date: string, kidId: string) {
    exists n :: n in claims && claims[n].choreId == choreId && claims[n].date == date
                && claims[n].assignedTo != kidId && claims[n].status == WorkStatus.Rejected
  }

  /** At most one claim per extra chore and date is not rejected. */
  predicate OneActiveClaim(claims: map<nat, ExtraChoreAssignment>) {
    forall m, n ::
      (m in claims && n in claims && claims[m].choreId == claims[n].choreId && claims[m].date == claims[n].date
       && claims[m].status != WorkStatus.Rejected && claims[n].status != WorkStatus.Rejected)
      ==> m == n
  }

  /** `handleSubmitExtraChore`: refused while any kid, this one or another, has a claim on
      the chore today that was not rejected; otherwise a pending claim of this kid is added,
      on partial points exactly when another kid's claim was rejected. */
  function SubmitExtra(t: Tables, id: Option<string>, choreId: nat, today: string, now: string, newId: nat): Tables {
    if !Truthy(id) then t
    else
      var kidId := id.value;
      if ActiveClaim(t.extraChoreAssignments, choreId, today, kidId, true)
         || ActiveClaim(t.extraChoreAssignments, choreId, today, kidId, false)
         || newId in t.extraChoreAssignments
      then t
      else
        var partial := RejectedClaimByOther(t.extraChoreAssignments, choreId, today, kidId);
        t.(extraChoreAssignments := t.extraChoreAssignments[newId :=
             ExtraChoreAssignment(newId, choreId, kidId, today, Pending, Some(now), partial)])
  }

  /** Claiming keeps at most one live claim per chore and day: the first live claim wins. */
  lemma SubmitExtraKeepsOneActiveClaim(t: Tables, id: Option<string>, choreId: nat, today: string, now: string, newId: nat)
    requires OneActiveClaim(t.extraChoreAssignments)
    ensures OneActiveClaim(SubmitExtra(t, id, choreId, today, now, newId).extraChoreAssignments)
  {
    var c := t.extraChoreAssignments;
    var u := SubmitExtra(t, id, choreId, today, now, newId).extraChoreAssignments;
    if u != c {
      var kidId := id.value;
      forall n | n in c && c[n].choreId == choreId && c[n].date == today
        ensures c[n].status == WorkStatus.Rejected
      {
        if c[n].assignedTo == kidId {
          assert !ActiveClaim(c, choreId, today, kidId, true);
        } else {
          assert !ActiveClaim(c, choreId, today, kidId, false);
        }
      }
      forall m, n | m in u && n in u && u[m].choreId == u[n].choreId && u[m].date == u[n].date
                    && u[m].status != WorkStatus.Rejected && u[n].status != WorkStatus.Rejected
        ensures m == n
      {
        if u[m].choreId != choreId || u[m].date != today {
          assert u[m] == c[m] && u[n] == c[n];
        }
      }
    }
  }

  /** An accepted claim is this kid's, pending, for the chore and day, and partial exactly
      when another kid's claim on it was rejected; nothing else changes. */
  lemma SubmitExtraClaim(t: Tables, kidId: string, choreId: nat, today: string, now: string, newId: nat)
    requires kidId != "" && newId !in t.extraChoreAssignments
    requires !ActiveClaim(t.extraChoreAssignments, choreId, today, kidId, true)
    requires !ActiveClaim(t.extraChoreAssignments, choreId, today, kidId, false)
    ensures var u := SubmitExtra(t, Some(kidId), choreId, today, now, newId);
      var a := u.extraChoreAssignments[newId];
      u.extraChoreAssignments.Keys == t.extraChoreAssignments.Keys + {newId}
      && a.assignedTo == kidId && a.choreId == choreId && a.date == today && a.status == Pending
      && (a.partialPoints <==> RejectedClaimByOther(t.extraChoreAssignments, choreId, today, kidId))
      && (forall n :: n in t.extraChoreAssignments ==> u.extraChoreAssignments[n] == t.extraChoreAssignments[n])
      && u.(extraChoreAssignments := t.extraChoreAssignments) == t
  {
  }

  /** A live claim of any kid refuses every new claim on the chore that day. */
  lemma SubmitExtraBlocked(t: Tables, kidId: string, choreId: nat, today: string, now: string, newId: nat, own: bool)
    requires ActiveClaim(t.extraChoreAssignments, choreId, today, kidId, own)
    ensures SubmitExtra(t, Some(kidId), choreId, today, now, newId) == t
  {
  }

  method HandleSubmitExtraChore(db: ChoreDb, id: Option<string>, choreId: nat, today: string, now: string, newId: nat)
    modifies db
    ensures db.Contents() == SubmitExtra(old(db.Contents()), id, choreId, today, now, newId)
  {
    if !Truthy(id) { return; }
    var kidId := id.value;
    if ActiveClaim(db.extraChoreAssignments, choreId, today, kidId, true) { return; }
    var others := ActiveClaim(db.extraChoreAssignments, choreId, today, kidId, false);
    var rejectedByOthers := RejectedClaimByOther(db.extraChoreAssignments, choreId, today, kidId);
    if others { return; }
    if newId in db.extraChoreAssignments { return; }
    db.extraChoreAssignments := db.extraChoreAssignments[newId :=
      ExtraChoreAssignment(newId, choreId, kidId, today, Pending, Some(now), rejectedByOthers)];
  }

  // ---------------------------------------------------------------------------
  // What the extra-chore list shows

  /** The claim is on the chore, and by the kid (`own`) or by another kid. */
  predicate ClaimMatches(a: ExtraChoreAssignment, choreId: nat, kidId: string, own: bool) {
    a.choreId == choreId && (a.assignedTo == kidId) == own
  }

  /** The first of today's claims (in table order) on the chore by the kid (`own`) or by
      another kid. */
  function FirstClaim(today: seq<ExtraChoreAssignment>, choreId: nat, kidId: string, own: bool): (r: Option<ExtraChoreAssignment>)
    ensures r.Some? ==> exists i :: 0 <= i < |today| && today[i] == r.value
                          && (forall j :: 0 <= j < i ==> !ClaimMatches(today[j], choreId, kidId, own))
    ensures r.Some? ==> ClaimMatches(r.value, choreId, kidId, own)
    ensures r.None? <==> forall a :: a in today ==> !ClaimMatches(a, choreId, kidId, own)
  {
    if today == [] then None
    else if ClaimMatches(today[0], choreId, kidId, own) then Some(today[0])
    else
      var r := FirstClaim(today[1..], choreId, kidId, own);
      FirstClaimPastHead(today, choreId, kidId, own, r);
      r
  }

  /** A first matching claim of the list without its (non-matching) head is the first
      matching claim of the list. */
  lemma FirstClaimPastHead(today: seq<ExtraChoreAssignment>, choreId: nat, kidId: string, own: bool, r: Option<ExtraChoreAssignment>)
    requires today != [] && !ClaimMatches(today[0], choreId, kidId, own)
    requires r.Some? ==> exists i :: 0 <= i < |today[1..]| && today[1..][i] == r.value
                           && (forall j :: 0 <= j < i ==> !ClaimMatches(today[1..][j], choreId, kidId, own))
    requires r.None? <==> forall a :: a in today[1..] ==> !ClaimMatches(a, choreId, kidId, own)
    ensures r.Some? ==> exists i :: 0 <= i < |today| && today[i] == r.value
                          && (forall j :: 0 <= j < i ==> !ClaimMatches(today[j], choreId, kidId, own))
    ensures r.None? <==> forall a :: a in today ==> !ClaimMatches(a, choreId, kidId, own)
  {
    var tail := today[1..];
    assert forall a :: a in tail ==> a in today;
    assert forall a :: a in today ==> a == today[0] || a in tail;
    if r.Some? {
      var i :| 0 <= i < |tail| && tail[i] == r.value
               && (forall j :: 0 <= j < i ==> !ClaimMatches(tail[j], choreId, kidId, own));
      assert today[i + 1] == r.value;
      forall j | 0 <= j < i + 1 ensures !ClaimMatches(today[j], choreId, kidId, own) {
        if j > 0 {
          assert today[j] == tail[j - 1];
        }
      }
    }
  }

  /** The status the list shows for an extra chore. */
  datatype ExtraDisplay = Own(status: WorkStatus) | SiblingApproved | SiblingSubmitted | NotSubmitted

  /** The kid's own first claim decides the status; without one the first claim of another
      kid does, unless it was rejected. */
  function ExtraDisplayOf(today: seq<ExtraChoreAssignment>, choreId: nat, kidId: string): (r: ExtraDisplay)
    ensures r.Own? <==> FirstClaim(today, choreId, kidId, true).Some?
    ensures FirstClaim(today, choreId, kidId, true).Some? ==> r == Own(FirstClaim(today, choreId, kidId, true).value.status)
    ensures r == SiblingApproved <==>
              FirstClaim(today, choreId, kidId, true).None? && FirstClaim(today, choreId, kidId, false).Some?
              && FirstClaim(today, choreId, kidId, false).value.status == Approved
    ensures r == SiblingSubmitted <==>
              FirstClaim(today, choreId, kidId, true).None? && FirstClaim(today, choreId, kidId, false).Some?
              && FirstClaim(today, choreId, kidId, false).value.status != Approved
              && FirstClaim(today, choreId, kidId, false).value.status != WorkStatus.Rejected
    ensures r == NotSubmitted ==> forall a :: a in today && a.choreId == choreId ==> a.assignedTo != kidId
    ensures r == NotSubmitted && FirstClaim(today, choreId, kidId, false).Some?
            ==> FirstClaim(today, choreId, kidId, false).value.status == WorkStatus.Rejected
  {
    match FirstClaim(today, choreId, kidId, true)
    case Some(a) => Own(a.status)
    case None =>
      match FirstClaim(today, choreId, kidId, false)
      case Some(s) =>
        if s.status == Approved then SiblingApproved
        else if s.status != WorkStatus.Rejected then SiblingSubmitted
        else NotSubmitted
      case None => NotSubmitted
  }

  /** `canSubmit`: no claim of the kid today, and the first other kid's claim, if any, rejected. */
  predicate CanSubmitExtra(today: seq<ExtraChoreAssignment>, choreId: nat, kidId: string) {
    FirstClaim(today, choreId, kidId, true).None?
    && match FirstClaim(today, choreId, kidId, false)
       case None => true
       case Some(s) => s.status == WorkStatus.Rejected
  }

  /** `today` is the list of the day's claims as the page reads it from the table. */
  ghost predicate IsDayView(today: seq<ExtraChoreAssignment>, claims: map<nat, ExtraChoreAssignment>, date: string) {
    forall a :: a in today <==> a in claims.Values && a.date == date
  }

  /** Where the list offers "Submit", the kid has no live claim of its own. */
  lemma CanSubmitExtraMeansNoOwnClaim(t: Tables, today: seq<ExtraChoreAssignment>, date: string, choreId: nat, kidId: string)
    requires IsDayView(today, t.extraChoreAssignments, date)
    requires CanSubmitExtra(today, choreId, kidId)
    ensures forall n ::
      (n in t.extraChoreAssignments && t.extraChoreAssignments[n].choreId == choreId && t.extraChoreAssignments[n].date == date)
      ==> t.extraChoreAssignments[n].assignedTo != kidId
    ensures !ActiveClaim(t.extraChoreAssignments, choreId, date, kidId, true)
  {
    var c := t.extraChoreAssignments;
    forall n | n in c && c[n].choreId == choreId && c[n].date == date
      ensures c[n].assignedTo != kidId
    {
      assert c[n] in c.Values;
      assert c[n] in today;
    }
  }

  /** A kid whose own claim was rejected is not offered "Submit" again, although the
      handler would accept a new claim when no other kid holds a live one. */
  lemma RejectedOwnClaimLocksList(t: Tables, today: seq<ExtraChoreAssignment>, date: string, choreId: nat, kidId: string,
                                  rejected: nat, now: string, newId: nat)
    requires IsDayView(today, t.extraChoreAssignments, date) && kidId != ""
    requires rejected in t.extraChoreAssignments && t.extraChoreAssignments[rejected].choreId == choreId
             && t.extraChoreAssignments[rejected].date == date && t.extraChoreAssignments[rejected].assignedTo == kidId
    requires forall n ::
      (n in t.extraChoreAssignments && t.extraChoreAssignments[n].choreId == choreId && t.extraChoreAssignments[n].date == date)
      ==> t.extraChoreAssignments[n].status == WorkStatus.Rejected
    requires newId !in t.extraChoreAssignments
    ensures !CanSubmitExtra(today, choreId, kidId)
    ensures newId in SubmitExtra(t, Some(kidId), choreId, date, now, newId).extraChoreAssignments
  {
    assert t.extraChoreAssignments[rejected] in t.extraChoreAssignments.Values;
    assert t.extraChoreAssignments[rejected] in today;
  }

  /** When the first other kid's claim was rejected but a later one of another kid is live,
      the list offers "Submit" and the handler refuses it. */
  lemma OfferedButRefused(t: Tables, today: seq<ExtraChoreAssignment>, date: string, choreId: nat, kidId: string,
                          now: string, newId: nat)
    requires IsDayView(today, t.extraChoreAssignments, date) && kidId != ""
    requires forall a :: a in today && a.choreId == choreId ==> a.assignedTo != kidId
    requires FirstClaim(today, choreId, kidId, false).Some?
             && FirstClaim(today, choreId, kidId, false).value.status == WorkStatus.Rejected
    requires exists a :: a in today && a.choreId == choreId && a.assignedTo != kidId && a.status != WorkStatus.Rejected
    ensures CanSubmitExtra(today, choreId, kidId)
    ensures SubmitExtra(t, Some(kidId), choreId, date, now, newId) == t
  {
    var a :| a in today && a.choreId == choreId && a.assignedTo != kidId && a.status != WorkStatus.Rejected;
    assert a in t.extraChoreAssignments.Values;
    var n :| n in t.extraChoreAssignments && t.extraChoreAssignments[n] == a;
  }

  // ---------------------------------------------------------------------------
  // The checklist of today's chores

  /** The initial checked map over the kid's statuses for today, in order: each chore's
      flag is whether its (last) status is completed. */
  function CheckedFrom(statuses: seq<ChoreStatus>): map<nat, bool>
    decreases |statuses|
  {
    if statuses == [] then map[]
    else
      var s := statuses[|statuses| - 1];
      CheckedFrom(statuses[..|statuses| - 1])[s.choreId := s.status == Completed]
  }

  /** A chore has a flag exactly when it has a status; with one status per chore (the key
      names the chore), the flag is set exactly for the completed ones. */
  lemma {:induction false} CheckedExactlyCompleted(statuses: seq<ChoreStatus>)
    requires forall i, j :: 0 <= i < j < |statuses| ==> statuses[i].choreId != statuses[j].choreId
    ensures forall c :: c in CheckedFrom(statuses) <==> exists i :: 0 <= i < |statuses| && statuses[i].choreId == c
    ensures forall i :: 0 <= i < |statuses| ==> CheckedFrom(statuses)[statuses[i].choreId] == (statuses[i].status == Completed)
    decreases |statuses|
  {
    if statuses != [] {
      var p := statuses[..|statuses| - 1];
      assert forall i :: 0 <= i < |p| ==> p[i] == statuses[i];
      CheckedExactlyCompleted(p);
    }
  }

  /** The `forEach` that fills the initial checked map. */
  method InitialChecked(statuses: seq<ChoreStatus>) returns (m: map<nat, bool>)
    ensures m == CheckedFrom(statuses)
  {
    m := map[];
    var i := 0;
    while i < |statuses|
      invariant 0 <= i <= |statuses|
      invariant m == CheckedFrom(statuses[..i])
    {
      assert statuses[..i + 1][..i] == statuses[..i];
      m := m[statuses[i].choreId := statuses[i].status == Completed];
      i := i + 1;
    }
    assert statuses[..i] == statuses;
  }

  /** `!!checkedChores[choreId]`: a chore without an entry is unchecked. */
  predicate IsChecked(m: map<nat, bool>, choreId: nat) {
    choreId in m && m[choreId]
  }

  /** `toggleChoreCheck`. */
  function Toggle(m: map<nat, bool>, choreId: nat): map<nat, bool> {
    m[choreId := !IsChecked(m, choreId)]
  }

  /** Toggling flips the one chore's check and no other; toggling twice restores every check. */
  lemma ToggleFlipsOne(m: map<nat, bool>, choreId: nat)
    ensures IsChecked(Toggle(m, choreId), choreId) == !IsChecked(m, choreId)
    ensures forall d :: d != choreId ==> IsChecked(Toggle(m, choreId), d) == IsChecked(m, d)
    ensures forall d :: IsChecked(Toggle(Toggle(m, choreId), choreId), d) == IsChecked(m, d)
  {
  }

  // ---------------------------------------------------------------------------
  // Pins and cash-in

  /** The pin `fixPins` gives a kid, from its lowercased name. */
  function PinFor(name: string): string {
    var n := ToLower(name);
    if n == "keira" then "1203" else if n == "eastyn" then "0628" else "9999"
  }

  /** The name is matched after lowering, so any capitalisation of the two names gets
      its pin, and every other name gets "9999". */
  lemma PinForNames(name: string)
    ensures PinFor(name) == "1203" <==> ToLower(name) == "keira"
    ensures PinFor(name) == "0628" <==> ToLower(name) == "eastyn"
    ensures PinFor(name) == "9999" <==> ToLower(name) != "keira" && ToLower(name) != "eastyn"
    ensures PinFor("Keira") == "1203" && PinFor("Eastyn") == "0628"
  {
    assert ToLower("Keira") == "keira";
    assert ToLower("Eastyn") == "eastyn";
  }

  /** The kid with its pin set from its name. */
  function Pinned(k: Kid): Kid {
    k.(pin := PinFor(k.name))
  }

  /** Part way through `fixPins`: the kids still to visit keep their record, the others
      have their pin set. */
  ghost predicate PinnedExcept(cur: map<string, Kid>, before: map<string, Kid>, remaining: set<string>) {
    remaining <= before.Keys && cur.Keys == before.Keys
    && forall k :: k in before ==> cur[k] == if k in remaining then before[k] else Pinned(before[k])
  }

  lemma PinStep(cur: map<string, Kid>, before: map<string, Kid>, remaining: set<string>, k: string)
    requires PinnedExcept(cur, before, remaining) && k in remaining
    ensures PinnedExcept(cur[k := Pinned(cur[k])], before, remaining - {k})
  {
  }

  /** `fixPins`: every kid's pin is set from its name; nothing else changes. */
  method FixPins(db: ChoreDb)
    modifies db
    ensures db.Contents() == old(db.Contents()).(kidProfiles :=
      map k | k in old(db.kidProfiles) :: old(db.kidProfiles)[k].(pin := PinFor(old(db.kidProfiles)[k].name)))
  {
    ghost var before := db.kidProfiles;
    var remaining := db.kidProfiles.Keys;
    while remaining != {}
      invariant PinnedExcept(db.kidProfiles, before, remaining)
      invariant db.Contents() == old(db.Contents()).(kidProfiles := db.kidProfiles)
      decreases remaining
    {
      var k :| k in remaining;
      PinStep(db.kidProfiles, before, remaining, k);
      var kid := db.kidProfiles[k];
      db.kidProfiles := db.kidProfiles[k := kid.(pin := PinFor(kid.name))];
      remaining := remaining - {k};
    }
    assert db.kidProfiles == map k | k in before :: Pinned(before[k]);
  }

  /** The "Cash In" click, once confirmed: the reward with that id is flagged as
      requested; a missing id changes nothing. */
  function RequestCashIn(rs: seq<PendingReward>, rewardId: nat): (r: seq<PendingReward>)
    ensures |r| == |rs|
    ensures forall i :: 0 <= i < |rs| && rs[i].id != rewardId ==> r[i] == rs[i]
    ensures forall i :: 0 <= i < |rs| && rs[i].id == rewardId ==> r[i].requestedForCashIn && r[i].(requestedForCashIn := rs[i].requestedForCashIn) == rs[i]
  {
    seq(|rs|, i requires 0 <= i < |rs| => if rs[i].id == rewardId then rs[i].(requestedForCashIn := true) else rs[i])
  }

  /** Flagging keeps every key, so distinct keys stay distinct, and then at most one
      record changes. */
  lemma RequestCashInKeepsIdsUnique(rs: seq<PendingReward>, rewardId: nat)
    requires UniqueRewardIds(rs)
    ensures forall i :: 0 <= i < |rs| ==> RequestCashIn(rs, rewardId)[i].id == rs[i].id
    ensures UniqueRewardIds(RequestCashIn(rs, rewardId))
    ensures forall i, j :: 0 <= i < j < |rs| && RequestCashIn(rs, rewardId)[i] != rs[i] ==> RequestCashIn(rs, rewardId)[j] == rs[j]
  {
  }

  /** Asking twice is asking once. */
  lemma RequestCashInIdempotent(rs: seq<PendingReward>, rewardId: nat)
    ensures RequestCashIn(RequestCashIn(rs, rewardId), rewardId) == RequestCashIn(rs, rewardId)
  {
  }

  method HandleCashIn(db: ChoreDb, rewardId: nat, confirmed: bool)
    modifies db
    ensures db.Contents() == if confirmed then old(db.Contents()).(pendingRewards := RequestCashIn(old(db.pendingRewards), rewardId))
                             else old(db.Contents())
  {
    if confirmed {
      db.pendingRewards := RequestCashIn(db.pendingRewards, rewardId);
    }
  }
}
