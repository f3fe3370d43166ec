/** The records kept in the household's tables: kid profiles, chore templates and their
    reviewed statuses, workbooks and their assignments, per-kid workbook point overrides,
    extra chores and their claims, and pending rewards.

    Numbers are modelled as unbounded integers (ids, which the application draws from
    the clock, as natural numbers). An optional counter of a kid profile is read as 0
    wherever the application reads it, so it is an `int` that starts at 0 here. */
module Records {

  datatype Option<+T> = None | Some(value: T) {
    function GetOr(default: T): T {
      match this
      case Some(v) => v
      case None => default
    }
  }

  /** The outcome of reviewing one daily chore: 'completed', 'rejected', 'not completed'. */
  datatype ReviewStatus = Completed | Rejected | NotCompleted

  /** The status of a workbook assignment or an extra-chore claim:
      'pending', 'submitted', 'approved', 'rejected', 'not completed'. */
  datatype WorkStatus = Pending | Submitted | Approved | Rejected | NotCompleted

  datatype Kid = Kid(
    id: string,
    name: string,
    avatar: string,
    pin: string,
    points: int,
    lifetimePoints: int,
    completedChores: int,
    rejectedChores: int,
    notCompletedChores: int,
    completedWorkbooks: int,
    rejectedWorkbooks: int)

  /** A daily chore. `weeklyAssignment` maps a weekday key ("Sun" .. "Sat") to the id of
      the kid doing it that day, or to `None` for an explicit null; a missing key and a
      missing map both read as unassigned. */
  datatype ChoreTemplate = ChoreTemplate(
    id: nat,
    title: string,
    points: int,
    weeklyAssignment: map<string, Option<string>>)

  /** One reviewed daily chore, stored under the key `kidId_choreId_date`. */
  datatype ChoreStatus = ChoreStatus(
    id: string,
    kidId: string,
    choreId: nat,
    date: string,
    status: ReviewStatus,
    reason: Option<string>)

  datatype WoodBook = WoodBook(id: nat, title: string, points: Option<int>)

  datatype WorkbookAssignment = WorkbookAssignment(
    id: nat,
    kidId: string,
    workBookId: nat,
    date: string,
    status: WorkStatus,
    timestamp: Option<string>,
    points: Option<int>)

  /** The remembered award of one (kid, workbook) pair; its auto-increment id is never read. */
  datatype KidWorkbookPointOverride = KidWorkbookPointOverride(kidId: string, workBookId: nat, points: int)

  datatype ExtraChoreTemplate = ExtraChoreTemplate(id: nat, title: string, points: int)

  /** A kid's claim on an extra chore for one date; an absent `partialPoints` reads as false. */
  datatype ExtraChoreAssignment = ExtraChoreAssignment(
    id: nat,
    choreId: nat,
    assignedTo: string,
    date: string,
    status: WorkStatus,
    timestamp: Option<string>,
    partialPoints: bool)

  /** One redemption; an absent `redeemed` or `requestedForCashIn` reads as false. */
  datatype PendingReward = PendingReward(
    id: nat,
    kidId: string,
    rewardName: string,
    cost: int,
    redeemedAt: string,
    redeemed: bool,
    requestedForCashIn: bool)

  /** The auto-incremented key of the redemption table: no two records share an id. */
  predicate UniqueRewardIds(rs: seq<PendingReward>) {
    forall i, j :: 0 <= i < j < |rs| ==> rs[i].id != rs[j].id
  }

  /** A key the auto-increment may hand out: one no record already carries. */
  predicate FreshRewardId(rs: seq<PendingReward>, newId: nat) {
    forall i :: 0 <= i < |rs| ==> rs[i].id != newId
  }

  /** An entry of the reward catalogue. */
  datatype RewardItem = RewardItem(id: nat, name: string, description: string, image: string, cost: int)

  /** `Math.max(a, b)` on whole numbers. */
  function Max(a: int, b: int): int {
    if a >= b then a else b
  }

  /** The points of the first override recorded for (kidId, workBookId), as the lookup
      `where({kidId, workBookId}).first()` returns it. */
  function OverridePoints(overrides: seq<KidWorkbookPointOverride>, kidId: string, workBookId: nat): (r: Option<int>)
    ensures r.None? <==> forall i :: 0 <= i < |overrides| ==> !(overrides[i].kidId == kidId && overrides[i].workBookId == workBookId)
    ensures r.Some? ==> exists i :: 0 <= i < |overrides| && overrides[i] == KidWorkbookPointOverride(kidId, workBookId, r.value)
  {
    if overrides == [] then None
    else if overrides[0].kidId == kidId && overrides[0].workBookId == workBookId then Some(overrides[0].points)
    else OverridePoints(overrides[1..], kidId, workBookId)
  }
}
