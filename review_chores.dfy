/** The parent's daily review of assigned chores (src/pages/ReviewChores.tsx): marking a
    chore completed, rejected or not completed changes the kid's ledger and records a
    status for today under the key `kidId_choreId_date`; resetting the day deletes today's
    statuses and reverts each kid's ledger from them. */
module ReviewChores {
  import opened Records
  import opened JsText
  import opened Schedule
  import opened ChoreDatabase

  // ---------------------------------------------------------------------------
  // Status records and their keys

  /** The key `${kidId}_${choreId}_${date}` of a chore status. */
  function StatusKey(kidId: string, choreId: nat, date: string): string {
    kidId + "_" + NatToString(choreId) + "_" + date
  }

  /** A day's date string (`toDateString`, such as "Mon Jun 02 2025") holds no underscore,
      so the key determines the kid, the chore and the date it was built from. */
  lemma StatusKeyInjective(k1: string, c1: nat, d1: string, k2: string, c2: nat, d2: string)
    requires '_' !in d1 && '_' !in d2
    requires StatusKey(k1, c1, d1) == StatusKey(k2, c2, d2)
    ensures k1 == k2 && c1 == c2 && d1 == d2
  {
    var n1, n2 := NatToString(c1), NatToString(c2);
    assert StatusKey(k1, c1, d1) == (k1 + "_" + n1) + ['_'] + d1;
    assert StatusKey(k2, c2, d2) == (k2 + "_" + n2) + ['_'] + d2;
    SplitAtLastOfJoin(k1 + "_" + n1, d1, '_');
    SplitAtLastOfJoin(k2 + "_" + n2, d2, '_');
    assert '_' !in n1 && '_' !in n2;
    assert k1 + "_" + n1 == k1 + ['_'] + n1;
    assert k2 + "_" + n2 == k2 + ['_'] + n2;
    SplitAtLastOfJoin(k1, n1, '_');
    SplitAtLastOfJoin(k2, n2, '_');
    NatToStringInjective(c1, c2);
  }

  /** The record `saveStatus` writes: keyed by kid, chore and date. */
  function StatusRecord(kidId: string, choreId: nat, date: string, status: ReviewStatus, reason: Option<string>): ChoreStatus {
    ChoreStatus(StatusKey(kidId, choreId, date), kidId, choreId, date, status, reason)
  }

  /** Every record lies under the key its own fields give, with a date free of
      underscores, and no key is held twice. */
  predicate StatusesWellFormed(ss: seq<ChoreStatus>) {
    KeysOwnFields(ss) && UniqueKeys(ss)
  }

  predicate KeysOwnFields(ss: seq<ChoreStatus>) {
    forall i :: 0 <= i < |ss| ==> ss[i].id == StatusKey(ss[i].kidId, ss[i].choreId, ss[i].date) && '_' !in ss[i].date
  }

  predicate UniqueKeys(ss: seq<ChoreStatus>) {
    forall i, j :: 0 <= i < j < |ss| ==> ss[i].id != ss[j].id
  }

  /** A table with one record in front has unique keys exactly when the rest has and the
      front record's key is not among them. */
  lemma UniqueKeysCons(x: ChoreStatus, t: seq<ChoreStatus>)
    ensures UniqueKeys([x] + t) <==> UniqueKeys(t) && forall i :: 0 <= i < |t| ==> t[i].id != x.id
  {
    var s := [x] + t;
    assert forall i :: 0 <= i < |t| ==> s[i + 1] == t[i];
    if UniqueKeys(t) && forall i :: 0 <= i < |t| ==> t[i].id != x.id {
      forall i, j | 0 <= i < j < |s| ensures s[i].id != s[j].id {
        if i > 0 { assert s[i] == t[i - 1] && s[j] == t[j - 1]; }
      }
    }
    if UniqueKeys(s) {
      forall i, j | 0 <= i < j < |t| ensures t[i].id != t[j].id {
        assert s[i + 1].id != s[j + 1].id;
      }
      forall i | 0 <= i < |t| ensures t[i].id != x.id {
        assert s[0].id != s[i + 1].id;
      }
    }
  }

  /** `put`: the record replaces the one under its key, or is appended when there is none. */
  function Upsert(ss: seq<ChoreStatus>, r: ChoreStatus): seq<ChoreStatus> {
    if ss == [] then [r]
    else if ss[0].id == r.id then [r] + ss[1..]
    else [ss[0]] + Upsert(ss[1..], r)
  }

  /** `get(key)`: the record stored under `key`, if any. */
  function Lookup(ss: seq<ChoreStatus>, key: string): Option<ChoreStatus> {
    if ss == [] then None
    else if ss[0].id == key then Some(ss[0])
    else Lookup(ss[1..], key)
  }

  /** What `put` does to the table: the new record is found under its key, every other
      key still finds what it found before, and the table stays well formed. */
  lemma UpsertLookup(ss: seq<ChoreStatus>, r: ChoreStatus, key: string)
    requires StatusesWellFormed(ss)
    requires r.id == StatusKey(r.kidId, r.choreId, r.date) && '_' !in r.date
    ensures StatusesWellFormed(Upsert(ss, r))
    ensures Lookup(Upsert(ss, r), key) == if key == r.id then Some(r) else Lookup(ss, key)
    ensures forall x :: x in Upsert(ss, r) <==> x == r || (x in ss && x.id != r.id)
  {
    UpsertMembers(ss, r);
    UpsertFinds(ss, r, key);
    var u := Upsert(ss, r);
    forall i | 0 <= i < |u| ensures u[i].id == StatusKey(u[i].kidId, u[i].choreId, u[i].date) && '_' !in u[i].date {
      assert u[i] in u;
      if u[i] != r {
        var j :| 0 <= j < |ss| && ss[j] == u[i];
      }
    }
  }

  /** The records after `put` are the new one and the old ones under other keys, with
      keys still unique. */
  lemma {:induction false} UpsertMembers(ss: seq<ChoreStatus>, r: ChoreStatus)
    requires UniqueKeys(ss)
    ensures UniqueKeys(Upsert(ss, r))
    ensures forall x :: x in Upsert(ss, r) <==> x == r || (x in ss && x.id != r.id)
  {
    if ss != [] {
      var t := ss[1..];
      assert ss == [ss[0]] + t;
      UniqueKeysCons(ss[0], t);
      if ss[0].id == r.id {
        UniqueKeysCons(r, t);
        forall x | x in t ensures x.id != r.id {
          var i :| 0 <= i < |t| && t[i] == x;
        }
      } else {
        UpsertMembers(t, r);
        var u := Upsert(t, r);
        forall i | 0 <= i < |u| ensures u[i].id != ss[0].id {
          assert u[i] in u;
          if u[i] != r {
            var j :| 0 <= j < |t| && t[j] == u[i];
          }
        }
        UniqueKeysCons(ss[0], u);
      }
    }
  }

  /** After `put` the new record is found under its key and every other key finds what it
      found before. */
  lemma {:induction false} UpsertFinds(ss: seq<ChoreStatus>, r: ChoreStatus, key: string)
    requires UniqueKeys(ss)
    ensures Lookup(Upsert(ss, r), key) == if key == r.id then Some(r) else Lookup(ss, key)
  {
    if ss != [] {
      var t := ss[1..];
      assert ss == [ss[0]] + t;
      UniqueKeysCons(ss[0], t);
      if ss[0].id == r.id {
        if key != r.id {
          assert Lookup(ss, key) == Lookup(t, key);
        }
      } else {
        UpsertFinds(t, r, key);
      }
    }
  }

  /** A key that no record carries finds nothing. */
  lemma {:induction false} AbsentKey(ss: seq<ChoreStatus>, key: string)
    requires forall i :: 0 <= i < |ss| ==> ss[i].id != key
    ensures Lookup(ss, key) == None
  {
    if ss != [] {
      assert forall i :: 0 <= i < |ss[1..]| ==> ss[1..][i] == ss[i + 1];
      AbsentKey(ss[1..], key);
    }
  }

  /** The record found under a key is a record of the table with that key. */
  lemma {:induction false} LookupFinds(ss: seq<ChoreStatus>, key: string)
    ensures Lookup(ss, key).Some? ==> Lookup(ss, key).value in ss && Lookup(ss, key).value.id == key
    ensures Lookup(ss, key).None? ==> forall x :: x in ss ==> x.id != key
  {
    if ss != [] {
      LookupFinds(ss[1..], key);
      forall x | x in ss ensures x == ss[0] || x in ss[1..] {
        var i :| 0 <= i < |ss| && ss[i] == x;
        if i > 0 { assert ss[1..][i - 1] == x; }
      }
    }
  }

  /** Reviewing the same chore of the same kid twice on one day leaves one record, holding
      the second verdict: the first one is gone from the table. */
  lemma ReviewTwiceKeepsLatest(ss: seq<ChoreStatus>, kidId: string, choreId: nat, date: string,
                               s1: ReviewStatus, r1: Option<string>, s2: ReviewStatus, r2: Option<string>)
    requires StatusesWellFormed(ss) && '_' !in date
    requires (s1, r1) != (s2, r2)
    ensures var u := Upsert(Upsert(ss, StatusRecord(kidId, choreId, date, s1, r1)), StatusRecord(kidId, choreId, date, s2, r2));
      StatusesWellFormed(u)
      && Lookup(u, StatusKey(kidId, choreId, date)) == Some(StatusRecord(kidId, choreId, date, s2, r2))
      && StatusRecord(kidId, choreId, date, s1, r1) !in u
  {
    var a := StatusRecord(kidId, choreId, date, s1, r1);
    var b := StatusRecord(kidId, choreId, date, s2, r2);
    UpsertLookup(ss, a, a.id);
    UpsertLookup(Upsert(ss, a), b, b.id);
  }

  // ---------------------------------------------------------------------------
  // The kid's ledger under review

  /** The kid counters no handler may drive below zero. */
  predicate LedgerNonNegative(k: Kid) {
    k.points >= 0 && k.lifetimePoints >= 0 && k.completedChores >= 0 && k.rejectedChores >= 0
    && k.notCompletedChores >= 0
  }

  /** The extra 5 points one kid, by name, earns for every completed chore. */
  function Bonus(k: Kid): int {
    if k.name == "Keira" then 5 else 0
  }

  /** `handleComplete`'s update of the kid. */
  function CompletedKid(k: Kid, chorePoints: int): Kid {
    var earned := chorePoints + Bonus(k);
    k.(points := k.points + earned, lifetimePoints := k.lifetimePoints + earned,
       completedChores := k.completedChores + 1)
  }

  /** `handleReject`'s update of the kid. */
  function RejectedKid(k: Kid): Kid {
    k.(rejectedChores := k.rejectedChores + 1)
  }

  /** `handleNotCompleted`'s update of the kid: the chore's points come off the balance,
      which stops at zero; lifetime points are left alone. */
  function NotCompletedKid(k: Kid, chorePoints: int): Kid {
    k.(notCompletedChores := k.notCompletedChores + 1, points := Max(k.points - chorePoints, 0))
  }

  /** What each verdict does to the ledger, field by field, and that nothing else changes. */
  lemma ReviewDeltas(k: Kid, chorePoints: int)
    ensures var c := CompletedKid(k, chorePoints);
      c.points - k.points == c.lifetimePoints - k.lifetimePoints == chorePoints + Bonus(k)
      && c.completedChores == k.completedChores + 1
      && c.(points := k.points, lifetimePoints := k.lifetimePoints, completedChores := k.completedChores) == k
    ensures var r := RejectedKid(k);
      r.rejectedChores == k.rejectedChores + 1 && r.(rejectedChores := k.rejectedChores) == k
    ensures var n := NotCompletedKid(k, chorePoints);
      n.notCompletedChores == k.notCompletedChores + 1
      && n.points >= 0 && n.points >= k.points - chorePoints && (n.points == 0 || n.points == k.points - chorePoints)
      && n.(points := k.points, notCompletedChores := k.notCompletedChores) == k
  {
  }

  /** Each verdict keeps the counters non-negative, given a chore worth no less than zero. */
  lemma ReviewKeepsLedgerNonNegative(k: Kid, chorePoints: int)
    requires LedgerNonNegative(k) && chorePoints >= 0
    ensures LedgerNonNegative(CompletedKid(k, chorePoints))
    ensures LedgerNonNegative(RejectedKid(k))
    ensures LedgerNonNegative(NotCompletedKid(k, chorePoints))
  {
  }

  // ---------------------------------------------------------------------------
  // Reverting a day

  /** What the reset takes back from one kid: points, and the three counters. */
  datatype Revert = Revert(points: int, completed: nat, rejected: nat, notCompleted: nat)

  /** `chores.find(c => c.id === id)`: the first template with that id. */
  function FindChore(chores: seq<ChoreTemplate>, id: nat): (r: Option<ChoreTemplate>)
    ensures r.Some? ==> r.value in chores && r.value.id == id
    ensures r.None? ==> forall c :: c in chores ==> c.id != id
  {
    if chores == [] then None
    else if chores[0].id == id then Some(chores[0])
    else FindChore(chores[1..], id)
  }

  /** One status of the day folded into the kid's revert: a completed chore takes back its
      points (the reset adds no bonus), a rejection is counted, a "not completed" gives
      one point back. Statuses of other kids and of unknown chores are skipped. */
  function RevertStep(t: Revert, s: ChoreStatus, kidId: string, chores: seq<ChoreTemplate>): Revert {
    if s.kidId != kidId then t
    else
      match FindChore(chores, s.choreId)
      case None => t
      case Some(c) =>
        match s.status
        case Completed => t.(points := t.points + c.points, completed := t.completed + 1)
        case Rejected => t.(rejected := t.rejected + 1)
        case NotCompleted => t.(points := t.points - 1, notCompleted := t.notCompleted + 1)
  }

  /** The revert of one kid over the day's statuses, in order. */
  function Tally(statuses: seq<ChoreStatus>, kidId: string, chores: seq<ChoreTemplate>): Revert
    decreases |statuses|
  {
    if statuses == [] then Revert(0, 0, 0, 0)
    else RevertStep(Tally(statuses[..|statuses| - 1], kidId, chores), statuses[|statuses| - 1], kidId, chores)
  }

  /** The kid after the reset: each reverted quantity comes off, and stops at zero. */
  function ResetKid(k: Kid, t: Revert): (r: Kid)
    ensures LedgerNonNegative(r)
    ensures r.(points := k.points, lifetimePoints := k.lifetimePoints, completedChores := k.completedChores,
                rejectedChores := k.rejectedChores, notCompletedChores := k.notCompletedChores) == k
  {
    k.(points := Max(k.points - t.points, 0),
       lifetimePoints := Max(k.lifetimePoints - t.points, 0),
       completedChores := Max(k.completedChores - t.completed, 0),
       rejectedChores := Max(k.rejectedChores - t.rejected, 0),
       notCompletedChores := Max(k.notCompletedChores - t.notCompleted, 0))
  }

  /** `where('date').equals(date)`: the statuses of that day, in table order. */
  function OnDay(ss: seq<ChoreStatus>, date: string): (r: seq<ChoreStatus>)
    ensures forall x :: x in r <==> x in ss && x.date == date
  {
    if ss == [] then []
    else (if ss[0].date == date then [ss[0]] else []) + OnDay(ss[1..], date)
  }

  /** The statuses of every other day, in table order. */
  function OtherDays(ss: seq<ChoreStatus>, date: string): (r: seq<ChoreStatus>)
    ensures forall x :: x in r <==> x in ss && x.date != date
  {
    if ss == [] then []
    else (if ss[0].date != date then [ss[0]] else []) + OtherDays(ss[1..], date)
  }

  function IdsOf(ss: seq<ChoreStatus>): set<string> {
    set x | x in ss :: x.id
  }

  /** `bulkDelete(ids)`: the table without the records under those keys. */
  function WithoutIds(ss: seq<ChoreStatus>, ids: set<string>): (r: seq<ChoreStatus>)
    ensures forall x :: x in r <==> x in ss && x.id !in ids
  {
    if ss == [] then []
    else (if ss[0].id !in ids then [ss[0]] else []) + WithoutIds(ss[1..], ids)
  }

  /** Deleting the keys of today's statuses deletes exactly today's statuses: every other
      day's record is kept, in order, because its key names its own date. */
  lemma ResetKeepsOtherDays(ss: seq<ChoreStatus>, date: string)
    requires StatusesWellFormed(ss)
    ensures WithoutIds(ss, IdsOf(OnDay(ss, date))) == OtherDays(ss, date)
  {
    var ids := IdsOf(OnDay(ss, date));
    forall i | 0 <= i < |ss| ensures ss[i].id in ids <==> ss[i].date == date {
      if ss[i].id in ids {
        var y :| y in OnDay(ss, date) && y.id == ss[i].id;
        var j :| 0 <= j < |ss| && ss[j] == y;
        StatusKeyInjective(ss[i].kidId, ss[i].choreId, ss[i].date, y.kidId, y.choreId, y.date);
      }
      if ss[i].date == date {
        assert ss[i] in OnDay(ss, date);
      }
    }
    FilterByKeysIsFilterByDate(ss, ids, date);
  }

  lemma {:induction false} FilterByKeysIsFilterByDate(ss: seq<ChoreStatus>, ids: set<string>, date: string)
    requires forall i :: 0 <= i < |ss| ==> (ss[i].id in ids <==> ss[i].date == date)
    ensures WithoutIds(ss, ids) == OtherDays(ss, date)
  {
    if ss != [] {
      assert forall i :: 0 <= i < |ss[1..]| ==> ss[1..][i] == ss[i + 1];
      FilterByKeysIsFilterByDate(ss[1..], ids, date);
    }
  }

  // ---------------------------------------------------------------------------
  // What a reset undoes

  /** One day's verdicts on one kid, in the order they were given. */
  datatype Verdict = Verdict(chore: ChoreTemplate, status: ReviewStatus)

  /** The kid after one verdict, applied by its handler. */
  function ApplyVerdict(k: Kid, v: Verdict): Kid {
    match v.status
    case Completed => CompletedKid(k, v.chore.points)
    case Rejected => RejectedKid(k)
    case NotCompleted => NotCompletedKid(k, v.chore.points)
  }

  /** The kid after the verdicts, in the order they were given. */
  function ApplyVerdicts(k: Kid, vs: seq<Verdict>): Kid
    decreases |vs|
  {
    if vs == [] then k
    else ApplyVerdict(ApplyVerdicts(k, vs[..|vs| - 1]), vs[|vs| - 1])
  }

  /** The status a verdict leaves; a rejection's reason is taken to be empty. */
  function VerdictRecord(kidId: string, v: Verdict, date: string): ChoreStatus {
    StatusRecord(kidId, v.chore.id, date, v.status, if v.status == ReviewStatus.Rejected then Some("") else None)
  }

  /** The statuses the verdicts leave for the day, one per verdict, in order. Saved one by
      one into a day that had none, verdicts on distinct chores leave exactly these as the
      day's statuses (`SavedVerdictsAreTheDay`). */
  function VerdictRecords(kidId: string, vs: seq<Verdict>, date: string): (r: seq<ChoreStatus>)
    ensures |r| == |vs|
    decreases |vs|
  {
    if vs == [] then []
    else VerdictRecords(kidId, vs[..|vs| - 1], date) + [VerdictRecord(kidId, vs[|vs| - 1], date)]
  }

  lemma {:induction false} VerdictRecordsAt(kidId: string, vs: seq<Verdict>, date: string, i: nat)
    requires i < |vs|
    ensures VerdictRecords(kidId, vs, date)[i] == VerdictRecord(kidId, vs[i], date)
    decreases |vs|
  {
    if i < |vs| - 1 {
      VerdictRecordsAt(kidId, vs[..|vs| - 1], date, i);
    }
  }

  /** `put` of each record in turn. */
  function SaveAll(ss: seq<ChoreStatus>, rs: seq<ChoreStatus>): seq<ChoreStatus>
    decreases |rs|
  {
    if rs == [] then ss else Upsert(SaveAll(ss, rs[..|rs| - 1]), rs[|rs| - 1])
  }

  /** `put` under a key the table does not hold appends. */
  lemma {:induction false} UpsertFresh(ss: seq<ChoreStatus>, r: ChoreStatus)
    requires forall i :: 0 <= i < |ss| ==> ss[i].id != r.id
    ensures Upsert(ss, r) == ss + [r]
    decreases |ss|
  {
    if ss != [] {
      assert ss[1..][0..] == ss[1..];
      forall i | 0 <= i < |ss[1..]| ensures ss[1..][i].id != r.id { assert ss[1..][i] == ss[i + 1]; }
      UpsertFresh(ss[1..], r);
      assert ss == [ss[0]] + ss[1..];
    }
  }

  lemma {:induction false} OnDayAppend(a: seq<ChoreStatus>, b: seq<ChoreStatus>, date: string)
    ensures OnDay(a + b, date) == OnDay(a, date) + OnDay(b, date)
    decreases |a|
  {
    if a == [] {
      assert a + b == b;
    } else {
      assert (a + b)[0] == a[0] && (a + b)[1..] == a[1..] + b;
      OnDayAppend(a[1..], b, date);
    }
  }

  lemma {:induction false} OnDayOfOneDay(rs: seq<ChoreStatus>, date: string)
    requires forall i :: 0 <= i < |rs| ==> rs[i].date == date
    ensures OnDay(rs, date) == rs
    decreases |rs|
  {
    if rs != [] {
      forall i | 0 <= i < |rs[1..]| ensures rs[1..][i].date == date { assert rs[1..][i] == rs[i + 1]; }
      OnDayOfOneDay(rs[1..], date);
      assert rs == [rs[0]] + rs[1..];
    }
  }

  lemma {:induction false} OnDayOfOtherDays(ss: seq<ChoreStatus>, date: string)
    requires forall i :: 0 <= i < |ss| ==> ss[i].date != date
    ensures OnDay(ss, date) == []
    decreases |ss|
  {
    if ss != [] {
      forall i | 0 <= i < |ss[1..]| ensures ss[1..][i].date != date { assert ss[1..][i] == ss[i + 1]; }
      OnDayOfOtherDays(ss[1..], date);
    }
  }

  /** A status of the day under the key of a well-formed record of another day, or of a
      verdict on another chore, cannot exist: the keys differ. */
  lemma VerdictKeyIsFresh(ss: seq<ChoreStatus>, kidId: string, vs: seq<Verdict>, date: string)
    requires vs != [] && StatusesWellFormed(ss) && '_' !in date
    requires forall i :: 0 <= i < |ss| ==> ss[i].date != date
    requires forall i :: 0 <= i < |vs| - 1 ==> vs[i].chore.id != vs[|vs| - 1].chore.id
    ensures var prefix := ss + VerdictRecords(kidId, vs[..|vs| - 1], date);
      forall i :: 0 <= i < |prefix| ==> prefix[i].id != VerdictRecord(kidId, vs[|vs| - 1], date).id
  {
    var vs' := vs[..|vs| - 1];
    var c := vs[|vs| - 1].chore.id;
    var prefix := ss + VerdictRecords(kidId, vs', date);
    forall i | 0 <= i < |prefix| ensures prefix[i].id != StatusKey(kidId, c, date) {
      if i < |ss| {
        if ss[i].id == StatusKey(kidId, c, date) {
          StatusKeyInjective(ss[i].kidId, ss[i].choreId, ss[i].date, kidId, c, date);
        }
      } else {
        var k := i - |ss|;
        VerdictRecordsAt(kidId, vs', date, k);
        assert vs'[k] == vs[k];
        if prefix[i].id == StatusKey(kidId, c, date) {
          StatusKeyInjective(kidId, vs'[k].chore.id, date, kidId, c, date);
        }
      }
    }
  }

  /** Saving a day of verdicts, on distinct chores, into a well-formed table with no
      status yet for that day appends one record per verdict. */
  lemma {:induction false} SaveVerdictsAppends(ss: seq<ChoreStatus>, kidId: string, vs: seq<Verdict>, date: string)
    requires StatusesWellFormed(ss) && '_' !in date
    requires forall i :: 0 <= i < |ss| ==> ss[i].date != date
    requires forall i, j :: 0 <= i < j < |vs| ==> vs[i].chore.id != vs[j].chore.id
    ensures SaveAll(ss, VerdictRecords(kidId, vs, date)) == ss + VerdictRecords(kidId, vs, date)
    decreases |vs|
  {
    if vs != [] {
      var rs := VerdictRecords(kidId, vs, date);
      var vs' := vs[..|vs| - 1];
      var rs' := VerdictRecords(kidId, vs', date);
      var r := VerdictRecord(kidId, vs[|vs| - 1], date);
      assert rs[..|rs| - 1] == rs' && rs[|rs| - 1] == r;
      assert forall i, j :: 0 <= i < j < |vs'| ==> vs'[i] == vs[i] && vs'[j] == vs[j];
      SaveVerdictsAppends(ss, kidId, vs', date);
      VerdictKeyIsFresh(ss, kidId, vs, date);
      UpsertFresh(ss + rs', r);
      assert (ss + rs') + [r] == ss + rs;
    }
  }

  /** After that save the day's statuses, which the reset tallies, are exactly the
      verdicts' records. */
  lemma SavedVerdictsAreTheDay(ss: seq<ChoreStatus>, kidId: string, vs: seq<Verdict>, date: string)
    requires StatusesWellFormed(ss) && '_' !in date
    requires forall i :: 0 <= i < |ss| ==> ss[i].date != date
    requires forall i, j :: 0 <= i < j < |vs| ==> vs[i].chore.id != vs[j].chore.id
    ensures OnDay(SaveAll(ss, VerdictRecords(kidId, vs, date)), date) == VerdictRecords(kidId, vs, date)
  {
    var rs := VerdictRecords(kidId, vs, date);
    SaveVerdictsAppends(ss, kidId, vs, date);
    OnDayAppend(ss, rs, date);
    forall i | 0 <= i < |rs| ensures rs[i].date == date { VerdictRecordsAt(kidId, vs, date, i); }
    OnDayOfOneDay(rs, date);
    OnDayOfOtherDays(ss, date);
  }

  function CompletedCount(vs: seq<Verdict>): nat
    decreases |vs|
  {
    if vs == [] then 0
    else CompletedCount(vs[..|vs| - 1]) + (if vs[|vs| - 1].status == Completed then 1 else 0)
  }

  /** The bonus the verdicts pay the kid: its bonus once per completed chore. */
  function BonusTotal(k: Kid, vs: seq<Verdict>): int
    decreases |vs|
  {
    if vs == [] then 0
    else BonusTotal(k, vs[..|vs| - 1]) + (if vs[|vs| - 1].status == Completed then Bonus(k) else 0)
  }

  lemma {:induction false} BonusTotalIsPerCompletion(k: Kid, vs: seq<Verdict>)
    ensures BonusTotal(k, vs) == Bonus(k) * CompletedCount(vs) >= 0
    decreases |vs|
  {
    if vs != [] {
      var vs' := vs[..|vs| - 1];
      BonusTotalIsPerCompletion(k, vs');
      var b, n' := Bonus(k), CompletedCount(vs');
      assert b * (n' + 1) == b * n' + b;
      assert b * n' >= 0 by {
        if k.name == "Keira" { assert b * n' == 5 * n'; } else { assert b * n' == 0; }
      }
    }
  }

  /** The kid credited with what a tally counts, plus a bonus. */
  function Credited(k: Kid, t: Revert, bonus: int): Kid {
    k.(points := k.points + t.points + bonus, lifetimePoints := k.lifetimePoints + t.points + bonus,
       completedChores := k.completedChores + t.completed, rejectedChores := k.rejectedChores + t.rejected)
  }

  /** One completion or rejection credits what the tally's step counts for its record. */
  lemma VerdictStepMatchesTally(k: Kid, t: Revert, bonus: int, v: Verdict, date: string, chores: seq<ChoreTemplate>)
    requires v.status != ReviewStatus.NotCompleted && FindChore(chores, v.chore.id) == Some(v.chore)
    ensures var t' := RevertStep(t, VerdictRecord(k.id, v, date), k.id, chores);
      ApplyVerdict(Credited(k, t, bonus), v) == Credited(k, t', bonus + (if v.status == Completed then Bonus(k) else 0))
      && t'.notCompleted == t.notCompleted
      && t'.completed == t.completed + (if v.status == Completed then 1 else 0)
  {
  }

  /** The verdicts, when no chore was marked "not completed", add exactly what the reset's
      tally counts, plus the bonus of every completed chore. */
  lemma {:induction false} VerdictsMatchTally(k: Kid, vs: seq<Verdict>, date: string, chores: seq<ChoreTemplate>)
    requires forall i :: 0 <= i < |vs| ==> vs[i].status != ReviewStatus.NotCompleted && FindChore(chores, vs[i].chore.id) == Some(vs[i].chore)
    ensures var t := Tally(VerdictRecords(k.id, vs, date), k.id, chores);
      var b := BonusTotal(k, vs);
      ApplyVerdicts(k, vs) == Credited(k, t, b) && t.notCompleted == 0 && t.completed == CompletedCount(vs)
    decreases |vs|
  {
    if vs == [] {
      assert Credited(k, Revert(0, 0, 0, 0), 0) == k;
    } else {
      var vs' := vs[..|vs| - 1];
      var v := vs[|vs| - 1];
      assert forall i :: 0 <= i < |vs'| ==> vs'[i] == vs[i];
      VerdictsMatchTally(k, vs', date, chores);
      var rs := VerdictRecords(k.id, vs, date);
      assert rs[..|rs| - 1] == VerdictRecords(k.id, vs', date);
      var t' := Tally(VerdictRecords(k.id, vs', date), k.id, chores);
      VerdictStepMatchesTally(k, t', BonusTotal(k, vs'), v, date, chores);
    }
  }

  /** The reset undoes a day of completions and rejections, except the bonus: the kid is
      back where it started, with the bonus of every completed chore left in its balance
      and in its lifetime points. */
  lemma ResetUndoesVerdicts(k: Kid, vs: seq<Verdict>, date: string, chores: seq<ChoreTemplate>)
    requires LedgerNonNegative(k)
    requires forall i :: 0 <= i < |vs| ==> vs[i].status != ReviewStatus.NotCompleted && FindChore(chores, vs[i].chore.id) == Some(vs[i].chore)
    ensures ResetKid(ApplyVerdicts(k, vs), Tally(VerdictRecords(k.id, vs, date), k.id, chores))
            == k.(points := k.points + Bonus(k) * CompletedCount(vs),
                  lifetimePoints := k.lifetimePoints + Bonus(k) * CompletedCount(vs))
  {
    VerdictsMatchTally(k, vs, date, chores);
    BonusTotalIsPerCompletion(k, vs);
    var t := Tally(VerdictRecords(k.id, vs, date), k.id, chores);
    var b := BonusTotal(k, vs);
    ResetOfCredited(k, t, b);
    calc {
      ResetKid(ApplyVerdicts(k, vs), t);
      ResetKid(Credited(k, t, b), t);
      k.(points := k.points + b, lifetimePoints := k.lifetimePoints + b);
    }
  }

  /** Reverting what was credited, with no "not completed" in the tally, leaves only the
      bonus. */
  lemma ResetOfCredited(k: Kid, t: Revert, bonus: int)
    requires LedgerNonNegative(k) && bonus >= 0 && t.notCompleted == 0
    ensures ResetKid(Credited(k, t, bonus), t) == k.(points := k.points + bonus, lifetimePoints := k.lifetimePoints + bonus)
  {
  }

  /** For a kid without the bonus, the reset is an exact undo. */
  lemma ResetRestoresKid(k: Kid, vs: seq<Verdict>, date: string, chores: seq<ChoreTemplate>)
    requires LedgerNonNegative(k) && k.name != "Keira"
    requires forall i :: 0 <= i < |vs| ==> vs[i].status != ReviewStatus.NotCompleted && FindChore(chores, vs[i].chore.id) == Some(vs[i].chore)
    ensures ResetKid(ApplyVerdicts(k, vs), Tally(VerdictRecords(k.id, vs, date), k.id, chores)) == k
  {
    ResetUndoesVerdicts(k, vs, date, chores);
  }

  /** A rejection, then a reset, then a completion ends where a single completion ends. */
  lemma RejectResetCompleteIsComplete(k: Kid, chore: ChoreTemplate, date: string, chores: seq<ChoreTemplate>)
    requires LedgerNonNegative(k) && FindChore(chores, chore.id) == Some(chore)
    ensures CompletedKid(ResetKid(RejectedKid(k), Tally([StatusRecord(k.id, chore.id, date, ReviewStatus.Rejected, Some(""))], k.id, chores)), chore.points)
            == CompletedKid(k, chore.points)
  {
    var vs := [Verdict(chore, ReviewStatus.Rejected)];
    assert vs[..0] == [];
    ResetUndoesVerdicts(k, vs, date, chores);
    assert VerdictRecords(k.id, vs, date) == [StatusRecord(k.id, chore.id, date, ReviewStatus.Rejected, Some(""))];
  }

  /** "Not completed" is not undone: the reset gives one point back instead of the points
      taken, and adds that point to the lifetime points, which the verdict never lowered. */
  lemma NotCompletedResetAsymmetry(k: Kid, chore: ChoreTemplate, date: string, chores: seq<ChoreTemplate>)
    requires LedgerNonNegative(k) && FindChore(chores, chore.id) == Some(chore)
    ensures var r := ResetKid(NotCompletedKid(k, chore.points), Tally([StatusRecord(k.id, chore.id, date, ReviewStatus.NotCompleted, None)], k.id, chores));
      r.points == Max(k.points - chore.points, 0) + 1
      && r.lifetimePoints == k.lifetimePoints + 1
      && r.notCompletedChores == k.notCompletedChores
  {
    var s := [StatusRecord(k.id, chore.id, date, ReviewStatus.NotCompleted, None)];
    assert s[..0] == [];
    assert Tally(s, k.id, chores) == Revert(-1, 0, 0, 1);
  }

  /** A chore marked "not completed" and then completed the same day: the later record
      replaces the earlier one, so the reset takes back the completion but never reverts
      the "not completed" count, and the points lost to it stay lost. */
  lemma NotCompletedThenCompletedReset(k: Kid, chore: ChoreTemplate, date: string, chores: seq<ChoreTemplate>)
    requires LedgerNonNegative(k) && FindChore(chores, chore.id) == Some(chore) && chore.points >= 0
    requires k.name != "Keira"
    ensures var r := ResetKid(CompletedKid(NotCompletedKid(k, chore.points), chore.points),
                              Tally([StatusRecord(k.id, chore.id, date, Completed, None)], k.id, chores));
      r.notCompletedChores == k.notCompletedChores + 1
      && r.points == Max(k.points - chore.points, 0)
      && r.completedChores == k.completedChores
  {
    var s := [StatusRecord(k.id, chore.id, date, Completed, None)];
    assert s[..0] == [];
    assert Tally(s, k.id, chores) == Revert(chore.points, 1, 0, 0);
  }

  // ---------------------------------------------------------------------------
  // What the screen offers

  /** The chore's status today, as the review screen shows it. */
  function TodayStatus(ss: seq<ChoreStatus>, kidId: string, choreId: nat, date: string): Option<ReviewStatus> {
    match Lookup(ss, StatusKey(kidId, choreId, date))
    case None => None
    case Some(s) => Some(s.status)
  }

  /** The three verdict buttons are shown unless the chore is completed or rejected. */
  predicate ReviewActionsOffered(status: Option<ReviewStatus>) {
    status != Some(Completed) && status != Some(ReviewStatus.Rejected)
  }

  /** After a completion or a rejection the buttons are gone for the day; after a "not
      completed" they are still there, so the chore can be reviewed again. */
  lemma ReviewClosesChore(ss: seq<ChoreStatus>, kidId: string, choreId: nat, date: string, status: ReviewStatus, reason: Option<string>)
    requires StatusesWellFormed(ss) && '_' !in date
    ensures var u := Upsert(ss, StatusRecord(kidId, choreId, date, status, reason));
      ReviewActionsOffered(TodayStatus(u, kidId, choreId, date)) <==> status == ReviewStatus.NotCompleted
  {
    var r := StatusRecord(kidId, choreId, date, status, reason);
    UpsertLookup(ss, r, r.id);
  }

  // ---------------------------------------------------------------------------
  // The handlers

  /** `saveStatus`: `put` of the status record for today. */
  method SaveStatus(db: ChoreDb, choreId: nat, kidId: string, status: ReviewStatus, reason: Option<string>, today: string)
    modifies db
    ensures db.Contents() == old(db.Contents()).(choreStatuses := Upsert(old(db.choreStatuses), StatusRecord(kidId, choreId, today, status, reason)))
  {
    var r := StatusRecord(kidId, choreId, today, status, reason);
    var ss := db.choreStatuses;
    var i := 0;
    while i < |ss| && ss[i].id != r.id
      invariant 0 <= i <= |ss|
      invariant forall j :: 0 <= j < i ==> ss[j].id != r.id
    {
      i := i + 1;
    }
    UpsertAfterPrefix(ss, r, i);
    if i < |ss| {
      assert ss[i..][1..] == ss[i + 1..];
      db.choreStatuses := ss[..i] + [r] + ss[i + 1..];
    } else {
      db.choreStatuses := ss + [r];
    }
  }

  /** `put` walks past the records under other keys. */
  lemma {:induction false} UpsertAfterPrefix(ss: seq<ChoreStatus>, r: ChoreStatus, i: nat)
    requires i <= |ss| && forall j :: 0 <= j < i ==> ss[j].id != r.id
    ensures Upsert(ss, r) == ss[..i] + Upsert(ss[i..], r)
    decreases i
  {
    if i == 0 {
      assert ss[0..] == ss;
    } else {
      UpsertAfterPrefix(ss, r, i - 1);
      var tail := ss[i - 1..];
      assert tail[0] == ss[i - 1] && tail[1..] == ss[i..];
      assert Upsert(tail, r) == [ss[i - 1]] + Upsert(ss[i..], r);
      assert ss[..i - 1] + [ss[i - 1]] == ss[..i];
    }
  }

  /** `handleComplete`: credits the chore's points (and the bonus) to the balance and the
      lifetime points, counts the chore, and records it completed. A kid that is not in the
      table changes nothing. */
  method HandleComplete(db: ChoreDb, chore: ChoreTemplate, kidId: string, today: string)
    modifies db
    ensures kidId !in old(db.kidProfiles) ==> db.Contents() == old(db.Contents())
    ensures kidId in old(db.kidProfiles) ==> db.Contents() == old(db.Contents()).(
      kidProfiles := old(db.kidProfiles)[kidId := CompletedKid(old(db.kidProfiles)[kidId], chore.points)],
      choreStatuses := Upsert(old(db.choreStatuses), StatusRecord(kidId, chore.id, today, Completed, None)))
  {
    if kidId !in db.kidProfiles { return; }
    var kid := db.kidProfiles[kidId];
    db.kidProfiles := db.kidProfiles[kidId := CompletedKid(kid, chore.points)];
    SaveStatus(db, chore.id, kidId, Completed, None, today);
  }

  /** `handleReject`: counts the rejection and records it with the typed reason (the empty
      text when none was typed). */
  method HandleReject(db: ChoreDb, chore: ChoreTemplate, kidId: string, typedReason: Option<string>, today: string)
    modifies db
    ensures kidId !in old(db.kidProfiles) ==> db.Contents() == old(db.Contents())
    ensures kidId in old(db.kidProfiles) ==> db.Contents() == old(db.Contents()).(
      kidProfiles := old(db.kidProfiles)[kidId := RejectedKid(old(db.kidProfiles)[kidId])],
      choreStatuses := Upsert(old(db.choreStatuses), StatusRecord(kidId, chore.id, today, ReviewStatus.Rejected, Some(typedReason.GetOr("")))))
  {
    if kidId !in db.kidProfiles { return; }
    var kid := db.kidProfiles[kidId];
    var reason := typedReason.GetOr("");
    db.kidProfiles := db.kidProfiles[kidId := RejectedKid(kid)];
    SaveStatus(db, chore.id, kidId, ReviewStatus.Rejected, Some(reason), today);
  }

  /** `handleNotCompleted`: takes the chore's points off the balance (not below zero),
      counts it, and records it not completed. */
  method HandleNotCompleted(db: ChoreDb, chore: ChoreTemplate, kidId: string, today: string)
    modifies db
    ensures kidId !in old(db.kidProfiles) ==> db.Contents() == old(db.Contents())
    ensures kidId in old(db.kidProfiles) ==> db.Contents() == old(db.Contents()).(
      kidProfiles := old(db.kidProfiles)[kidId := NotCompletedKid(old(db.kidProfiles)[kidId], chore.points)],
      choreStatuses := Upsert(old(db.choreStatuses), StatusRecord(kidId, chore.id, today, ReviewStatus.NotCompleted, None)))
  {
    if kidId !in db.kidProfiles { return; }
    var kid := db.kidProfiles[kidId];
    db.kidProfiles := db.kidProfiles[kidId := NotCompletedKid(kid, chore.points)];
    SaveStatus(db, chore.id, kidId, ReviewStatus.NotCompleted, None, today);
  }

  /** The inner loop of `handleResetChores`: one kid's revert over the day's statuses. */
  method TallyKidStatuses(statuses: seq<ChoreStatus>, kidId: string, chores: seq<ChoreTemplate>) returns (t: Revert)
    ensures t == Tally(statuses, kidId, chores)
  {
    t := Revert(0, 0, 0, 0);
    var i := 0;
    while i < |statuses|
      invariant 0 <= i <= |statuses|
      invariant t == Tally(statuses[..i], kidId, chores)
    {
      var s := statuses[i];
      assert statuses[..i + 1][..i] == statuses[..i];
      if s.kidId == kidId {
        var c := FindChore(chores, s.choreId);
        if c.Some? {
          if s.status == Completed {
            t := t.(points := t.points + c.value.points, completed := t.completed + 1);
          }
          if s.status == ReviewStatus.Rejected {
            t := t.(rejected := t.rejected + 1);
          }
          if s.status == ReviewStatus.NotCompleted {
            t := t.(points := t.points - 1, notCompleted := t.notCompleted + 1);
          }
        }
      }
      i := i + 1;
    }
    assert statuses[..i] == statuses;
  }

  /** `handleResetChores`, once confirmed: deletes today's statuses and reverts every kid
      from them, against the screen's list of chore templates. */
  method HandleResetChores(db: ChoreDb, confirmed: bool, today: string, chores: seq<ChoreTemplate>)
    modifies db
    ensures !confirmed ==> db.Contents() == old(db.Contents())
    ensures confirmed ==> db.Contents() == old(db.Contents()).(
      choreStatuses := WithoutIds(old(db.choreStatuses), IdsOf(OnDay(old(db.choreStatuses), today))),
      kidProfiles := map id | id in old(db.kidProfiles) ::
                       ResetKid(old(db.kidProfiles)[id], Tally(OnDay(old(db.choreStatuses), today), id, chores)))
  {
    if !confirmed { return; }
    var statuses := OnDay(db.choreStatuses, today);
    db.choreStatuses := WithoutIds(db.choreStatuses, IdsOf(statuses));
    RevertKids(db, statuses, chores);
  }

  /** Part way through the kid loop of `handleResetChores`: the kids still to visit keep
      their record, the others are reverted from the deleted statuses. */
  ghost predicate RevertedExcept(cur: map<string, Kid>, before: map<string, Kid>, remaining: set<string>,
                                 statuses: seq<ChoreStatus>, chores: seq<ChoreTemplate>) {
    remaining <= before.Keys && cur.Keys == before.Keys
    && forall id :: id in before ==>
         cur[id] == if id in remaining then before[id] else ResetKid(before[id], Tally(statuses, id, chores))
  }

  lemma RevertKidStep(cur: map<string, Kid>, before: map<string, Kid>, remaining: set<string>,
                      statuses: seq<ChoreStatus>, chores: seq<ChoreTemplate>, id: string)
    requires RevertedExcept(cur, before, remaining, statuses, chores) && id in remaining
    ensures RevertedExcept(cur[id := ResetKid(cur[id], Tally(statuses, id, chores))], before, remaining - {id}, statuses, chores)
  {
  }

  /** The kid loop of `handleResetChores`: each kid in turn is reverted from the deleted
      statuses. */
  method RevertKids(db: ChoreDb, statuses: seq<ChoreStatus>, chores: seq<ChoreTemplate>)
    modifies db
    ensures db.Contents() == old(db.Contents()).(
      kidProfiles := map id | id in old(db.kidProfiles) :: ResetKid(old(db.kidProfiles)[id], Tally(statuses, id, chores)))
  {
    ghost var before := db.kidProfiles;
    var remaining := db.kidProfiles.Keys;
    while remaining != {}
      invariant RevertedExcept(db.kidProfiles, before, remaining, statuses, chores)
      invariant db.Contents() == old(db.Contents()).(kidProfiles := db.kidProfiles)
      decreases remaining
    {
      var id :| id in remaining;
      RevertKidStep(db.kidProfiles, before, remaining, statuses, chores, id);
      var kid := db.kidProfiles[id];
      var t := TallyKidStatuses(statuses, id, chores);
      db.kidProfiles := db.kidProfiles[id := ResetKid(kid, t)];
      remaining := remaining - {id};
    }
  }

  /** `g` groups the templates of `p` under each (non-empty) assignee id of the day. */
  ghost predicate GroupedBy(g: map<string, seq<ChoreTemplate>>, p: seq<ChoreTemplate>, day: string) {
    (forall k :: k in g <==> k != "" && exists c :: c in p && AssigneeOn(c, day) == Some(k))
    && (forall k :: k in g ==> g[k] == AssignedOn(p, day, k))
  }

  /** One turn of `choresByKid`'s loop: the template joins its assignee's group. */
  function AddToGroup(g: map<string, seq<ChoreTemplate>>, c: ChoreTemplate, day: string): map<string, seq<ChoreTemplate>> {
    var a := AssigneeOn(c, day);
    if a.Some? && a.value != "" then g[a.value := (if a.value in g then g[a.value] else []) + [c]] else g
  }

  lemma GroupStep(g: map<string, seq<ChoreTemplate>>, p: seq<ChoreTemplate>, c: ChoreTemplate, day: string)
    requires GroupedBy(g, p, day)
    ensures GroupedBy(AddToGroup(g, c, day), p + [c], day)
  {
    var g' := AddToGroup(g, c, day);
    var a := AssigneeOn(c, day);
    if a.Some? && a.value != "" && a.value !in g {
      NothingAssigned(p, day, a.value);
    }
    forall k | k in g' ensures g'[k] == AssignedOn(p + [c], day, k) {
      AssignedOnSnoc(p, c, day, k);
    }
    forall k ensures k in g' <==> k != "" && exists c' :: c' in p + [c] && AssigneeOn(c', day) == Some(k) {
      AssignedSomeSnoc(p, c, day, k);
    }
  }

  /** `choresByKid`: today's chores grouped under each kid with a (non-empty) assignee id,
      each group in template order. */
  method GroupChoresByKid(chores: seq<ChoreTemplate>, todayKey: string) returns (g: map<string, seq<ChoreTemplate>>)
    ensures forall k :: k in g <==> k != "" && exists c :: c in chores && AssigneeOn(c, todayKey) == Some(k)
    ensures forall k :: k in g ==> g[k] == AssignedOn(chores, todayKey, k)
  {
    g := map[];
    var i := 0;
    while i < |chores|
      invariant 0 <= i <= |chores|
      invariant GroupedBy(g, chores[..i], todayKey)
    {
      var c := chores[i];
      GroupStep(g, chores[..i], c, todayKey);
      assert chores[..i + 1] == chores[..i] + [c];
      var a := AssigneeOn(c, todayKey);
      if a.Some? && a.value != "" {
        var group := if a.value in g then g[a.value] else [];
        g := g[a.value := group + [c]];
      }
      i := i + 1;
    }
    assert chores[..i] == chores;
  }
}
