/** The home screen's full reset (src/pages/Home.tsx): every redemption and every chore
    review is discarded and every kid's points and counters go back to zero. Workbook
    assignments, extra-chore claims, overrides and templates are kept. */
module Home {
  import opened Records
  import opened ChoreDatabase
  import opened ReviewChores

  /** The kid after the reset: points, lifetime points and the five counters at zero. */
  function ZeroedKid(k: Kid): Kid {
    k.(points := 0, lifetimePoints := 0, completedChores := 0, completedWorkbooks := 0,
       rejectedChores := 0, rejectedWorkbooks := 0, notCompletedChores := 0)
  }

  /** `resetDatabase` on the tables. */
  function ResetTables(t: Tables): Tables {
    t.(pendingRewards := [], choreStatuses := [],
       kidProfiles := map id | id in t.kidProfiles :: ZeroedKid(t.kidProfiles[id]))
  }

  /** After the reset there are no redemptions and no chore reviews; no kid is removed or
      added, each keeps its id, name, avatar and pin, and has every points field and
      counter at zero; the other tables are untouched; and resetting again changes nothing. */
  lemma ResetEffect(t: Tables)
    ensures var u := ResetTables(t);
      u.pendingRewards == [] && u.choreStatuses == [] && UniqueRewardIds(u.pendingRewards)
      && u.kidProfiles.Keys == t.kidProfiles.Keys
      && (forall id :: id in t.kidProfiles ==>
            var k, k' := t.kidProfiles[id], u.kidProfiles[id];
            k'.id == k.id && k'.name == k.name && k'.avatar == k.avatar && k'.pin == k.pin
            && k'.points == 0 && k'.lifetimePoints == 0 && k'.completedChores == 0
            && k'.rejectedChores == 0 && k'.notCompletedChores == 0
            && k'.completedWorkbooks == 0 && k'.rejectedWorkbooks == 0
            && LedgerNonNegative(k'))
      && u.(pendingRewards := t.pendingRewards, choreStatuses := t.choreStatuses, kidProfiles := t.kidProfiles) == t
      && ResetTables(u) == u
  {
    var u := ResetTables(t);
    assert u.kidProfiles == map id | id in u.kidProfiles :: ZeroedKid(u.kidProfiles[id]);
  }

  /** `resetDatabase`: clear the two tables, then zero the kids one at a time. */
  method ResetDatabase(db: ChoreDb)
    modifies db
    ensures db.Contents() == ResetTables(old(db.Contents()))
  {
    db.pendingRewards := [];
    db.choreStatuses := [];
    ghost var before := db.kidProfiles;
    var remaining := db.kidProfiles.Keys;
    while remaining != {}
      invariant remaining <= before.Keys
      invariant db.kidProfiles.Keys == before.Keys
      invariant forall id :: id in before ==>
        db.kidProfiles[id] == if id in remaining then before[id] else ZeroedKid(before[id])
      invariant db.Contents() == old(db.Contents()).(pendingRewards := [], choreStatuses := [], kidProfiles := db.kidProfiles)
      decreases remaining
    {
      var id :| id in remaining;
      db.kidProfiles := db.kidProfiles[id := ZeroedKid(db.kidProfiles[id])];
      remaining := remaining - {id};
    }
  }
}
