/** The weekly schedule of a chore template: which kid does it on which weekday. The
    profile page ("today's chores"), the review screen (chores grouped by kid) and the
    calendar (one cell per kid and weekday) all read it with the same filter. */
module Schedule {
  import opened Records

  /** The weekday keys, Sunday first, as `getDay()` indexes them. */
  const WeekdayKeys: seq<string> := ["Sun", "Mon", "Tue", "Wed", "Thu", "Fri", "Sat"]

  /** `chore.weeklyAssignment?.[day]`, with a missing key and null both read as `None`. */
  function AssigneeOn(c: ChoreTemplate, day: string): Option<string> {
    if day in c.weeklyAssignment then c.weeklyAssignment[day] else None
  }

  /** `chores.filter(chore => chore.weeklyAssignment?.[day] === kidId)`: the chores the
      kid does on that day, in template order. */
  function AssignedOn(chores: seq<ChoreTemplate>, day: string, kidId: string): (r: seq<ChoreTemplate>)
    ensures |r| <= |chores|
    ensures forall c :: c in r <==> c in chores && AssigneeOn(c, day) == Some(kidId)
    decreases |chores|
  {
    if chores == [] then []
    else
      var last := chores[|chores| - 1];
      assert chores == chores[..|chores| - 1] + [last];
      AssignedOn(chores[..|chores| - 1], day, kidId) + (if AssigneeOn(last, day) == Some(kidId) then [last] else [])
  }

  /** The filter only drops chores: each chore is kept at most as often as the template
      list has it. */
  lemma {:induction false} AssignedOnSubMultiset(chores: seq<ChoreTemplate>, day: string, kidId: string)
    ensures multiset(AssignedOn(chores, day, kidId)) <= multiset(chores)
    decreases |chores|
  {
    if chores != [] {
      var init, last := chores[..|chores| - 1], chores[|chores| - 1];
      assert chores == init + [last];
      AssignedOnSubMultiset(init, day, kidId);
    }
  }

  /** The filter keeps template order: filtering a concatenation concatenates the filtered parts. */
  lemma {:induction false} AssignedOnAppend(a: seq<ChoreTemplate>, b: seq<ChoreTemplate>, day: string, kidId: string)
    ensures AssignedOn(a + b, day, kidId) == AssignedOn(a, day, kidId) + AssignedOn(b, day, kidId)
    decreases |b|
  {
    if b == [] {
      assert a + b == a;
    } else {
      var b' := b[..|b| - 1];
      var last := b[|b| - 1];
      var extra := if AssigneeOn(last, day) == Some(kidId) then [last] else [];
      assert (a + b)[..|a + b| - 1] == a + b';
      assert AssignedOn(a + b, day, kidId) == AssignedOn(a + b', day, kidId) + extra;
      assert AssignedOn(b, day, kidId) == AssignedOn(b', day, kidId) + extra;
      AssignedOnAppend(a, b', day, kidId);
    }
  }

  /** Filtering a list with one more template at the end adds that template when it is
      the kid's that day, and nothing otherwise. */
  lemma AssignedOnSnoc(p: seq<ChoreTemplate>, c: ChoreTemplate, day: string, kidId: string)
    ensures AssignedOn(p + [c], day, kidId)
      == AssignedOn(p, day, kidId) + (if AssigneeOn(c, day) == Some(kidId) then [c] else [])
  {
    assert (p + [c])[..|p|] == p;
  }

  /** Some template of a list with one more at the end is the kid's that day exactly when
      one of the list's is or the new one is. */
  lemma AssignedSomeSnoc(p: seq<ChoreTemplate>, c: ChoreTemplate, day: string, kidId: string)
    ensures (exists c' :: c' in p + [c] && AssigneeOn(c', day) == Some(kidId))
      <==> (exists c' :: c' in p && AssigneeOn(c', day) == Some(kidId)) || AssigneeOn(c, day) == Some(kidId)
  {
    assert c in p + [c];
    assert forall c' :: c' in p ==> c' in p + [c];
  }

  /** A kid with no chore on that day has an empty list. */
  lemma {:induction false} NothingAssigned(chores: seq<ChoreTemplate>, day: string, kidId: string)
    requires forall c :: c in chores ==> AssigneeOn(c, day) != Some(kidId)
    ensures AssignedOn(chores, day, kidId) == []
    decreases |chores|
  {
    if chores != [] {
      NothingAssigned(chores[..|chores| - 1], day, kidId);
    }
  }

  /** On a given day a chore is in the list of at most one kid: the schedule holds one
      value per day. */
  lemma AssignedToOneKid(chores: seq<ChoreTemplate>, day: string, k1: string, k2: string, c: ChoreTemplate)
    requires c in AssignedOn(chores, day, k1) && c in AssignedOn(chores, day, k2)
    ensures k1 == k2
  {
  }

  /** A chore with nobody assigned on that day is in nobody's list. */
  lemma UnassignedInNoList(chores: seq<ChoreTemplate>, day: string, kidId: string, c: ChoreTemplate)
    requires AssigneeOn(c, day).None?
    ensures c !in AssignedOn(chores, day, kidId)
  {
  }
}
