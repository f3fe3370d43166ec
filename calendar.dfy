/** The weekly calendar (src/pages/Calendar.tsx): one row per kid, seven day columns from
    Sunday, and in each cell the chores the schedule gives that kid on that day. */
module Calendar {
  import opened Records
  import opened Schedule

  /** The day columns, `['Sun', ..., 'Sat']`. */
  const Days: seq<string> := WeekdayKeys

  /** There are seven columns, Sunday first and Saturday last, no day twice. */
  lemma DaysShape()
    ensures |Days| == 7 && Days[0] == "Sun" && Days[6] == "Sat"
    ensures forall i, j :: 0 <= i < j < |Days| ==> Days[i] != Days[j]
  {
  }

  /** A kid's row: for each day column, the chores assigned to the kid that day. */
  function KidRow(chores: seq<ChoreTemplate>, kidId: string): (r: seq<seq<ChoreTemplate>>)
    ensures |r| == |Days|
  {
    seq(|Days|, d requires 0 <= d < |Days| => AssignedOn(chores, Days[d], kidId))
  }

  /** The whole grid, one row per kid in list order. */
  function Grid(chores: seq<ChoreTemplate>, kidIds: seq<string>): (r: seq<seq<seq<ChoreTemplate>>>)
    ensures |r| == |kidIds|
  {
    seq(|kidIds|, k requires 0 <= k < |kidIds| => KidRow(chores, kidIds[k]))
  }

  /** A cell lists exactly the chores whose assignee that day is the row's kid, in
      template order, none twice more often than the template list has it. */
  lemma CellContents(chores: seq<ChoreTemplate>, kidIds: seq<string>, k: nat, d: nat)
    requires k < |kidIds| && d < |Days|
    ensures var cell := Grid(chores, kidIds)[k][d];
      |cell| <= |chores| && multiset(cell) <= multiset(chores)
      && (forall c :: c in cell <==> c in chores && AssigneeOn(c, Days[d]) == Some(kidIds[k]))
      && (forall a, b :: AssignedOn(a + b, Days[d], kidIds[k]) == AssignedOn(a, Days[d], kidIds[k]) + AssignedOn(b, Days[d], kidIds[k]))
  {
    AssignedOnSubMultiset(chores, Days[d], kidIds[k]);
    forall a, b ensures AssignedOn(a + b, Days[d], kidIds[k]) == AssignedOn(a, Days[d], kidIds[k]) + AssignedOn(b, Days[d], kidIds[k]) {
      AssignedOnAppend(a, b, Days[d], kidIds[k]);
    }
  }

  /** In one day column a chore is in the cells of one kid only: two rows that both show
      it belong to the same kid id. */
  lemma OneKidPerChoreAndDay(chores: seq<ChoreTemplate>, kidIds: seq<string>, k1: nat, k2: nat, d: nat, c: ChoreTemplate)
    requires k1 < |kidIds| && k2 < |kidIds| && d < |Days|
    requires c in Grid(chores, kidIds)[k1][d] && c in Grid(chores, kidIds)[k2][d]
    ensures kidIds[k1] == kidIds[k2]
  {
    AssignedToOneKid(chores, Days[d], kidIds[k1], kidIds[k2], c);
  }

  /** A chore with nobody assigned on a day is in no cell of that day's column. */
  lemma UnassignedInNoCell(chores: seq<ChoreTemplate>, kidIds: seq<string>, d: nat, c: ChoreTemplate)
    requires d < |Days| && AssigneeOn(c, Days[d]).None?
    ensures forall k :: 0 <= k < |kidIds| ==> c !in Grid(chores, kidIds)[k][d]
  {
    forall k | 0 <= k < |kidIds| ensures c !in Grid(chores, kidIds)[k][d] {
      UnassignedInNoList(chores, Days[d], kidIds[k], c);
    }
  }
}
