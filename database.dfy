/** The household's table store, held in memory. Every screen handler is one sequential
    read-modify-write on these tables.

    Store semantics kept from the application's database library: `put` inserts or
    replaces the record under its key, `update` on a key that is not there changes
    nothing, and `add` on a key that is already there fails, so the handler stops at
    that point. */
module ChoreDatabase {
  import opened Records

  /** A snapshot of every table. */
  datatype Tables = Tables(
    kidProfiles: map<string, Kid>,
    choreTemplates: map<nat, ChoreTemplate>,
    choreStatuses: seq<ChoreStatus>,
    woodBooks: map<nat, WoodBook>,
    workbookAssignments: map<nat, WorkbookAssignment>,
    kidWorkbookPointOverrides: seq<KidWorkbookPointOverride>,
    extraChoreTemplates: map<nat, ExtraChoreTemplate>,
    extraChoreAssignments: map<nat, ExtraChoreAssignment>,
    pendingRewards: seq<PendingReward>)

  class ChoreDb {
    var kidProfiles: map<string, Kid>
    var choreTemplates: map<nat, ChoreTemplate>
    /** Chore-status records, each under its own key `id`. */
    var choreStatuses: seq<ChoreStatus>
    var woodBooks: map<nat, WoodBook>
    var workbookAssignments: map<nat, WorkbookAssignment>
    /** Overrides in the order they were added. */
    var kidWorkbookPointOverrides: seq<KidWorkbookPointOverride>
    var extraChoreTemplates: map<nat, ExtraChoreTemplate>
    var extraChoreAssignments: map<nat, ExtraChoreAssignment>
    /** Redemptions in the order of their auto-increment ids. */
    var pendingRewards: seq<PendingReward>

    function Contents(): Tables
      reads this
    {
      Tables(kidProfiles, choreTemplates, choreStatuses, woodBooks, workbookAssignments,
             kidWorkbookPointOverrides, extraChoreTemplates, extraChoreAssignments, pendingRewards)
    }

    constructor ()
      ensures Contents() == Tables(map[], map[], [], map[], map[], [], map[], map[], [])
    {
      kidProfiles, choreTemplates, choreStatuses := map[], map[], [];
      woodBooks, workbookAssignments, kidWorkbookPointOverrides := map[], map[], [];
      extraChoreTemplates, extraChoreAssignments, pendingRewards := map[], map[], [];
    }
  }
}
