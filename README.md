# Household chore ledger: a verified model

This project models the ledger and review workflow of a family chore app in Dafny. The
app keeps a points balance, lifetime points and counters for each kid. It changes them
when:

- a parent reviews the day's chores;
- a kid submits a workbook or claims an extra chore;
- a parent approves or rejects those;
- a kid redeems a reward;
- a parent edits the household's kids, chores, workbooks and reward catalogue.

All the app's tables live in one in-memory store, the class `ChoreDatabase.ChoreDb`.
That store holds:

- kid profiles;
- chore templates, each with a weekday-to-kid map;
- chore statuses;
- workbooks and their assignments;
- per-kid workbook point overrides;
- extra chores and their claims;
- pending rewards.

Each screen handler is one sequential read-modify-write on the store. It is written as
a module-level `method` that takes the store (`db: ChoreDb`) and `modifies db`; only the
catalogue editor's handlers are methods of its own `StoreEditor` class. The method's
`ensures` gives the new store as a pure function of the old one (`…Tables`). Lemmas about that function state what the handler promises:

- which fields change, and by how much;
- what is refused;
- which invariants are kept;
- how handlers compose, for example review then reset.

The store keeps the semantics of the app's database library:

- `put` inserts or replaces the record under its key;
- `update` on a missing key changes nothing;
- `add` on a key already in use fails, and the handler stops there.

Some values are passed in as parameters instead:

- the date string;
- the weekday;
- the clock stamps used as fresh ids;
- the auto-increment id of a new redemption;
- the text a parent types into a prompt, parsed to `Option<int>`;
- each answer to a confirmation dialog, as a `bool`.

Modules follow the screens. `Records`, `JsText`, `Schedule` and `ChoreDatabase` are
shared. Each of these is one screen: `ReviewChores`, `ProfilePage`, `ReviewWorkbook`,
`ReviewExtraChores`, `PointStore`, `Rewards`, `Manager`, `Home`, `StoreManagement` and
`Calendar`.

The code's asymmetries are kept as written and stated as lemmas:

- a reset does not refund the +5 bonus;
- a reset gives back 1 point for "not completed", not the points taken;
- a workbook submission credits lifetime points early;
- a redemption with too few points is recorded without a debit;
- a new kid's pin is always "9999".

## Model

| member | source | states |
|---|---|---|
| Records.OverridePoints | src/pages/ReviewWorkbook.tsx:49-51 | The lookup finds nothing exactly when no override is recorded for the (kid, workbook) pair. A found value is the points of an override recorded for that pair. |
| JsText.Trim | src/pages/Manager.tsx:152 | `trim` leaves a string that neither starts nor ends with white space. It is empty exactly when the input is all white space. |
| JsText.LoweredDiffersFromCapitalised | src/pages/Manager.tsx:194-196 | A lowercased string never equals a literal that holds a capital letter. |
| JsText.NatToStringInjective | src/pages/ReviewChores.tsx:47 | Different chore ids give different numerals in the status key. |
| Schedule.AssignedOn | src/pages/ProfilePage.tsx:52-54 | The filter keeps exactly the templates whose assignee for the day is the kid. |
| Schedule.AssignedOnSubMultiset | src/pages/ProfilePage.tsx:52-54 | The filter only drops templates: none is kept more often than the template list has it. |
| Schedule.AssignedOnAppend | src/pages/Calendar.tsx:49-51 | The filter keeps template order: filtering a concatenation concatenates the filtered parts. |
| Schedule.AssignedOnSnoc | src/pages/ProfilePage.tsx:52-54 | One more template at the end is kept at the end exactly when its assignee that day is the kid. |
| Schedule.AssignedSomeSnoc | src/pages/ReviewChores.tsx:165-173 | Some template of the longer list is the kid's that day exactly when one of the shorter list is, or the new one is. |
| Schedule.NothingAssigned | src/pages/ReviewChores.tsx:167-172 | A kid with no chore assigned that day gets an empty list. |
| Schedule.AssignedToOneKid | src/types/chore.ts:9-11 | On a given day a chore is in at most one kid's list. |
| Schedule.UnassignedInNoList | src/pages/ReviewChores.tsx:168-169 | A chore with nobody assigned that day appears in no kid's list. |
| ReviewChores.StatusKeyInjective | src/pages/ReviewChores.tsx:47 | The key `kidId_choreId_date` determines the kid, the chore and the date, for dates without an underscore. |
| ReviewChores.UpsertLookup | src/pages/ReviewChores.tsx:56 | After `put`, the new record is found under its key. Every other key finds what it found before. Keys stay unique and each record stays under its own key. The table's records are the new one plus the old ones under other keys. |
| ReviewChores.UpsertMembers | src/pages/ReviewChores.tsx:56 | `put` keeps keys unique, and a record is in the table afterwards exactly when it is the new one or an old one under another key. |
| ReviewChores.UpsertFinds | src/pages/ReviewChores.tsx:56 | After `put`, the new key finds the new record and every other key finds what it found before. |
| ReviewChores.AbsentKey | src/pages/ReviewChores.tsx:56 | A key no record carries finds nothing. |
| ReviewChores.LookupFinds | src/pages/ReviewChores.tsx:56 | A lookup returns a record of the table with that key. When nothing is found, no record has the key. |
| ReviewChores.ReviewTwiceKeepsLatest | src/pages/ReviewChores.tsx:47-56 | Reviewing the same kid, chore and day twice leaves one record, holding the second verdict. The first record is gone. |
| ReviewChores.ReviewDeltas | src/pages/ReviewChores.tsx:61-101 | Complete adds chore points plus the bonus (5 for "Keira") to both balance and lifetime, and +1 completed. Reject adds only +1 rejected. Not-completed adds +1 not-completed and sets the balance to max(balance − points, 0). Each leaves every other field unchanged. |
| ReviewChores.ReviewKeepsLedgerNonNegative | src/pages/ReviewChores.tsx:69-101 | Each verdict keeps the balance, lifetime points and chore counters at or above zero, for a chore worth at least zero. |
| ReviewChores.FindChore | src/pages/ReviewChores.tsx:132 | `find` returns a template with that id from the list. It returns nothing only when no template has that id. |
| ReviewChores.ResetKid | src/pages/ReviewChores.tsx:147-153 | After the reset's update every counter is at zero or above. Only the balance, lifetime points and the three chore counters change. |
| ReviewChores.ResetKeepsOtherDays | src/pages/ReviewChores.tsx:116-118 | Deleting the keys of today's statuses deletes exactly today's statuses. Every other day's record is kept, in order. |
| ReviewChores.VerdictsMatchTally | src/pages/ReviewChores.tsx:123-145 | A day of completions and rejections adds what the reset's tally counts, plus the bonus of every completion. The tally counts no "not completed". |
| ReviewChores.BonusTotalIsPerCompletion | src/pages/ReviewChores.tsx:123-132 | The bonus a day of verdicts adds is the kid's per-completion bonus times the number of completions, and never negative. |
| ReviewChores.SaveVerdictsAppends | src/pages/ReviewChores.tsx:41-58 | Saving a day of verdicts on distinct chores, into a well-formed table with no status for that day, appends one record per verdict in order. |
| ReviewChores.SavedVerdictsAreTheDay | src/pages/ReviewChores.tsx:116-118 | After that save, today's statuses, which the reset tallies, are exactly the verdicts' records. |
| ReviewChores.ResetUndoesVerdicts | src/pages/ReviewChores.tsx:61-153 | A reset after completions and rejections restores the kid. The exception is the bonus (5 per completion), which stays in the balance and the lifetime points. |
| ReviewChores.ResetRestoresKid | src/pages/ReviewChores.tsx:66-136 | For a kid without the bonus, the reset exactly undoes the day's completions and rejections. |
| ReviewChores.RejectResetCompleteIsComplete | src/pages/ReviewChores.tsx:61-140 | Reject, then reset, then complete ends in the same state as a single completion. |
| ReviewChores.NotCompletedResetAsymmetry | src/pages/ReviewChores.tsx:100-149 | Not-completed then reset leaves the balance at max(balance − points, 0) + 1 and lifetime points at one above their start. The not-completed count is restored. |
| ReviewChores.NotCompletedThenCompletedReset | src/pages/ReviewChores.tsx:56-145 | A chore marked not completed and then completed has only its completion reverted by the reset. The not-completed count stays raised and the points it took stay lost. |
| ReviewChores.ReviewClosesChore | src/pages/ReviewChores.tsx:240 | After a review, the verdict buttons are offered again exactly when the verdict was "not completed". |
| ReviewChores.TallyKidStatuses | src/pages/ReviewChores.tsx:124-145 | The inner loop computes the kid's revert: chore points per completion, −1 per not-completed, and the three counts. Unknown chores and other kids are skipped. |
| ReviewChores.GroupChoresByKid | src/pages/ReviewChores.tsx:165-173 | Each kid (with a non-empty id) assigned some chore today is a key. Its group is exactly its chores for today's weekday, in template order. |
| ReviewChores.GroupStep | src/pages/ReviewChores.tsx:165-173 | One turn of the grouping loop keeps the grouping exact for the templates seen so far. |
| ReviewChores.SaveStatus | src/pages/ReviewChores.tsx:41-58 | The status table becomes the `put` of the record keyed `kidId_choreId_date`. Nothing else changes. |
| ReviewChores.HandleComplete | src/pages/ReviewChores.tsx:61-77 | A missing kid changes nothing. Otherwise the kid gets the completion delta and the completed status is upserted. |
| ReviewChores.HandleReject | src/pages/ReviewChores.tsx:80-91 | A missing kid changes nothing. Otherwise +1 rejected, and the status is upserted with the typed reason or "". |
| ReviewChores.HandleNotCompleted | src/pages/ReviewChores.tsx:94-106 | A missing kid changes nothing. Otherwise the not-completed delta, and the status is upserted. |
| ReviewChores.HandleResetChores | src/pages/ReviewChores.tsx:108-161 | Unconfirmed, nothing changes. Confirmed, today's records are deleted and every kid is reset from its tally of today's records. |
| ReviewChores.RevertKids | src/pages/ReviewChores.tsx:121-151 | Every kid is reverted from its tally of the deleted statuses; nothing else changes. |
| ReviewChores.RevertKidStep | src/pages/ReviewChores.tsx:121-151 | Reverting one more kid keeps the kids already visited reverted and the others as they were. |
| ProfilePage.TodayKeysDistinct | src/pages/ProfilePage.tsx:12-15 | The seven weekday keys are distinct, Sunday first and Saturday last. |
| ProfilePage.TodaysChores | src/pages/ProfilePage.tsx:50-54 | Today's chores are exactly the templates assigned to the kid on today's key. |
| ProfilePage.SubmitWorkbookBlocksDuplicate | src/pages/ProfilePage.tsx:123-126 | Submitting a book the kid already has under way today (not rejected) changes nothing. |
| ProfilePage.SubmitWorkbookCreditsLifetime | src/pages/ProfilePage.tsx:135-153 | An accepted submission adds one pending assignment carrying the override's points, or 0. It adds that amount to lifetime points only. Nothing else changes. |
| ProfilePage.SubmitWorkbookKeepsOneActive | src/pages/ProfilePage.tsx:120-161 | There stays at most one non-rejected assignment per kid, book and day. |
| ProfilePage.AddAssignmentKeepsOneActive | src/pages/ProfilePage.tsx:123-146 | Adding an assignment under a fresh id, when the kid has none live for that book and day, keeps at most one live assignment per kid, book and day. |
| ProfilePage.ResubmitAfterRejection | src/pages/ProfilePage.tsx:123-126 | A rejected assignment does not block a new submission. |
| ProfilePage.WorkbookSubmitOfferedIsSound | src/pages/ProfilePage.tsx:431-460 | Where "Submit" is shown, the handler accepts it. Any assignment of the book today, rejected ones included, hides the button. |
| ProfilePage.SubmitExtraKeepsOneActiveClaim | src/pages/ProfilePage.tsx:164-206 | Claiming keeps at most one non-rejected claim per extra chore and day. |
| ProfilePage.SubmitExtraClaim | src/pages/ProfilePage.tsx:180-198 | An accepted claim is this kid's, pending, for the chore and day. It is partial exactly when another kid's claim was rejected. Nothing else changes. |
| ProfilePage.SubmitExtraBlocked | src/pages/ProfilePage.tsx:173-185 | A live claim by this kid or any other refuses the new claim. |
| ProfilePage.FirstClaim | src/pages/ProfilePage.tsx:477-480 | `find` returns the first claim of the day on the chore by the kid (or by another kid), or nothing when there is none. |
| ProfilePage.FirstClaimPastHead | src/pages/ProfilePage.tsx:477-480 | When the first claim does not match, the first match in the rest is the first match of the whole list. |
| ProfilePage.ExtraDisplayOf | src/pages/ProfilePage.tsx:483-490 | When the kid has a claim, its first claim's status is shown. Otherwise "sibling approved" is shown exactly when the first sibling claim is approved, "sibling submitted" exactly when it is neither approved nor rejected, and "not submitted" in the remaining cases. |
| ProfilePage.CanSubmitExtraMeansNoOwnClaim | src/pages/ProfilePage.tsx:510-512 | Where `canSubmit` holds, the kid has no claim on the chore today, live or rejected. |
| ProfilePage.RejectedOwnClaimLocksList | src/pages/ProfilePage.tsx:510-512 | A kid whose own claim was rejected is not offered "Submit", although the handler would accept a new claim. |
| ProfilePage.OfferedButRefused | src/pages/ProfilePage.tsx:176-185 | If the first sibling claim was rejected but a later sibling claim is live, "Submit" is shown and the handler refuses it. |
| ProfilePage.CheckedExactlyCompleted | src/pages/ProfilePage.tsx:91-95 | With one status per chore, a chore has a flag exactly when it has a status. The flag is set exactly for completed ones. |
| ProfilePage.InitialChecked | src/pages/ProfilePage.tsx:91-95 | The `forEach` builds the checked map of the statuses, the last status of a chore winning. |
| ProfilePage.ToggleFlipsOne | src/pages/ProfilePage.tsx:225-230 | Toggling flips that chore's check and no other. Toggling twice restores every check. |
| ProfilePage.PinForNames | src/pages/ProfilePage.tsx:101-113 | The pin is "1203" exactly for names that lowercase to "keira", "0628" exactly for "eastyn", and "9999" otherwise. |
| ProfilePage.FixPins | src/pages/ProfilePage.tsx:101-118 | Every kid's pin is set from its name. No other field and no kid is added or removed. |
| ProfilePage.PinStep | src/pages/ProfilePage.tsx:104-114 | Setting one more kid's pin keeps the kids already visited pinned and the others as they were. |
| ProfilePage.RequestCashIn | src/pages/ProfilePage.tsx:325-329 | Exactly the reward with that id gets `requestedForCashIn` set. Every other reward and field is unchanged. |
| ProfilePage.RequestCashInKeepsIdsUnique | src/pages/ProfilePage.tsx:325-329 | The reward ids are kept, so distinct ids stay distinct, and at most one record changes. |
| ProfilePage.RequestCashInIdempotent | src/pages/ProfilePage.tsx:328 | Asking twice equals asking once. |
| ReviewWorkbook.VerdictAlwaysWritten | src/pages/ReviewWorkbook.tsx:39-40 | The verdict is written to the assignment whatever follows. No other assignment changes. |
| ReviewWorkbook.OnlyStatusWithoutAward | src/pages/ReviewWorkbook.tsx:39-69 | In three cases only the assignment's status changes, with no kid field touched (not even `rejectedWorkbooks`) and no override added: a rejection; a missing kid or book; an approval with no override and an unusable answer. |
| ReviewWorkbook.ApproveWithOverride | src/pages/ReviewWorkbook.tsx:49-81 | With an override, approval awards the override's points and records them on the assignment. No new override is added. |
| ReviewWorkbook.AwardedKidDeltas | src/pages/ReviewWorkbook.tsx:72-76 | An award adds the points to the balance and the lifetime points and +1 completed workbooks. Nothing else changes. |
| ReviewWorkbook.OverrideReused | src/pages/ReviewWorkbook.tsx:55-65 | Without an override, an approval awarding p appends the override (kid, book, p). Every later approval of that pair awards p whatever is typed. |
| ReviewWorkbook.OverridePointsAfterAppend | src/pages/ReviewWorkbook.tsx:49-65 | A pair with no override finds the first one added for it. |
| ReviewWorkbook.SubmitThenApproveCreditsLifetimeTwice | src/pages/ProfilePage.tsx:149-153 | With an override o, submitting and approving a workbook adds 2·o to lifetime points and o to the balance. |
| ReviewWorkbook.ReviewedNotOfferedAgain | src/pages/ReviewWorkbook.tsx:192 | After either verdict the assignment is no longer offered for review. |
| ReviewExtraChores.ExtraAward | src/pages/ReviewExtraChores.tsx:42-43 | A partial claim earns floor(points/2): 2r ≤ points < 2r + 2. A full claim earns the points. |
| ReviewExtraChores.PartialAwardBounds | src/pages/ReviewExtraChores.tsx:43 | For a chore worth at least zero, the partial award is between 0 and the full award. Two halves never exceed the chore. |
| ReviewExtraChores.ApproveClaimCredits | src/pages/ReviewExtraChores.tsx:34-49 | Approving a known kid and chore adds the award to balance and lifetime and +1 completed chores, for that kid only. The claim is set to approved. Nothing else changes. |
| ReviewExtraChores.OnlyClaimStatusWithoutCredit | src/pages/ReviewExtraChores.tsx:34-41 | A rejection, or a missing kid or chore, writes only the claim's status. |
| ReviewExtraChores.ReviewKeepsOneActiveClaim | src/pages/ReviewExtraChores.tsx:30-54 | Reviewing a claim the screen offers keeps at most one non-rejected claim per chore and day. |
| ReviewExtraChores.RewriteClaimKeepsOneActive | src/pages/ReviewExtraChores.tsx:34-35 | Rewriting a claim with the same chore and day, live only if it was live, keeps at most one live claim per chore and day. |
| ReviewExtraChores.ReviewedClaimNotOfferedAgain | src/pages/ReviewExtraChores.tsx:127 | After either verdict the claim is no longer offered, so a claim is credited at most once. |
| PointStore.CatalogShape | src/components/PointStore.tsx:14-27 | The catalogue has twelve items with ids 1 to 12, each at a positive cost. |
| PointStore.RedeemKeepsIdsUnique | src/db.ts:47 | A redemption added under a fresh auto-increment id keeps the reward ids distinct, and that id then names only the new record. |
| PointStore.RedeemEffect | src/components/PointStore.tsx:52-67 | A redemption always appends one record with the kid's id and the item's name and cost. Only the kid's balance may change: it drops by exactly the cost when it covers it and is untouched otherwise. |
| PointStore.RedeemKeepsBalanceNonNegative | src/components/PointStore.tsx:60-63 | A redemption never takes a non-negative balance below zero and never raises it. |
| PointStore.EnabledRedeemDebits | src/components/PointStore.tsx:105 | When the button is enabled, redeeming always debits the cost. |
| PointStore.HandleRedeem | src/components/PointStore.tsx:49-68 | With no kid loaded there is no effect and no message. Otherwise the redemption is applied, with the "redeemed" or the "not enough points" message. |
| Rewards.MarkRedeemed | src/pages/Rewards.tsx:25-30 | Marking keeps the table's length. |
| Rewards.MarkRedeemedKeepsIdsUnique | src/pages/Rewards.tsx:25-30 | The reward ids are kept, so distinct ids stay distinct, and at most one record changes. |
| Rewards.MarkRedeemedEffect | src/pages/Rewards.tsx:25-30 | Only records with that id change, and only their `redeemed` flag, which becomes true. Marking twice equals marking once. |
| Rewards.PendingView | src/pages/Rewards.tsx:87-93 | The pending view holds exactly the records not redeemed. |
| Rewards.RedeemedOf | src/pages/Rewards.tsx:35-38 | A kid's group holds exactly that kid's redeemed records. |
| Rewards.RedeemedByKid | src/pages/Rewards.tsx:33-39 | Every kid with a redeemed record is a key, and no other. Its group is its redeemed records in table order. |
| Rewards.NoneRedeemed | src/pages/Rewards.tsx:33-39 | A kid with no redeemed record has an empty group. |
| Rewards.ViewsPartition | src/pages/Rewards.tsx:35-93 | Every record is either in the pending view or in its kid's redeemed group, never both. The two views together are as long as the table. |
| Manager.IndexOf | src/pages/Manager.tsx:245 | `indexOf` returns the first index holding the value, or −1 exactly when the value is absent. |
| Manager.NextAssignee | src/pages/Manager.tsx:242-246 | The new assignee is always one of `[null, ...kidIds]`. |
| Manager.CycleFromNobody | src/pages/Manager.tsx:244-246 | From nobody the cycle moves to the first kid. With no kids it stays at nobody. |
| Manager.CycleSuccessor | src/pages/Manager.tsx:244-246 | From a kid the cycle moves to the next kid in the list, and from the last kid back to nobody. |
| Manager.CycleUnknownResets | src/pages/Manager.tsx:242-246 | An assignee that is not among the kids resets to nobody. |
| Manager.CycleVisitsEveryKid | src/pages/Manager.tsx:244-246 | With distinct ids, pressing from nobody visits each kid in list order. One press more than there are kids returns to nobody. |
| Manager.CycleChangesOnlyThatDay | src/pages/Manager.tsx:248-253 | Only that chore's entry for that day changes, to the next assignee. Every other day, chore and table is untouched. |
| Manager.DeletedAssigneeResets | src/pages/Manager.tsx:242-246 | A deleted kid still named for a day is replaced by nobody at the next press. |
| Manager.AddChoreEffect | src/pages/Manager.tsx:151-165 | A chore is added exactly when the trimmed title is not empty, points > 0 and the id is free. It has the trimmed title, the points and an empty weekly schedule (nobody on any day). Nothing else changes. |
| Manager.AddExtraChoreEffect | src/pages/Manager.tsx:172-185 | An extra chore is added under the same validation, with the trimmed title and the points. Nothing else changes. |
| Manager.AddWorkbookEffect | src/pages/Manager.tsx:222-235 | A workbook is added exactly when the trimmed title is not empty and the id is free. Its points may be zero or negative. Nothing else changes. |
| Manager.KidId | src/pages/Manager.tsx:203 | A new kid's id starts with `kid_` followed by the stamp. |
| Manager.KidIdInjective | src/pages/Manager.tsx:203 | Different stamps give different kid ids. |
| Manager.NewKidPinIs9999 | src/pages/Manager.tsx:193-200 | The set-pin-by-name branch compares the lowercased name with 'Keira' and 'Eastyn', so every new kid gets "9999". |
| Manager.AddKidEffect | src/pages/Manager.tsx:189-220 | A kid is added exactly when the trimmed name is not empty and the id is free. The new kid has the trimmed name, the avatar, pin "9999" and all points fields and counters at zero. Nothing else changes. |
| Manager.UpdateKidEffect | src/pages/Manager.tsx:68-82 | With no editing id or a blank name nothing changes. Otherwise only that kid's name (trimmed), avatar and pin (trimmed) change. |
| Manager.UpdateChoreEffect | src/pages/Manager.tsx:91-103 | An edit stores the title as typed (even blank) and any points. The schedule and other chores are kept. |
| Manager.UpdateWorkbookEffect | src/pages/Manager.tsx:110-118 | A blank title or a falsy id (none or 0) changes nothing. Otherwise only the title (trimmed) and points change. |
| Manager.UpdateExtraChoreEffect | src/pages/Manager.tsx:133-141 | A blank title or a falsy id changes nothing. Otherwise only the title (trimmed) and points change. |
| Manager.DeleteKidRemovesOnlyThatKid | src/pages/Manager.tsx:450-455 | Without confirmation nothing changes. With it, exactly that kid leaves the kid table; every other kid and every other table stays as it was. |
| Manager.DeleteChoreRemovesOnlyThatChore | src/pages/Manager.tsx:167-170 | Without confirmation nothing changes. With it, exactly that chore template is removed; its statuses and every other table stay. |
| Manager.DeleteWorkbookRemovesOnlyThatWorkbook | src/pages/Manager.tsx:120-125 | Without confirmation nothing changes. With it, exactly that workbook is removed; its assignments and every other table stay. |
| Manager.DeleteExtraChoreRemovesOnlyThatExtraChore | src/pages/Manager.tsx:143-148 | Without confirmation nothing changes. With it, exactly that extra chore is removed; its claims and every other table stay. |
| Home.ResetEffect | src/pages/Home.tsx:18-40 | Redemptions and chore statuses are emptied. Every kid keeps its id, name, avatar and pin and has every points field and counter at zero. No kid is added or removed and the other tables are untouched. The empty redemption table trivially has distinct ids. Resetting again changes nothing. |
| Home.ResetDatabase | src/pages/Home.tsx:18-40 | The loop over the kids zeroes each one. The new store is the reset of the old one. |
| StoreManagement.ApplyEditOnlyThatField | src/components/StoreManagement.tsx:24 | An edit sets the named field and leaves every other field, the id included, unchanged. |
| StoreManagement.ChangeItem | src/components/StoreManagement.tsx:21-27 | A change keeps the list's length. |
| StoreManagement.ChangeItemEffect | src/components/StoreManagement.tsx:21-27 | A change keeps the list's order and ids. Only items with that id are edited. Making the same change twice equals making it once. |
| StoreManagement.DeleteItem | src/components/StoreManagement.tsx:34 | A delete never lengthens the list. |
| StoreManagement.DeleteItemMembers | src/components/StoreManagement.tsx:34 | The list after a delete holds exactly the items with another id. |
| StoreManagement.DeleteItemAppend | src/components/StoreManagement.tsx:34 | Deleting keeps the remaining items in order. |
| StoreManagement.DeleteAbsentItem | src/components/StoreManagement.tsx:34 | A list without that id is left unchanged. |
| StoreManagement.DeleteUndoesAdd | src/components/StoreManagement.tsx:34-48 | Deleting a just-added item with a fresh id gives back the list as it was. |
| StoreManagement.PutAll | src/components/StoreManagement.tsx:53 | Saving never removes a stored id. |
| StoreManagement.PutAllKeys | src/components/StoreManagement.tsx:53 | After saving, the stored ids are the old ones plus the list's. |
| StoreManagement.PutAllStores | src/components/StoreManagement.tsx:53 | After saving, under a listed id the table holds that id's last item in the list. |
| StoreManagement.PutAllKeepsUnlisted | src/components/StoreManagement.tsx:53 | After saving, every id no listed item has keeps its stored record. |
| StoreManagement.ToggleExpanded | src/components/StoreManagement.tsx:77 | Clicking a header expands it exactly when it was not the expanded item. |
| StoreManagement.StoreEditor.HandleChange | src/components/StoreManagement.tsx:21-27 | The shown list becomes the change of the old list. The expanded id and the table are kept. |
| StoreManagement.StoreEditor.HandleDelete | src/components/StoreManagement.tsx:29-35 | Unconfirmed, nothing changes. Confirmed, the id leaves the table and the list. |
| StoreManagement.StoreEditor.HandleAdd | src/components/StoreManagement.tsx:37-50 | One blank item with cost 0 is appended, and the expanded id becomes its id. |
| Calendar.DaysShape | src/pages/Calendar.tsx:7 | There are seven distinct day columns, Sunday first and Saturday last. |
| Calendar.CellContents | src/pages/Calendar.tsx:48-51 | A cell lists exactly the chores whose assignee that day is the row's kid, in template order. |
| Calendar.OneKidPerChoreAndDay | src/pages/Calendar.tsx:49-51 | In one day column, two rows that both show a chore belong to the same kid id. |
| Calendar.UnassignedInNoCell | src/pages/Calendar.tsx:49-51 | A chore with nobody assigned that day is in no cell of that column. |
| ChoreDatabase.ChoreDb.constructor | src/db.ts:26-50 | A fresh store has every table empty. |
| JsText.TrimStart | src/pages/Manager.tsx:152 | It removes exactly the leading white space: the result is a suffix, the removed part is all white space, and the result does not start with white space. |
| JsText.TrimEnd | src/pages/Manager.tsx:152 | It removes exactly the trailing white space: the result is a prefix, the removed part is all white space, and the result does not end with white space. |
| JsText.TrimEmptyOnlyWhenAllSpace | src/pages/Manager.tsx:152 | Trimming both ends leaves nothing exactly when the string is all white space. |
| JsText.TrimIdempotent | src/pages/Manager.tsx:154 | Trimming a trimmed title changes nothing. |
| JsText.ToLower | src/pages/Manager.tsx:194 | It keeps the length and lowers each character, leaving no capital letter. |
| JsText.DigitChar | src/pages/ReviewChores.tsx:47 | A decimal digit becomes a character from '0' to '9'. |
| JsText.NatToString | src/pages/ReviewChores.tsx:47 | A number's numeral is made of digits only, and is one digit long exactly when the number is below ten. |
| JsText.SplitAtLastOfJoin | src/pages/ReviewChores.tsx:47 | Splitting a joined key at its last separator gives back the two parts, when the tail holds no separator. |
| ReviewChores.UpsertAfterPrefix | src/pages/ReviewChores.tsx:56 | A `put` leaves alone a prefix in which no record has the new key. |
| ReviewChores.OnDay | src/pages/ReviewChores.tsx:116 | The day's statuses are exactly the records with that date. |
| ReviewChores.OtherDays | src/pages/ReviewChores.tsx:116-118 | The statuses kept are exactly the records with another date. |
| ReviewChores.WithoutIds | src/pages/ReviewChores.tsx:117-118 | `bulkDelete` keeps exactly the records whose key is not deleted. |
| ReviewChores.FilterByKeysIsFilterByDate | src/pages/ReviewChores.tsx:116-118 | When a key is among the deleted keys exactly when the record has today's date, deleting those keys keeps exactly the other days' records, in order. |
| ReviewChores.VerdictRecords | src/pages/ReviewChores.tsx:47-56 | A day of verdicts writes one status record per verdict. |
| ProfilePage.HandleSubmitWorkbook | src/pages/ProfilePage.tsx:120-161 | The store becomes the submission's result: refused on a live duplicate, and otherwise one pending assignment and its lifetime credit. |
| ProfilePage.HandleSubmitExtraChore | src/pages/ProfilePage.tsx:164-206 | The store becomes the claim's result: refused while a live claim exists, otherwise a pending claim, partial after a sibling's rejection. |
| ProfilePage.HandleCashIn | src/pages/ProfilePage.tsx:325-329 | Unconfirmed, nothing changes. Confirmed, only the reward's cash-in flag is set. |
| ReviewWorkbook.UpdateWorkbookStatus | src/pages/ReviewWorkbook.tsx:35-86 | The store becomes the review's result: the verdict is written, and an approval awards the override's points or the typed points. |
| ReviewExtraChores.UpdateClaimStatus | src/pages/ReviewExtraChores.tsx:30-54 | The store becomes the review's result: the verdict is written, and an approval credits the full or the halved points. |
| Rewards.MarkAsRedeemed | src/pages/Rewards.tsx:25-30 | Only the rewards with that id are marked redeemed. Every other table is unchanged. |
| Rewards.RedeemedView | src/pages/Rewards.tsx:35 | The redeemed records are exactly those marked redeemed. |
| Manager.Order | src/pages/Manager.tsx:244 | The cycle order is nobody first, then every kid id in list order. |
| Manager.IndexOfFirst | src/pages/Manager.tsx:245 | A value's first occurrence is what `indexOf` returns. |
| Manager.WrapIndex | src/pages/Manager.tsx:245-246 | For an index from 0 up to the length, `% length` sends the index one past the end to 0 and leaves every other index as it is. |
| Manager.CycleReaches | src/pages/Manager.tsx:244-246 | With distinct, non-empty ids, n presses from nobody reach the n-th entry of the order. |
| Manager.CycledOnce | src/pages/Manager.tsx:236-257 | One more press moves the assignee to the next entry of the order. |
| Manager.CycleStepFrom | src/pages/Manager.tsx:244-246 | With distinct, non-empty ids, the entry after position m of the order is position m+1. |
| Manager.CycleRound | src/pages/Manager.tsx:244-246 | With distinct, non-empty ids, one press per entry of the order comes back to nobody. |
| Manager.HandleCycleAssignment | src/pages/Manager.tsx:238-255 | Only that chore's entry for that day becomes the next assignee. |
| Manager.HandleAddChore | src/pages/Manager.tsx:151-165 | The store becomes the validated addition of the chore, or is left unchanged. |
| Manager.HandleExtraAddChore | src/pages/Manager.tsx:172-185 | The store becomes the validated addition of the extra chore, or is left unchanged. |
| Manager.HandleAddWorkbook | src/pages/Manager.tsx:222-235 | The store becomes the addition of the workbook, or is left unchanged on a blank title or a used id. |
| Manager.HandleAddKid | src/pages/Manager.tsx:189-220 | The store becomes the addition of the zeroed kid with pin "9999", or is left unchanged. |
| Manager.HandleUpdateKid | src/pages/Manager.tsx:68-82 | The store becomes the kid's edit, or is left unchanged with no editing id or a blank name. |
| Manager.HandleUpdateChore | src/pages/Manager.tsx:91-103 | The store becomes the chore's edit. |
| Manager.UpdateWorkbook | src/pages/Manager.tsx:110-118 | The store becomes the workbook's edit, or is left unchanged on a blank title or a falsy id. |
| Manager.UpdateExtraChore | src/pages/Manager.tsx:133-141 | The store becomes the extra chore's edit, or is left unchanged on a blank title or a falsy id. |
| Manager.DeleteKid | src/pages/Manager.tsx:450-455 | With confirmation exactly that kid leaves the table; otherwise nothing changes. |
| Manager.HandleDeleteChore | src/pages/Manager.tsx:167-170 | With confirmation exactly that chore leaves the table; otherwise nothing changes. |
| Manager.DeleteWorkbook | src/pages/Manager.tsx:120-125 | With confirmation exactly that workbook leaves the table; otherwise nothing changes. |
| Manager.DeleteExtraChore | src/pages/Manager.tsx:143-148 | With confirmation exactly that extra chore leaves the table; otherwise nothing changes. |
| StoreManagement.StoreEditor.constructor | src/components/StoreManagement.tsx:10-11 | The editor starts with an empty list, nothing expanded, over the given table. |
| StoreManagement.StoreEditor.HandleSave | src/components/StoreManagement.tsx:52-55 | Every listed item is put into the table. The list and the expanded id are kept. |
| StoreManagement.StoreEditor.ToggleItem | src/components/StoreManagement.tsx:77 | The expanded id becomes the toggle of the old one. Nothing else changes. |
| Calendar.KidRow | src/pages/Calendar.tsx:48-51 | A kid's row has one cell per day column. |
| Calendar.Grid | src/pages/Calendar.tsx:39 | The grid has one row per kid. |

## Left out

**Not modelled at all**
- The screens' rendering, routing, styling, alerts and logs carry no ledger behaviour, so they are not modelled. The daily page reload is also not modelled. As the rendering is dropped, the button conditions above are stated as predicates.
- The PIN gates use plain string equality and carry no ledger behaviour.
- Asynchronous interleaving (lost updates between awaits) is not modelled. Every handler is one atomic, sequential transition.
- React's cached copies of tables are not modelled. The model reads the store itself. Three exceptions take the screen's list as a parameter: the chore list for the reset's tally, the kid list for cycling, and the query results for the list views.
- Loading the editor's list from the reward-item table is not modelled.

**Simplified**
- Numbers are unbounded integers. NaN, fractions and 64-bit float rounding are not modelled.
- The text a parent types is taken already converted:
  - `parseInt` of the answer comes in as `Option<int>`;
  - `Number(value)` of the cost input comes in as an integer.
- `toLowerCase` lowers only ASCII letters.
- `trim` removes the common white-space characters, not every Unicode space separator.
- An absent optional counter or flag is stored as 0 or false, which is how every handler reads it.

**Not representable**
- Records lie under their own ids. An assignment or claim passed to a review handler is the stored one.
- A workbook assignment with no status cannot be represented. Review is therefore offered for 'pending' only.
- The override table's auto-increment ids are never read, so they are not modelled. Overrides are kept in insertion order.

**Source quirks**
- The reward-item table the catalogue editor uses is not declared in src/db.ts. The editor class owns it.
- Two behaviours that look unintended are modelled as the code has them:
  - a redemption with too few points is still recorded, without a debit (src/components/PointStore.tsx:52-67);
  - the pending-rewards view filters on `redeemed` only (src/pages/Rewards.tsx:92-93).

**Narrower contracts**
- ReviewExtraChores.ReviewKeepsOneActiveClaim: it holds only for a claim the screen offers for review (pending or submitted). Approving a claim that was already rejected could bring it back beside a sibling's later claim.
- Manager.CycleUnknownResets: an empty-string assignee reads as null and moves on to the first kid, so the lemma excludes it.
- ReviewChores.StatusKeyInjective: it assumes dates with no underscore, as `toDateString` produces.
