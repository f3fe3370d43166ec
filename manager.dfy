/** The parent's management screen (src/pages/Manager.tsx): adding, editing and deleting
    kids, chores, extra chores and workbooks, and cycling a chore's assignee for one
    weekday through "nobody" and then each kid in turn. The clock stamp a new record's id
    is made from and each answer to a confirmation are inputs. */
module Manager {
  import opened Records
  import opened JsText
  import opened Schedule
  import opened ChoreDatabase
  import opened ProfilePage

  // ---------------------------------------------------------------------------
  // Cycling a weekday's assignee

  predicate Distinct(s: seq<string>) {
    forall i, j :: 0 <= i < j < |s| ==> s[i] != s[j]
  }

  /** `[null, ...kidIds]`. */
  function Order(kidIds: seq<string>): (r: seq<Option<string>>)
    ensures |r| == |kidIds| + 1 && r[0] == None
    ensures forall i :: 0 <= i < |kidIds| ==> r[i + 1] == Some(kidIds[i])
  {
    [None] + seq(|kidIds|, i requires 0 <= i < |kidIds| => Some(kidIds[i]))
  }

  /** `order.indexOf(x)`: the first index holding `x`, or -1 when there is none. */
  function IndexOf(order: seq<Option<string>>, x: Option<string>): (r: int)
    ensures -1 <= r < |order|
    ensures r == -1 <==> x !in order
    ensures r >= 0 ==> order[r] == x && x !in order[..r]
  {
    if order == [] then -1
    else if order[0] == x then 0
    else
      var j := IndexOf(order[1..], x);
      if j == -1 then -1
      else
        assert order[..j + 1] == [order[0]] + order[1..][..j];
        j + 1
  }

  /** An index that holds `x` with no earlier occurrence is the one `indexOf` returns. */
  lemma {:induction false} IndexOfFirst(order: seq<Option<string>>, x: Option<string>, k: nat)
    requires k < |order| && order[k] == x && x !in order[..k]
    ensures IndexOf(order, x) == k
  {
    if k > 0 {
      assert order[0] in order[..k];
      assert order[1..][..k - 1] == order[1..k];
      assert forall y :: y in order[1..k] ==> y in order[..k];
      IndexOfFirst(order[1..], x, k - 1);
    }
  }

  /** The assignee the cycle button stores: `current` is the day's stored value with an
      empty string read as null (`|| null`), and the result is the element after it in
      `[null, ...kidIds]`, wrapping round at the end. The source takes the element at
      `(indexOf + 1) % length`; the wrap is written out here as the branch `WrapIndex`
      shows it equal to. */
  function NextAssignee(current: Option<string>, kidIds: seq<string>): (r: Option<string>)
    ensures r in Order(kidIds)
  {
    var cur := if current == Some("") then None else current;
    var order := Order(kidIds);
    var next := IndexOf(order, cur) + 1;
    if next == |order| then order[0] else order[next]
  }

  /** `(index + 1) % order.length`, for an index of the order or -1, picks the element
      `NextAssignee` picks: the wrap only sends the index one past the end back to 0. */
  lemma WrapIndex<T>(s: seq<T>, i: int)
    requires 0 <= i <= |s| && 0 < |s|
    ensures s[i % |s|] == if i == |s| then s[0] else s[i]
  {
    if i == |s| {
      assert i % |s| == 0;
    } else {
      assert i % |s| == i;
    }
  }

  /** From nobody the cycle moves to the first kid, or stays at nobody when there are no kids. */
  lemma CycleFromNobody(kidIds: seq<string>)
    ensures NextAssignee(None, kidIds) == if kidIds == [] then None else Some(kidIds[0])
  {
    IndexOfFirst(Order(kidIds), None, 0);
  }

  /** From a kid the cycle moves to the next kid of the list, and from the last kid back
      to nobody. */
  lemma CycleSuccessor(kidIds: seq<string>, i: nat)
    requires i < |kidIds| && kidIds[i] != "" && kidIds[i] !in kidIds[..i]
    ensures NextAssignee(Some(kidIds[i]), kidIds) == if i + 1 < |kidIds| then Some(kidIds[i + 1]) else None
  {
    var order := Order(kidIds);
    var prefix := order[..i + 1];
    forall j | 0 <= j < i + 1 ensures prefix[j] != Some(kidIds[i]) {
      if j > 0 {
        assert kidIds[j - 1] in kidIds[..i];
      }
    }
    IndexOfFirst(order, Some(kidIds[i]), i + 1);
  }

  /** An assignee that is not among the kids (a deleted kid, say) is reset to nobody. (An
      empty string reads as nobody and moves on to the first kid.) */
  lemma CycleUnknownResets(kidIds: seq<string>, k: string)
    requires k !in kidIds && k != ""
    ensures NextAssignee(Some(k), kidIds) == None
  {
    var order := Order(kidIds);
    forall j | 0 <= j < |order| ensures order[j] != Some(k) {
      if j > 0 {
        assert kidIds[j - 1] in kidIds;
      }
    }
    assert IndexOf(order, Some(k)) == -1;
  }

  /** The assignee after `n` presses of the cycle button. */
  function Cycled(current: Option<string>, kidIds: seq<string>, n: nat): Option<string> {
    if n == 0 then current else NextAssignee(Cycled(current, kidIds, n - 1), kidIds)
  }

  lemma CycledOnce(current: Option<string>, kidIds: seq<string>, n: nat)
    ensures Cycled(current, kidIds, n + 1) == NextAssignee(Cycled(current, kidIds, n), kidIds)
  {
  }

  /** With distinct, non-empty kid ids, pressing the button from nobody visits the kids in
      list order, and one press more than there are kids brings the day back to nobody. */
  lemma CycleVisitsEveryKid(kidIds: seq<string>, n: nat)
    requires Distinct(kidIds) && "" !in kidIds
    requires n <= |kidIds|
    ensures Cycled(None, kidIds, n) == Order(kidIds)[n]
    ensures Cycled(None, kidIds, |kidIds| + 1) == None
  {
    CycleReaches(kidIds, n);
    CycleRound(kidIds);
  }

  lemma {:induction false} CycleRound(kidIds: seq<string>)
    requires Distinct(kidIds) && "" !in kidIds
    ensures Cycled(None, kidIds, |kidIds| + 1) == None
  {
    if kidIds == [] {
      CycleFromNobody(kidIds);
    } else {
      CycleReaches(kidIds, |kidIds|);
      CycledOnce(None, kidIds, |kidIds|);
      var i := |kidIds| - 1;
      assert kidIds[i] !in kidIds[..i];
      CycleSuccessor(kidIds, i);
    }
  }

  /** With distinct, non-empty kid ids, one press moves from any entry of the cycle order
      but the last to the entry after it. */
  lemma CycleStepFrom(kidIds: seq<string>, m: nat)
    requires Distinct(kidIds) && "" !in kidIds
    requires m < |kidIds|
    ensures NextAssignee(Order(kidIds)[m], kidIds) == Order(kidIds)[m + 1]
  {
    var order := Order(kidIds);
    if m == 0 {
      CycleFromNobody(kidIds);
    } else {
      assert order[m] == Some(kidIds[m - 1]);
      assert kidIds[m - 1] !in kidIds[..m - 1];
      CycleSuccessor(kidIds, m - 1);
    }
  }

  lemma {:induction false} CycleReaches(kidIds: seq<string>, n: nat)
    requires Distinct(kidIds) && "" !in kidIds
    requires n <= |kidIds|
    ensures Cycled(None, kidIds, n) == Order(kidIds)[n]
  {
    if n > 0 {
      var m := n - 1;
      CycleReaches(kidIds, m);
      CycledOnce(None, kidIds, m);
      CycleStepFrom(kidIds, m);
      assert m + 1 == n;
    }
  }

  /** `handleCycleAssignment(choreId, dayKey)` on the tables. */
  function CycleTables(t: Tables, choreId: nat, dayKey: string, kidIds: seq<string>): Tables {
    if choreId !in t.choreTemplates then t
    else
      var c := t.choreTemplates[choreId];
      var next := NextAssignee(AssigneeOn(c, dayKey), kidIds);
      t.(choreTemplates := t.choreTemplates[choreId := c.(weeklyAssignment := c.weeklyAssignment[dayKey := next])])
  }

  /** Cycling writes the next assignee for that day of that chore and nothing else: every
      other weekday, every other field of the chore, every other chore and every other
      table stay as they were. */
  lemma CycleChangesOnlyThatDay(t: Tables, choreId: nat, dayKey: string, kidIds: seq<string>)
    requires choreId in t.choreTemplates
    ensures var u := CycleTables(t, choreId, dayKey, kidIds);
      var c := t.choreTemplates[choreId];
      u.choreTemplates.Keys == t.choreTemplates.Keys
      && AssigneeOn(u.choreTemplates[choreId], dayKey) == NextAssignee(AssigneeOn(c, dayKey), kidIds)
      && (forall d :: d != dayKey ==> AssigneeOn(u.choreTemplates[choreId], d) == AssigneeOn(c, d))
      && u.choreTemplates[choreId].(weeklyAssignment := c.weeklyAssignment) == c
      && (forall id :: id in t.choreTemplates && id != choreId ==> u.choreTemplates[id] == t.choreTemplates[id])
      && u.(choreTemplates := t.choreTemplates) == t
  {
  }

  /** A deleted kid still named for a day is replaced by nobody at the next press. */
  lemma DeletedAssigneeResets(t: Tables, kidId: string, choreId: nat, dayKey: string, kidIds: seq<string>)
    requires choreId in t.choreTemplates && AssigneeOn(t.choreTemplates[choreId], dayKey) == Some(kidId)
    requires kidId != ""
    requires forall k :: k in kidIds ==> k in DeleteKidTables(t, kidId, true).kidProfiles
    ensures AssigneeOn(CycleTables(t, choreId, dayKey, kidIds).choreTemplates[choreId], dayKey) == None
  {
    CycleUnknownResets(kidIds, kidId);
  }

  method HandleCycleAssignment(db: ChoreDb, choreId: nat, dayKey: string, kidIds: seq<string>)
    modifies db
    ensures db.Contents() == CycleTables(old(db.Contents()), choreId, dayKey, kidIds)
  {
    if choreId !in db.choreTemplates { return; }
    var chore := db.choreTemplates[choreId];
    var next := NextAssignee(AssigneeOn(chore, dayKey), kidIds);
    var updated := chore.weeklyAssignment[dayKey := next];
    db.choreTemplates := db.choreTemplates[choreId := chore.(weeklyAssignment := updated)];
  }

  // ---------------------------------------------------------------------------
  // Adding records

  /** `Number` id truthiness: null and 0 are falsy. */
  predicate IdTruthy(id: Option<nat>) {
    id.Some? && id.value != 0
  }

  /** `handleAddChore`: refused for a blank title or points not above zero; `add` fails on
      an id already in use. */
  function AddChoreTables(t: Tables, title: string, points: int, newId: nat): Tables {
    AddTrimmedChore(t, Trim(title), points, newId)
  }

  /** `handleAddChore` once the title is trimmed. */
  function AddTrimmedChore(t: Tables, title: string, points: int, newId: nat): Tables {
    if title == "" || points <= 0 || newId in t.choreTemplates then t
    else t.(choreTemplates := t.choreTemplates[newId := ChoreTemplate(newId, title, points, map[])])
  }

  lemma AddTrimmedChoreEffect(t: Tables, title: string, points: int, newId: nat)
    ensures var u := AddTrimmedChore(t, title, points, newId);
      (newId in u.choreTemplates && newId !in t.choreTemplates <==> title != "" && points > 0 && newId !in t.choreTemplates)
      && u.(choreTemplates := t.choreTemplates) == t
      && (forall id :: id in t.choreTemplates ==> id in u.choreTemplates && u.choreTemplates[id] == t.choreTemplates[id])
      && (newId !in t.choreTemplates && newId in u.choreTemplates ==>
            u.choreTemplates.Keys == t.choreTemplates.Keys + {newId}
            && u.choreTemplates[newId] == ChoreTemplate(newId, title, points, map[]))
      && (title == "" || points <= 0 ==> u == t)
  {
  }

  /** A chore is added exactly when its trimmed title is not empty, its points are above
      zero and its id is free; the new chore has the trimmed title, the points, and an
      empty weekly schedule (nobody on any day); no other chore and no other table
      changes. */
  lemma AddChoreEffect(t: Tables, title: string, points: int, newId: nat)
    ensures var u := AddChoreTables(t, title, points, newId);
      (newId in u.choreTemplates && newId !in t.choreTemplates <==> !AllSpace(title) && points > 0 && newId !in t.choreTemplates)
      && u.(choreTemplates := t.choreTemplates) == t
      && (forall id :: id in t.choreTemplates ==> id in u.choreTemplates && u.choreTemplates[id] == t.choreTemplates[id])
      && (newId !in t.choreTemplates && newId in u.choreTemplates ==>
            u.choreTemplates.Keys == t.choreTemplates.Keys + {newId}
            && u.choreTemplates[newId] == ChoreTemplate(newId, Trim(title), points, map[]))
      && (AllSpace(title) || points <= 0 ==> u == t)
  {
    AddTrimmedChoreEffect(t, Trim(title), points, newId);
  }

  method HandleAddChore(db: ChoreDb, title: string, points: int, newId: nat)
    modifies db
    ensures db.Contents() == AddChoreTables(old(db.Contents()), title, points, newId)
  {
    var trimmed := Trim(title);
    if trimmed == "" || points <= 0 { return; }
    if newId in db.choreTemplates { return; }
    db.choreTemplates := db.choreTemplates[newId := ChoreTemplate(newId, trimmed, points, map[])];
  }

  /** `handleExtraAddChore`: the same validation as for a daily chore. */
  function AddExtraChoreTables(t: Tables, title: string, points: int, newId: nat): Tables {
    AddTrimmedExtraChore(t, Trim(title), points, newId)
  }

  /** `handleExtraAddChore` once the title is trimmed. */
  function AddTrimmedExtraChore(t: Tables, title: string, points: int, newId: nat): Tables {
    if title == "" || points <= 0 || newId in t.extraChoreTemplates then t
    else t.(extraChoreTemplates := t.extraChoreTemplates[newId := ExtraChoreTemplate(newId, title, points)])
  }

  lemma AddTrimmedExtraChoreEffect(t: Tables, title: string, points: int, newId: nat)
    ensures var u := AddTrimmedExtraChore(t, title, points, newId);
      (newId in u.extraChoreTemplates && newId !in t.extraChoreTemplates <==> title != "" && points > 0 && newId !in t.extraChoreTemplates)
      && u.(extraChoreTemplates := t.extraChoreTemplates) == t
      && (forall id :: id in t.extraChoreTemplates ==> id in u.extraChoreTemplates && u.extraChoreTemplates[id] == t.extraChoreTemplates[id])
      && (newId !in t.extraChoreTemplates && newId in u.extraChoreTemplates ==>
            u.extraChoreTemplates.Keys == t.extraChoreTemplates.Keys + {newId}
            && u.extraChoreTemplates[newId] == ExtraChoreTemplate(newId, title, points))
      && (title == "" || points <= 0 ==> u == t)
  {
  }

  /** An extra chore is added exactly when its trimmed title is not empty, its points are
      above zero and its id is free, with the trimmed title and the points; nothing else
      changes. */
  lemma AddExtraChoreEffect(t: Tables, title: string, points: int, newId: nat)
    ensures var u := AddExtraChoreTables(t, title, points, newId);
      (newId in u.extraChoreTemplates && newId !in t.extraChoreTemplates <==> !AllSpace(title) && points > 0 && newId !in t.extraChoreTemplates)
      && u.(extraChoreTemplates := t.extraChoreTemplates) == t
      && (forall id :: id in t.extraChoreTemplates ==> id in u.extraChoreTemplates && u.extraChoreTemplates[id] == t.extraChoreTemplates[id])
      && (newId !in t.extraChoreTemplates && newId in u.extraChoreTemplates ==>
            u.extraChoreTemplates.Keys == t.extraChoreTemplates.Keys + {newId}
            && u.extraChoreTemplates[newId] == ExtraChoreTemplate(newId, Trim(title), points))
      && (AllSpace(title) || points <= 0 ==> u == t)
  {
    AddTrimmedExtraChoreEffect(t, Trim(title), points, newId);
  }

  method HandleExtraAddChore(db: ChoreDb, title: string, points: int, newId: nat)
    modifies db
    ensures db.Contents() == AddExtraChoreTables(old(db.Contents()), title, points, newId)
  {
    var trimmed := Trim(title);
    if trimmed == "" || points <= 0 { return; }
    if newId in db.extraChoreTemplates { return; }
    db.extraChoreTemplates := db.extraChoreTemplates[newId := ExtraChoreTemplate(newId, trimmed, points)];
  }

  /** `handleAddWorkbook`: only a blank title is refused; the points are stored as typed. */
  function AddWorkbookTables(t: Tables, title: string, points: int, newId: nat): Tables {
    AddTrimmedWorkbook(t, Trim(title), points, newId)
  }

  /** `handleAddWorkbook` once the title is trimmed. */
  function AddTrimmedWorkbook(t: Tables, title: string, points: int, newId: nat): Tables {
    if title == "" || newId in t.woodBooks then t
    else t.(woodBooks := t.woodBooks[newId := WoodBook(newId, title, Some(points))])
  }

  lemma AddTrimmedWorkbookEffect(t: Tables, title: string, points: int, newId: nat)
    ensures var u := AddTrimmedWorkbook(t, title, points, newId);
      (newId in u.woodBooks && newId !in t.woodBooks <==> title != "" && newId !in t.woodBooks)
      && u.(woodBooks := t.woodBooks) == t
      && (forall id :: id in t.woodBooks ==> id in u.woodBooks && u.woodBooks[id] == t.woodBooks[id])
      && (newId !in t.woodBooks && newId in u.woodBooks ==>
            u.woodBooks.Keys == t.woodBooks.Keys + {newId}
            && u.woodBooks[newId] == WoodBook(newId, title, Some(points)))
  {
  }

  /** A workbook is added exactly when its trimmed title is not empty and its id is free,
      whatever its points (zero and negative included); nothing else changes. */
  lemma AddWorkbookEffect(t: Tables, title: string, points: int, newId: nat)
    ensures var u := AddWorkbookTables(t, title, points, newId);
      (newId in u.woodBooks && newId !in t.woodBooks <==> !AllSpace(title) && newId !in t.woodBooks)
      && u.(woodBooks := t.woodBooks) == t
      && (forall id :: id in t.woodBooks ==> id in u.woodBooks && u.woodBooks[id] == t.woodBooks[id])
      && (newId !in t.woodBooks && newId in u.woodBooks ==>
            u.woodBooks.Keys == t.woodBooks.Keys + {newId}
            && u.woodBooks[newId] == WoodBook(newId, Trim(title), Some(points)))
  {
    AddTrimmedWorkbookEffect(t, Trim(title), points, newId);
  }

  method HandleAddWorkbook(db: ChoreDb, title: string, points: int, newId: nat)
    modifies db
    ensures db.Contents() == AddWorkbookTables(old(db.Contents()), title, points, newId)
  {
    var trimmed := Trim(title);
    if trimmed == "" { return; }
    if newId in db.woodBooks { return; }
    db.woodBooks := db.woodBooks[newId := WoodBook(newId, trimmed, Some(points))];
  }

  /** `kid_${stamp}`. */
  function KidId(stamp: nat): (r: string)
    ensures |r| > 4 && r[..4] == "kid_"
  {
    "kid_" + NatToString(stamp)
  }

  /** Different stamps give different kid ids. */
  lemma KidIdInjective(a: nat, b: nat)
    requires KidId(a) == KidId(b)
    ensures a == b
  {
    assert KidId(a)[4..] == NatToString(a);
    assert KidId(b)[4..] == NatToString(b);
    NatToStringInjective(a, b);
  }

  /** The pin chosen for a new kid: the lowered name compared with 'Keira' and 'Eastyn'. */
  function NewKidPin(name: string): string {
    if ToLower(name) == "Keira" then "1203"
    else if ToLower(name) == "Eastyn" then "1428"
    else "9999"
  }

  /** A lowered name never equals a capitalised literal, so every new kid gets "9999". */
  lemma NewKidPinIs9999(name: string)
    ensures NewKidPin(name) == "9999"
  {
    LoweredDiffersFromCapitalised(name, "Keira", 0);
    LoweredDiffersFromCapitalised(name, "Eastyn", 0);
  }

  /** The new kid record, for a name already trimmed. */
  function NewKid(id: string, name: string, avatar: string): Kid {
    Kid(id, name, avatar, NewKidPin(name), 0, 0, 0, 0, 0, 0, 0)
  }

  /** `handleAddKid`: refused for a blank name. */
  function AddKidTables(t: Tables, name: string, avatar: string, stamp: nat): Tables {
    AddTrimmedKid(t, Trim(name), avatar, stamp)
  }

  /** `handleAddKid` once the name is trimmed. */
  function AddTrimmedKid(t: Tables, name: string, avatar: string, stamp: nat): Tables {
    var id := KidId(stamp);
    if name == "" || id in t.kidProfiles then t
    else t.(kidProfiles := t.kidProfiles[id := NewKid(id, name, avatar)])
  }

  lemma AddTrimmedKidEffect(t: Tables, name: string, avatar: string, stamp: nat)
    ensures var u := AddTrimmedKid(t, name, avatar, stamp);
      var id := KidId(stamp);
      (id in u.kidProfiles && id !in t.kidProfiles <==> name != "" && id !in t.kidProfiles)
      && u.(kidProfiles := t.kidProfiles) == t
      && (forall k :: k in t.kidProfiles ==> k in u.kidProfiles && u.kidProfiles[k] == t.kidProfiles[k])
      && (id !in t.kidProfiles && id in u.kidProfiles ==>
            u.kidProfiles.Keys == t.kidProfiles.Keys + {id}
            && u.kidProfiles[id] == Kid(id, name, avatar, "9999", 0, 0, 0, 0, 0, 0, 0))
  {
    var id := KidId(stamp);
    var u := AddTrimmedKid(t, name, avatar, stamp);
    if name == "" || id in t.kidProfiles {
      assert u == t;
    } else {
      NewKidPinIs9999(name);
      var k := Kid(id, name, avatar, "9999", 0, 0, 0, 0, 0, 0, 0);
      assert NewKid(id, name, avatar) == k;
      assert u == t.(kidProfiles := t.kidProfiles[id := k]);
    }
  }

  /** A kid is added exactly when the trimmed name is not empty and the id is free; the new
      kid carries the trimmed name, the avatar, pin "9999" and every points field and
      counter at zero; no other kid and no other table changes. */
  lemma AddKidEffect(t: Tables, name: string, avatar: string, stamp: nat)
    ensures var u := AddKidTables(t, name, avatar, stamp);
      var id := KidId(stamp);
      (id in u.kidProfiles && id !in t.kidProfiles <==> !AllSpace(name) && id !in t.kidProfiles)
      && u.(kidProfiles := t.kidProfiles) == t
      && (forall k :: k in t.kidProfiles ==> k in u.kidProfiles && u.kidProfiles[k] == t.kidProfiles[k])
      && (id !in t.kidProfiles && id in u.kidProfiles ==>
            var k := u.kidProfiles[id];
            u.kidProfiles.Keys == t.kidProfiles.Keys + {id}
            && k.id == id && k.name == Trim(name) && k.avatar == avatar && k.pin == "9999"
            && k.points == 0 && k.lifetimePoints == 0 && k.completedChores == 0 && k.rejectedChores == 0
            && k.notCompletedChores == 0 && k.completedWorkbooks == 0 && k.rejectedWorkbooks == 0)
  {
    AddTrimmedKidEffect(t, Trim(name), avatar, stamp);
  }

  method HandleAddKid(db: ChoreDb, name: string, avatar: string, stamp: nat)
    modifies db
    ensures db.Contents() == AddKidTables(old(db.Contents()), name, avatar, stamp)
  {
    var trimmed := Trim(name);
    if trimmed == "" { return; }
    var pin := "";
    var lowered := ToLower(trimmed);
    if lowered == "Keira" {
      pin := "1203";
    } else if lowered == "Eastyn" {
      pin := "1428";
    } else {
      pin := "9999";
    }
    var id := KidId(stamp);
    if id in db.kidProfiles { return; }
    db.kidProfiles := db.kidProfiles[id := Kid(id, trimmed, avatar, pin, 0, 0, 0, 0, 0, 0, 0)];
  }

  // ---------------------------------------------------------------------------
  // Editing records

  /** `handleUpdateKid`: needs an editing id and a non-blank name; writes the trimmed name,
      the avatar and the trimmed pin (`update` of a missing kid changes nothing). */
  function UpdateKidTables(t: Tables, editing: Option<string>, name: string, avatar: string, pin: string): Tables {
    UpdateTrimmedKid(t, editing, Trim(name), avatar, Trim(pin))
  }

  /** `handleUpdateKid` once the name and the pin are trimmed. */
  function UpdateTrimmedKid(t: Tables, editing: Option<string>, name: string, avatar: string, pin: string): Tables {
    if !Truthy(editing) || name == "" || editing.value !in t.kidProfiles then t
    else
      var k := t.kidProfiles[editing.value];
      t.(kidProfiles := t.kidProfiles[editing.value := k.(name := name, avatar := avatar, pin := pin)])
  }

  lemma UpdateTrimmedKidEffect(t: Tables, editing: Option<string>, name: string, avatar: string, pin: string)
    ensures var u := UpdateTrimmedKid(t, editing, name, avatar, pin);
      u.(kidProfiles := t.kidProfiles) == t && u.kidProfiles.Keys == t.kidProfiles.Keys
      && (!Truthy(editing) || name == "" ==> u == t)
      && (forall id :: id in t.kidProfiles && Some(id) != editing ==> u.kidProfiles[id] == t.kidProfiles[id])
      && (Truthy(editing) && name != "" && editing.value in t.kidProfiles ==>
            var k := t.kidProfiles[editing.value];
            u.kidProfiles[editing.value] == k.(name := name, avatar := avatar, pin := pin))
  {
  }

  /** Without an editing id or with a blank name nothing changes; otherwise only the name,
      avatar and pin of that kid change, and the points and counters are kept. */
  lemma UpdateKidEffect(t: Tables, editing: Option<string>, name: string, avatar: string, pin: string)
    ensures var u := UpdateKidTables(t, editing, name, avatar, pin);
      u.(kidProfiles := t.kidProfiles) == t && u.kidProfiles.Keys == t.kidProfiles.Keys
      && (!Truthy(editing) || AllSpace(name) ==> u == t)
      && (forall id :: id in t.kidProfiles && Some(id) != editing ==> u.kidProfiles[id] == t.kidProfiles[id])
      && (Truthy(editing) && !AllSpace(name) && editing.value in t.kidProfiles ==>
            var k := t.kidProfiles[editing.value];
            var k' := u.kidProfiles[editing.value];
            k'.name == Trim(name) && k'.avatar == avatar && k'.pin == Trim(pin)
            && k'.(name := k.name, avatar := k.avatar, pin := k.pin) == k)
  {
    UpdateTrimmedKidEffect(t, editing, Trim(name), avatar, Trim(pin));
  }

  method HandleUpdateKid(db: ChoreDb, editing: Option<string>, name: string, avatar: string, pin: string)
    modifies db
    ensures db.Contents() == UpdateKidTables(old(db.Contents()), editing, name, avatar, pin)
  {
    if !Truthy(editing) || Trim(name) == "" { return; }
    if editing.value !in db.kidProfiles { return; }
    var k := db.kidProfiles[editing.value];
    db.kidProfiles := db.kidProfiles[editing.value := k.(name := Trim(name), avatar := avatar, pin := Trim(pin))];
  }

  /** `handleUpdateChore`: needs a chore being edited; writes the title as typed and the
      points, without any validation. */
  function UpdateChoreTables(t: Tables, editing: Option<nat>, title: string, points: int): Tables {
    if editing.None? || editing.value !in t.choreTemplates then t
    else
      var c := t.choreTemplates[editing.value];
      t.(choreTemplates := t.choreTemplates[editing.value := c.(title := title, points := points)])
  }

  /** An edit stores the title untrimmed, even a blank one, and any points, zero and
      negative included; the weekly schedule and every other chore are kept. */
  lemma UpdateChoreEffect(t: Tables, editing: Option<nat>, title: string, points: int)
    ensures var u := UpdateChoreTables(t, editing, title, points);
      u.(choreTemplates := t.choreTemplates) == t && u.choreTemplates.Keys == t.choreTemplates.Keys
      && (editing.None? ==> u == t)
      && (forall id :: id in t.choreTemplates && Some(id) != editing ==> u.choreTemplates[id] == t.choreTemplates[id])
      && (editing.Some? && editing.value in t.choreTemplates ==>
            var c := t.choreTemplates[editing.value];
            var c' := u.choreTemplates[editing.value];
            c'.title == title && c'.points == points && c'.weeklyAssignment == c.weeklyAssignment && c'.id == c.id)
  {
  }

  method HandleUpdateChore(db: ChoreDb, editing: Option<nat>, title: string, points: int)
    modifies db
    ensures db.Contents() == UpdateChoreTables(old(db.Contents()), editing, title, points)
  {
    if editing.None? { return; }
    if editing.value !in db.choreTemplates { return; }
    var c := db.choreTemplates[editing.value];
    db.choreTemplates := db.choreTemplates[editing.value := c.(title := title, points := points)];
  }

  /** `updateWorkbook`: needs a non-blank title and a truthy editing id; writes the trimmed
      title and the points. */
  function UpdateWorkbookTables(t: Tables, editing: Option<nat>, title: string, points: int): Tables {
    UpdateTrimmedWorkbook(t, editing, Trim(title), points)
  }

  /** `updateWorkbook` once the title is trimmed. */
  function UpdateTrimmedWorkbook(t: Tables, editing: Option<nat>, title: string, points: int): Tables {
    if title == "" || !IdTruthy(editing) || editing.value !in t.woodBooks then t
    else
      var b := t.woodBooks[editing.value];
      t.(woodBooks := t.woodBooks[editing.value := b.(title := title, points := Some(points))])
  }

  lemma UpdateTrimmedWorkbookEffect(t: Tables, editing: Option<nat>, title: string, points: int)
    ensures var u := UpdateTrimmedWorkbook(t, editing, title, points);
      u.(woodBooks := t.woodBooks) == t && u.woodBooks.Keys == t.woodBooks.Keys
      && (title == "" || !IdTruthy(editing) ==> u == t)
      && (forall id :: id in t.woodBooks && Some(id) != editing ==> u.woodBooks[id] == t.woodBooks[id])
      && (title != "" && IdTruthy(editing) && editing.value in t.woodBooks ==>
            var b := t.woodBooks[editing.value];
            u.woodBooks[editing.value] == WoodBook(b.id, title, Some(points)))
  {
  }

  /** A blank title or a falsy editing id (none, or 0) changes nothing; otherwise only the
      title and points of that workbook change. */
  lemma UpdateWorkbookEffect(t: Tables, editing: Option<nat>, title: string, points: int)
    ensures var u := UpdateWorkbookTables(t, editing, title, points);
      u.(woodBooks := t.woodBooks) == t && u.woodBooks.Keys == t.woodBooks.Keys
      && (AllSpace(title) || !IdTruthy(editing) ==> u == t)
      && (forall id :: id in t.woodBooks && Some(id) != editing ==> u.woodBooks[id] == t.woodBooks[id])
      && (!AllSpace(title) && IdTruthy(editing) && editing.value in t.woodBooks ==>
            var b := t.woodBooks[editing.value];
            u.woodBooks[editing.value] == WoodBook(b.id, Trim(title), Some(points)))
  {
    UpdateTrimmedWorkbookEffect(t, editing, Trim(title), points);
  }

  method UpdateWorkbook(db: ChoreDb, editing: Option<nat>, title: string, points: int)
    modifies db
    ensures db.Contents() == UpdateWorkbookTables(old(db.Contents()), editing, title, points)
  {
    if Trim(title) == "" || !IdTruthy(editing) { return; }
    if editing.value !in db.woodBooks { return; }
    var b := db.woodBooks[editing.value];
    db.woodBooks := db.woodBooks[editing.value := b.(title := Trim(title), points := Some(points))];
  }

  /** `updateExtraChore`: the same guard as `updateWorkbook`. */
  function UpdateExtraChoreTables(t: Tables, editing: Option<nat>, title: string, points: int): Tables {
    UpdateTrimmedExtraChore(t, editing, Trim(title), points)
  }

  /** `updateExtraChore` once the title is trimmed. */
  function UpdateTrimmedExtraChore(t: Tables, editing: Option<nat>, title: string, points: int): Tables {
    if title == "" || !IdTruthy(editing) || editing.value !in t.extraChoreTemplates then t
    else
      var c := t.extraChoreTemplates[editing.value];
      t.(extraChoreTemplates := t.extraChoreTemplates[editing.value := c.(title := title, points := points)])
  }

  lemma UpdateTrimmedExtraChoreEffect(t: Tables, editing: Option<nat>, title: string, points: int)
    ensures var u := UpdateTrimmedExtraChore(t, editing, title, points);
      u.(extraChoreTemplates := t.extraChoreTemplates) == t && u.extraChoreTemplates.Keys == t.extraChoreTemplates.Keys
      && (title == "" || !IdTruthy(editing) ==> u == t)
      && (forall id :: id in t.extraChoreTemplates && Some(id) != editing ==> u.extraChoreTemplates[id] == t.extraChoreTemplates[id])
      && (title != "" && IdTruthy(editing) && editing.value in t.extraChoreTemplates ==>
            var c := t.extraChoreTemplates[editing.value];
            u.extraChoreTemplates[editing.value] == ExtraChoreTemplate(c.id, title, points))
  {
  }

  /** A blank title or a falsy editing id changes nothing; otherwise only the title and
      points of that extra chore change. */
  lemma UpdateExtraChoreEffect(t: Tables, editing: Option<nat>, title: string, points: int)
    ensures var u := UpdateExtraChoreTables(t, editing, title, points);
      u.(extraChoreTemplates := t.extraChoreTemplates) == t && u.extraChoreTemplates.Keys == t.extraChoreTemplates.Keys
      && (AllSpace(title) || !IdTruthy(editing) ==> u == t)
      && (forall id :: id in t.extraChoreTemplates && Some(id) != editing ==> u.extraChoreTemplates[id] == t.extraChoreTemplates[id])
      && (!AllSpace(title) && IdTruthy(editing) && editing.value in t.extraChoreTemplates ==>
            var c := t.extraChoreTemplates[editing.value];
            u.extraChoreTemplates[editing.value] == ExtraChoreTemplate(c.id, Trim(title), points))
  {
    UpdateTrimmedExtraChoreEffect(t, editing, Trim(title), points);
  }

  method UpdateExtraChore(db: ChoreDb, editing: Option<nat>, title: string, points: int)
    modifies db
    ensures db.Contents() == UpdateExtraChoreTables(old(db.Contents()), editing, title, points)
  {
    if Trim(title) == "" || !IdTruthy(editing) { return; }
    if editing.value !in db.extraChoreTemplates { return; }
    var c := db.extraChoreTemplates[editing.value];
    db.extraChoreTemplates := db.extraChoreTemplates[editing.value := c.(title := Trim(title), points := points)];
  }

  // ---------------------------------------------------------------------------
  // Deleting records, each after the parent confirms

  function DeleteKidTables(t: Tables, id: string, confirmed: bool): Tables {
    if confirmed then t.(kidProfiles := t.kidProfiles - {id}) else t
  }

  function DeleteChoreTables(t: Tables, id: nat, confirmed: bool): Tables {
    if confirmed then t.(choreTemplates := t.choreTemplates - {id}) else t
  }

  function DeleteWorkbookTables(t: Tables, id: nat, confirmed: bool): Tables {
    if confirmed then t.(woodBooks := t.woodBooks - {id}) else t
  }

  function DeleteExtraChoreTables(t: Tables, id: nat, confirmed: bool): Tables {
    if confirmed then t.(extraChoreTemplates := t.extraChoreTemplates - {id}) else t
  }

  // Without confirmation a delete changes nothing; with it, exactly that one record is
  // gone from its table, and the records that refer to it (statuses, assignments,
  // claims, redemptions, schedules) are left in place.

  lemma DeleteKidRemovesOnlyThatKid(t: Tables, kidId: string, confirmed: bool)
    ensures var u := DeleteKidTables(t, kidId, confirmed);
      (!confirmed ==> u == t)
      && (confirmed ==>
            kidId !in u.kidProfiles && u.kidProfiles.Keys == t.kidProfiles.Keys - {kidId}
            && (forall k :: k in u.kidProfiles ==> u.kidProfiles[k] == t.kidProfiles[k])
            && u.(kidProfiles := t.kidProfiles) == t)
  {
  }

  lemma DeleteChoreRemovesOnlyThatChore(t: Tables, id: nat, confirmed: bool)
    ensures var u := DeleteChoreTables(t, id, confirmed);
      (!confirmed ==> u == t)
      && (confirmed ==>
            id !in u.choreTemplates && u.choreTemplates.Keys == t.choreTemplates.Keys - {id}
            && (forall n :: n in u.choreTemplates ==> u.choreTemplates[n] == t.choreTemplates[n])
            && u.(choreTemplates := t.choreTemplates) == t)
  {
  }

  lemma DeleteWorkbookRemovesOnlyThatWorkbook(t: Tables, id: nat, confirmed: bool)
    ensures var u := DeleteWorkbookTables(t, id, confirmed);
      (!confirmed ==> u == t)
      && (confirmed ==>
            id !in u.woodBooks && u.woodBooks.Keys == t.woodBooks.Keys - {id}
            && (forall n :: n in u.woodBooks ==> u.woodBooks[n] == t.woodBooks[n])
            && u.(woodBooks := t.woodBooks) == t)
  {
  }

  lemma DeleteExtraChoreRemovesOnlyThatExtraChore(t: Tables, id: nat, confirmed: bool)
    ensures var u := DeleteExtraChoreTables(t, id, confirmed);
      (!confirmed ==> u == t)
      && (confirmed ==>
            id !in u.extraChoreTemplates && u.extraChoreTemplates.Keys == t.extraChoreTemplates.Keys - {id}
            && (forall n :: n in u.extraChoreTemplates ==> u.extraChoreTemplates[n] == t.extraChoreTemplates[n])
            && u.(extraChoreTemplates := t.extraChoreTemplates) == t)
  {
  }

  method DeleteKid(db: ChoreDb, id: string, confirmed: bool)
    modifies db
    ensures db.Contents() == DeleteKidTables(old(db.Contents()), id, confirmed)
  {
    if confirmed {
      db.kidProfiles := db.kidProfiles - {id};
    }
  }

  method HandleDeleteChore(db: ChoreDb, id: nat, confirmed: bool)
    modifies db
    ensures db.Contents() == DeleteChoreTables(old(db.Contents()), id, confirmed)
  {
    if confirmed {
      db.choreTemplates := db.choreTemplates - {id};
    }
  }

  method DeleteWorkbook(db: ChoreDb, id: nat, confirmed: bool)
    modifies db
    ensures db.Contents() == DeleteWorkbookTables(old(db.Contents()), id, confirmed)
  {
    if confirmed {
      db.woodBooks := db.woodBooks - {id};
    }
  }

  method DeleteExtraChore(db: ChoreDb, id: nat, confirmed: bool)
    modifies db
    ensures db.Contents() == DeleteExtraChoreTables(old(db.Contents()), id, confirmed)
  {
    if confirmed {
      db.extraChoreTemplates := db.extraChoreTemplates - {id};
    }
  }
}
