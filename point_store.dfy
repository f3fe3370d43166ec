/** The points store (src/components/PointStore.tsx): a kid redeems a catalogue item. The
    redemption is always recorded; the balance is debited only when it covers the cost. */
module PointStore {
  import opened Records
  import opened ChoreDatabase

  /** The fixed reward catalogue, in display order; each image is an emoji. */
  const Catalog: seq<RewardItem> := [
    RewardItem(1, "Small Ice Cream", "Small Icecream cone at Sandys", "\U{1F366}", 120),
    RewardItem(2, "Small McFlurry/Milkshake", "Small McFlurry or Milkshake", "\U{1F964}", 250),
    RewardItem(3, "Medium McFlurry/Milkshake", "Medium McFlurry or Milkshake", "\U{1F367}", 350),
    RewardItem(4, "Movie Night", "1 Movie (you pick)", "\U{1F3AC}", 350),
    RewardItem(5, "Family Night", "1 Hour of family time (You pick)", "\U{1F468}\U{200D}\U{1F469}\U{200D}\U{1F467}\U{200D}\U{1F466}", 300),
    RewardItem(6, "Pool 2 Hours", "2 Hours at pool", "\U{1F3CA}\U{200D}\U{2642}\U{FE0F}", 70),
    RewardItem(7, "Pool 4 Hours", "4 Hours at pool", "\U{1F3CA}\U{200D}\U{2640}\U{FE0F}", 100),
    RewardItem(8, "Camp Fire", "Fire with smores", "\U{1F525}", 250),
    RewardItem(9, "Free Time (Game/TV/Computer)", "1 hour of free time", "\U{1F552}", 150),
    RewardItem(10, "Bike Ride", "3 mile bike ride", "\U{1F6B4}", 200),
    RewardItem(11, "Beach", "2 hours at beach", "\U{1F3D6}\U{FE0F}", 400),
    RewardItem(12, "Movie Theater", "1 movie theater (max 1 per month)", "\U{1F37F}", 1500)
  ]

  /** The catalogue holds twelve items with ids 1 to 12 in order, every one at a positive cost. */
  lemma CatalogShape()
    ensures |Catalog| == 12
    ensures forall i :: 0 <= i < |Catalog| ==> Catalog[i].id == i + 1 && Catalog[i].cost > 0
  {
  }

  /** The messages the store shows after a redemption. */
  datatype RedeemMessage = RedeemedFor(name: string, cost: int) | NotEnoughPoints(name: string)

  /** The "Redeem" button is enabled when the balance covers the cost. */
  predicate RedeemEnabled(k: Kid, item: RewardItem) {
    k.points >= item.cost
  }

  /** The record a redemption appends (neither redeemed nor requested for cash-in yet). */
  function RedemptionRecord(newId: nat, kidId: string, item: RewardItem, now: string): PendingReward {
    PendingReward(newId, kidId, item.name, item.cost, now, false, false)
  }

  /** The kid after a redemption: debited when the balance covers the cost, else unchanged. */
  function RedeemedKid(k: Kid, cost: int): Kid {
    if k.points >= cost then k.(points := k.points - cost) else k
  }

  /** `handleRedeem` on the tables, for a loaded kid. */
  function RedeemTables(t: Tables, kidId: string, item: RewardItem, now: string, newId: nat): Tables
    requires kidId in t.kidProfiles
  {
    t.(pendingRewards := t.pendingRewards + [RedemptionRecord(newId, kidId, item, now)],
       kidProfiles := t.kidProfiles[kidId := RedeemedKid(t.kidProfiles[kidId], item.cost)])
  }

  /** Appending under a fresh auto-increment key keeps the keys distinct, and the new
      key is then the only one naming the new record. */
  lemma {:induction false} RedeemKeepsIdsUnique(t: Tables, kidId: string, item: RewardItem, now: string, newId: nat)
    requires kidId in t.kidProfiles
    requires UniqueRewardIds(t.pendingRewards) && FreshRewardId(t.pendingRewards, newId)
    ensures var u := RedeemTables(t, kidId, item, now, newId);
      UniqueRewardIds(u.pendingRewards)
      && (forall i :: 0 <= i < |u.pendingRewards| && u.pendingRewards[i].id == newId ==> i == |t.pendingRewards|)
  {
    var rs := t.pendingRewards;
    var u := RedeemTables(t, kidId, item, now, newId).pendingRewards;
    assert u == rs + [RedemptionRecord(newId, kidId, item, now)];
    forall i, j | 0 <= i < j < |u|
      ensures u[i].id != u[j].id
    {
      if j < |rs| {
        assert u[i] == rs[i] && u[j] == rs[j];
      } else {
        assert u[i] == rs[i] && u[j].id == newId;
      }
    }
  }

  /** A redemption appends exactly one record, with the kid's id and the item's name and
      cost, whatever the balance; only the kid's balance may change, and it is debited by
      exactly the cost when it covers it, and untouched otherwise. */
  lemma RedeemEffect(t: Tables, kidId: string, item: RewardItem, now: string, newId: nat)
    requires kidId in t.kidProfiles
    ensures var u := RedeemTables(t, kidId, item, now, newId);
      var k := t.kidProfiles[kidId];
      |u.pendingRewards| == |t.pendingRewards| + 1 && u.pendingRewards[..|t.pendingRewards|] == t.pendingRewards
      && u.pendingRewards[|t.pendingRewards|].kidId == kidId
      && u.pendingRewards[|t.pendingRewards|].rewardName == item.name
      && u.pendingRewards[|t.pendingRewards|].cost == item.cost
      && (k.points >= item.cost ==> u.kidProfiles[kidId].points == k.points - item.cost)
      && (k.points < item.cost ==> u.kidProfiles[kidId] == k)
      && u.kidProfiles[kidId].(points := k.points) == k
      && (forall id :: id in t.kidProfiles && id != kidId ==> u.kidProfiles[id] == t.kidProfiles[id])
      && u.(pendingRewards := t.pendingRewards, kidProfiles := t.kidProfiles) == t
  {
  }

  /** A redemption never drives a balance below zero, nor raises it. */
  lemma RedeemKeepsBalanceNonNegative(k: Kid, cost: int)
    requires k.points >= 0
    ensures 0 <= RedeemedKid(k, cost).points
    ensures cost >= 0 ==> RedeemedKid(k, cost).points <= k.points
  {
  }

  /** Through the enabled button the redemption always debits. */
  lemma EnabledRedeemDebits(k: Kid, item: RewardItem)
    requires RedeemEnabled(k, item)
    ensures RedeemedKid(k, item.cost).points == k.points - item.cost
  {
  }

  /** `handleRedeem`: no kid loaded, no effect and no message; otherwise the redemption on
      the tables and its message. */
  method HandleRedeem(db: ChoreDb, kidId: Option<string>, item: RewardItem, now: string, newId: nat)
    returns (message: Option<RedeemMessage>)
    modifies db
    ensures (kidId.None? || kidId.value !in old(db.kidProfiles)) ==> db.Contents() == old(db.Contents()) && message == None
    ensures kidId.Some? && kidId.value in old(db.kidProfiles) ==>
      db.Contents() == RedeemTables(old(db.Contents()), kidId.value, item, now, newId)
      && message == Some(if old(db.kidProfiles)[kidId.value].points >= item.cost then RedeemedFor(item.name, item.cost)
                         else NotEnoughPoints(item.name))
  {
    if kidId.None? || kidId.value !in db.kidProfiles {
      return None;
    }
    var kid := db.kidProfiles[kidId.value];
    db.pendingRewards := db.pendingRewards + [RedemptionRecord(newId, kidId.value, item, now)];
    if kid.points >= item.cost {
      var newPoints := kid.points - item.cost;
      db.kidProfiles := db.kidProfiles[kidId.value := kid.(points := newPoints)];
      message := Some(RedeemedFor(item.name, item.cost));
    } else {
      message := Some(NotEnoughPoints(item.name));
    }
  }
}
