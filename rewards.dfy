/** The parent's rewards page (src/pages/Rewards.tsx): redemptions waiting to be handed
    over, and the ones already handed over, grouped by kid. */
module Rewards {
  import opened Records
  import opened ChoreDatabase

  /** `update(id, {redeemed: true})`: the record with that id is marked redeemed. */
  function MarkRedeemed(rs: seq<PendingReward>, id: nat): (r: seq<PendingReward>)
    ensures |r| == |rs|
  {
    seq(|rs|, i requires 0 <= i < |rs| => if rs[i].id == id then rs[i].(redeemed := true) else rs[i])
  }

  /** Marking touches exactly the record with that id, and only its `redeemed` flag;
      marking twice is marking once. */
  lemma MarkRedeemedEffect(rs: seq<PendingReward>, id: nat)
    ensures forall i :: 0 <= i < |rs| && rs[i].id == id ==>
      MarkRedeemed(rs, id)[i].redeemed && MarkRedeemed(rs, id)[i].(redeemed := rs[i].redeemed) == rs[i]
    ensures forall i :: 0 <= i < |rs| && rs[i].id != id ==> MarkRedeemed(rs, id)[i] == rs[i]
    ensures MarkRedeemed(MarkRedeemed(rs, id), id) == MarkRedeemed(rs, id)
  {
  }

  /** Marking keeps every key, so distinct keys stay distinct, and then at most one
      record changes. */
  lemma MarkRedeemedKeepsIdsUnique(rs: seq<PendingReward>, id: nat)
    requires UniqueRewardIds(rs)
    ensures forall i :: 0 <= i < |rs| ==> MarkRedeemed(rs, id)[i].id == rs[i].id
    ensures UniqueRewardIds(MarkRedeemed(rs, id))
    ensures forall i, j :: 0 <= i < j < |rs| && MarkRedeemed(rs, id)[i] != rs[i] ==> MarkRedeemed(rs, id)[j] == rs[j]
  {
  }

  method MarkAsRedeemed(db: ChoreDb, id: nat)
    modifies db
    ensures db.Contents() == old(db.Contents()).(pendingRewards := MarkRedeemed(old(db.pendingRewards), id))
  {
    db.pendingRewards := MarkRedeemed(db.pendingRewards, id);
  }

  /** The pending view: the records not yet redeemed, in table order. */
  function PendingView(rs: seq<PendingReward>): (r: seq<PendingReward>)
    ensures forall x :: x in r <==> x in rs && !x.redeemed
    decreases |rs|
  {
    if rs == [] then []
    else PendingView(rs[..|rs| - 1]) + (if rs[|rs| - 1].redeemed then [] else [rs[|rs| - 1]])
  }

  /** The kid's redeemed records, in table order. */
  function RedeemedOf(rs: seq<PendingReward>, kidId: string): (r: seq<PendingReward>)
    ensures forall x :: x in r <==> x in rs && x.redeemed && x.kidId == kidId
    decreases |rs|
  {
    if rs == [] then []
    else
      var x := rs[|rs| - 1];
      RedeemedOf(rs[..|rs| - 1], kidId) + (if x.redeemed && x.kidId == kidId then [x] else [])
  }

  /** `redeemedByKid`: each kid with a redeemed record, mapped to its redeemed records in
      table order. */
  method RedeemedByKid(rs: seq<PendingReward>) returns (g: map<string, seq<PendingReward>>)
    ensures forall k :: k in g <==> exists x :: x in rs && x.redeemed && x.kidId == k
    ensures forall k :: k in g ==> g[k] == RedeemedOf(rs, k)
  {
    g := map[];
    var i := 0;
    while i < |rs|
      invariant 0 <= i <= |rs|
      invariant forall k :: k in g <==> RedeemedOf(rs[..i], k) != []
      invariant forall k :: k in g ==> g[k] == RedeemedOf(rs[..i], k)
    {
      var r := rs[i];
      assert rs[..i + 1][..i] == rs[..i];
      if r.redeemed {
        var group := if r.kidId in g then g[r.kidId] else [];
        if r.kidId !in g {
          assert RedeemedOf(rs[..i], r.kidId) == [];
        }
        g := g[r.kidId := group + [r]];
      }
      i := i + 1;
    }
    assert rs[..i] == rs;
    forall k ensures RedeemedOf(rs, k) != [] <==> exists x :: x in rs && x.redeemed && x.kidId == k {
      if RedeemedOf(rs, k) != [] {
        assert RedeemedOf(rs, k)[0] in RedeemedOf(rs, k);
      } else {
        NoneRedeemed(rs, k);
      }
    }
  }

  /** A kid without a redeemed record has an empty group. */
  lemma {:induction false} NoneRedeemed(rs: seq<PendingReward>, kidId: string)
    requires forall x :: x in rs ==> !(x.redeemed && x.kidId == kidId)
    ensures RedeemedOf(rs, kidId) == []
    decreases |rs|
  {
    if rs != [] {
      NoneRedeemed(rs[..|rs| - 1], kidId);
    }
  }

  /** `filter(r => r.redeemed)`: the redeemed records, in table order. */
  function RedeemedView(rs: seq<PendingReward>): (r: seq<PendingReward>)
    ensures forall x :: x in r <==> x in rs && x.redeemed
    decreases |rs|
  {
    if rs == [] then []
    else RedeemedView(rs[..|rs| - 1]) + (if rs[|rs| - 1].redeemed then [rs[|rs| - 1]] else [])
  }

  /** The two views split the table: every record is in exactly one of the pending view
      and its kid's redeemed group, and the two views together are as long as the table. */
  lemma {:induction false} ViewsPartition(rs: seq<PendingReward>)
    ensures forall x :: x in rs ==> (x in PendingView(rs) <==> x !in RedeemedOf(rs, x.kidId))
    ensures |PendingView(rs)| + |RedeemedView(rs)| == |rs|
    decreases |rs|
  {
    if rs != [] {
      ViewsPartition(rs[..|rs| - 1]);
    }
  }
}
