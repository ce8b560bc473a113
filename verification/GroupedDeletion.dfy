/**
 Deleting a device deletes the records that stand for the same machine. What that
 takes away, what it leaves, and what may still name a device in any run.
 */
module GroupedDeletion {
  import opened Bytes
  import opened ServerData
  import opened StoreSteps
  import opened Text
  import opened Wrappers

  // ---- Which devices go ----

  /**
   A deletion takes the target; beyond it, the user's records that share its identity, and those
   only if the target is online itself or none of them is.
   */
  lemma DeletedExactly(s: Store, userId: Uuid, id: Uuid, now: u64, d: Uuid)
    requires Owns(s.devices, userId, id)
    ensures d in DeletedIds(s, userId, id, now)
       <==> || d == id
            || (&& Owns(s.devices, userId, d) && SharesWith(s, id, d)
                && (OnlineIn(s.presence, id, now) || !HasOnlineSibling(s, userId, id, now)))
  {
    hide SamePlace, OnlineIn, Normalize, Trim;
  }

  /** Deleting a device that is offline never takes one that is online. */
  lemma OfflineDeletionSparesOnline(s: Store, userId: Uuid, id: Uuid, now: u64, d: Uuid, order: seq<Uuid>)
    requires !OnlineIn(s.presence, id, now)
    requires d in s.devices && OnlineIn(s.presence, d, now)
    ensures var after := DeleteDevice(s, userId, id, now, order).store;
            && d in after.devices && after.devices[d] == s.devices[d]
            && d in after.presence && after.presence[d] == s.presence[d]
  {
    hide SharesIdentity, IsOnlineAt, ClearedTopology, KeysOfDeleted, PresentedKeysOfDeleted, OfflineEvents;
    if Owns(s.devices, userId, id) {
      DeletedExactly(s, userId, id, now, d);
    }
  }

  // ---- What is left ----

  ghost predicate NothingNames(s: Store, ids: set<Uuid>) {
    && (forall d <- s.devices :: d !in ids)
    && (forall d <- s.presence :: d !in ids)
    && (forall u <- s.topologies :: !NamesAny(s.topologies[u], ids))
    && (forall p <- s.profiles :: p.source !in ids && p.target !in ids)
  }

  lemma ClearingClears(t: Topology, ids: set<Uuid>, now: u64)
    ensures !NamesAny(ClearedTopology(t, ids, now), ids)
  {
  }

  lemma DeletionLeavesNoTrace(s: Store, userId: Uuid, id: Uuid, now: u64, order: seq<Uuid>)
    requires Owns(s.devices, userId, id)
    ensures NothingNames(DeleteDevice(s, userId, id, now, order).store, DeletedIds(s, userId, id, now))
  {
    hide DeletedIds, NamesAny, ClearedTopology, KeysOfDeleted, PresentedKeysOfDeleted, OfflineEvents, ScopeOf;
    var ids := DeletedIds(s, userId, id, now);
    forall u | u in s.topologies ensures !NamesAny(ClearedTopology(s.topologies[u], ids, now), ids) {
      ClearingClears(s.topologies[u], ids, now);
    }
  }

  predicate KeptSlot(before: Option<Uuid>, after: Option<Uuid>, ids: set<Uuid>) {
    if Holds(before, ids) then after == None else after == before
  }

  /** A topology changes only in the slots that named a deleted device, and its version rises exactly then. */
  predicate RightlyCleared(before: Topology, after: Topology, ids: set<Uuid>) {
    && KeptSlot(before.master, after.master, ids)
    && KeptSlot(before.layout.left, after.layout.left, ids) && KeptSlot(before.layout.right, after.layout.right, ids)
    && KeptSlot(before.layout.top, after.layout.top, ids) && KeptSlot(before.layout.bottom, after.layout.bottom, ids)
    && (before.topologyVersion < U64_MAX ==>
          (after.topologyVersion > before.topologyVersion <==> NamesAny(before, ids)))
    && (!NamesAny(before, ids) ==> after == before)
  }

  lemma DeletionKeepsTheRest(s: Store, userId: Uuid, id: Uuid, now: u64, order: seq<Uuid>)
    requires Owns(s.devices, userId, id)
    ensures var after, ids := DeleteDevice(s, userId, id, now, order).store, DeletedIds(s, userId, id, now);
            && (forall d <- s.devices :: d !in ids ==> d in after.devices && after.devices[d] == s.devices[d])
            && (forall d <- s.presence :: d !in ids ==> d in after.presence && after.presence[d] == s.presence[d])
            && after.topologies.Keys == s.topologies.Keys
            && (forall u <- s.topologies :: RightlyCleared(s.topologies[u], after.topologies[u], ids))
            && (forall p <- s.profiles :: p.source !in ids && p.target !in ids ==>
                  p in after.profiles && after.profiles[p] == s.profiles[p])
            && after.profileHistory == s.profileHistory && after.profileRevision == s.profileRevision
  {
    hide DeletedIds, KeysOfDeleted, PresentedKeysOfDeleted, OfflineEvents, ScopeOf;
  }

  // ---- Sharing an identity ----

  lemma SharingIsSymmetric(s: Store, a: Uuid, b: Uuid)
    requires a in s.devices && b in s.devices
    ensures SharesWith(s, a, b) == SharesWith(s, b, a)
  {
    hide Trim, Normalize;
  }

  /** The LAN addresses a presence shows, without the blanks around them. */
  function AddressSet(p: Presence): set<string> {
    set ip | ip in p.lanIps && Trim(ip) != "" :: Trim(ip)
  }

  /**
   Two records stand for one machine: by their key, or by name and system with a LAN address in common or, when
   neither has one, with the public address and port in common.
   */
  predicate StandForOne(x: Device, xPresence: Option<Presence>, y: Device, yPresence: Option<Presence>) {
    || (Trim(x.publicKey) == Trim(y.publicKey) != "")
    || (&& Normalize(x.name) == Normalize(y.name) && Normalize(x.osType) == Normalize(y.osType)
        && xPresence.Some? && yPresence.Some?
        && var p, q := xPresence.value, yPresence.value;
           || AddressSet(p) * AddressSet(q) != {}
           || (AddressSet(p) == AddressSet(q) == {} && Trim(p.publicIp) == Trim(q.publicIp) != ""
               && p.listenPort == q.listenPort))
  }

  lemma SharesExactly(s: Store, a: Uuid, b: Uuid)
    requires a in s.devices && b in s.devices
    ensures SharesWith(s, a, b)
       <==> a == b || StandForOne(s.devices[a], Find(s.presence, a), s.devices[b], Find(s.presence, b))
  {
    hide Trim, Normalize;
    if a in s.presence && b in s.presence {
      var p, q := s.presence[a], s.presence[b];
      AddressesExactly(p);
      AddressesExactly(q);
      OverlapExactly(p, q);
      hide LanIpsOverlap, HasLanIp, AddressSet;
    }
  }

  lemma AddressesExactly(p: Presence)
    ensures HasLanIp(p.lanIps) <==> AddressSet(p) != {}
  {
    hide Trim;
    forall ip | ip in p.lanIps && Trim(ip) != "" ensures Trim(ip) in AddressSet(p) {
    }
  }

  lemma OverlapExactly(p: Presence, q: Presence)
    ensures LanIpsOverlap(p.lanIps, q.lanIps) <==> AddressSet(p) * AddressSet(q) != {}
  {
    hide Trim;
    if LanIpsOverlap(p.lanIps, q.lanIps) {
      var x :| x in p.lanIps && Trim(x) != "" && exists y <- q.lanIps :: Trim(x) == Trim(y);
      assert Trim(x) in AddressSet(p) * AddressSet(q);
    }
    if AddressSet(p) * AddressSet(q) != {} {
      var t :| t in AddressSet(p) * AddressSet(q);
      var x :| x in p.lanIps && Trim(x) == t;
    }
  }
}
