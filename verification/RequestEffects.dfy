/**
 What each request of crates/kmsync-server/src/main.rs leaves in the store, in terms of
 the fields of the request: what it stores and publishes, what it leaves as it was, and
 when and how it is refused.
 */
module RequestEffects {
  import opened Bytes
  import opened ServerData
  import opened StoreSteps
  import opened Text
  import opened Wrappers

  /** One more, up to the largest number that can be stored. */
  predicate IsNext(before: u64, after: u64) {
    after as int == if before < U64_MAX then before + 1 else U64_MAX
  }

  /** `after` is `before` with `value` under `key`, and nothing else is different. */
  ghost predicate PutsOnly<K(!new), V(!new)>(before: map<K, V>, after: map<K, V>, key: K, value: V) {
    && (forall k :: k in after <==> k in before || k == key)
    && (forall k <- after :: after[k] == if k == key then value else before[k])
  }

  lemma PutsOnlyOne<K(!new), V(!new)>(m: map<K, V>, key: K, value: V)
    ensures PutsOnly(m, m[key := value], key, value)
  {
  }

  // ---- Heartbeats ----

  /** The device was online and says again what it said before. */
  predicate SaysTheSame(s: Store, id: Uuid, request: HeartbeatRequest, now: u64) {
    id in s.presence
    && var p := s.presence[id];
       && p.online && (now <= if p.expiresAt == 0 then SaturatingAdd(p.lastSeenAt, 60) else p.expiresAt)
       && p.lanIps == request.lanIps && p.listenPort == request.listenPort && p.display == request.display
       && p.natType == (match request.natType case Some(n) => n case None => "unknown")
  }

  /** A heartbeat that gets through stores what it reports and nothing else. */
  lemma HeartbeatStores(s: Store, userId: Uuid, id: Uuid, request: HeartbeatRequest, publicIp: string, now: u64)
    requires Heartbeat(s, userId, id, request, publicIp, now).reply.Success?
    ensures var outcome := Heartbeat(s, userId, id, request, publicIp, now);
            var after, reply := outcome.store, outcome.reply.value;
            && id in after.presence
            && var p := after.presence[id];
               && p.userId == userId && p.online
               && p.lanIps == request.lanIps && p.listenPort == request.listenPort && p.display == request.display
               && p.natType == (match request.natType case Some(n) => n case None => "unknown")
               && p.publicIp == publicIp
               && p.lastSeenAt == now && p.expiresAt == SaturatingAdd(now, 60)
               && reply == HeartbeatReply(true, now, p.presenceVersion)
               && PutsOnly(s.presence, after.presence, id, p)
               && after == s.(presence := after.presence, events := after.events)
  {
    hide IsEvicted, OnlineIn, SamePresentation, NextPresenceVersion;
    var after := Heartbeat(s, userId, id, request, publicIp, now).store;
    PutsOnlyOne(s.presence, id, after.presence[id]);
    hide PutsOnly;
  }

  /** It moves the version up and publishes it, unless the device was online and says the same again. */
  lemma HeartbeatPublishesExactly(
    s: Store, userId: Uuid, id: Uuid, request: HeartbeatRequest, publicIp: string, now: u64)
    requires Heartbeat(s, userId, id, request, publicIp, now).reply.Success?
    ensures var outcome := Heartbeat(s, userId, id, request, publicIp, now);
            var version := outcome.reply.value.presenceVersion;
            if SaysTheSame(s, id, request, now) then
              version == s.presence[id].presenceVersion && outcome.store.events == s.events
            else
              && outcome.store.events == s.events + [PresenceChanged(userId, id, true, version)]
              && (if id in s.presence then IsNext(s.presence[id].presenceVersion, version) else version == 1)
  {
    hide IsEvicted;
  }

  /** A device goes offline at once, and everything else it reported stays. */
  lemma OfflineStores(s: Store, userId: Uuid, id: Uuid, now: u64)
    requires id in s.devices && s.devices[id].userId == userId && id in s.presence
    ensures var outcome := MarkDeviceOffline(s, userId, id, now);
            var after, p := outcome.store, s.presence[id];
            && id in after.presence
            && var q := after.presence[id];
               && !q.online && q.expiresAt == now && IsNext(p.presenceVersion, q.presenceVersion)
               && q == p.(online := q.online, expiresAt := q.expiresAt, presenceVersion := q.presenceVersion)
               && outcome.reply == Success(HeartbeatReply(false, p.lastSeenAt, q.presenceVersion))
               && PutsOnly(s.presence, after.presence, id, q)
               && after == s.(presence := after.presence, events := after.events)
               && after.events
                  == (if p.online && now <= (if p.expiresAt == 0 then SaturatingAdd(p.lastSeenAt, 60) else p.expiresAt)
                      then s.events + [PresenceChanged(userId, id, false, q.presenceVersion)] else s.events)
  {
  }

  lemma OfflineChangesNothing(s: Store, userId: Uuid, id: Uuid, now: u64)
    requires !(id in s.devices && s.devices[id].userId == userId && id in s.presence)
    ensures var outcome := MarkDeviceOffline(s, userId, id, now);
            && outcome.store == s
            && outcome.reply == if id in s.devices && s.devices[id].userId == userId
                                then Success(HeartbeatReply(false, now, 1)) else Failure(NotFound)
  {
  }

  // ---- Registrations ----

  /** A registration of a new device stores what it says of itself. */
  lemma RegisterStoresNew(
    s: Store, userId: Uuid, request: RegisterRequest, requested: Uuid, found: Option<Uuid>, now: u64)
    requires IsHolder(s.devices, userId, request.publicKey, found)
    requires var reply := RegisterDevice(s, userId, request, requested, found, now).reply;
             reply.Success? && reply.value !in s.devices
    ensures var outcome := RegisterDevice(s, userId, request, requested, found, now);
            var id, after := outcome.reply.value, outcome.store;
            && id == requested && id in after.devices
            && var d := after.devices[id];
               && d.userId == userId && d.name == request.name && d.publicKey == request.publicKey && !d.disabled
               && d.role == (match request.role case Some(r) => r case None => Client)
               && d.osType == request.osType && d.osVersion == request.osVersion && d.appVersion == request.appVersion
               && d.createdAt == now && d.updatedAt == now && d.deviceVersion == 1 && d.nameVersion == 1
               && PutsOnly(s.devices, after.devices, id, d)
  {
    hide DecideKey, KeysWithout, PresentedWithout, Trim;
    var outcome := RegisterDevice(s, userId, request, requested, found, now);
    PutsOnlyOne(s.devices, outcome.reply.value, outcome.store.devices[outcome.reply.value]);
    hide PutsOnly;
  }

  /** A registration of a known device updates what the program says of itself, and keeps what the user has set. */
  lemma RegisterStoresAgain(
    s: Store, userId: Uuid, request: RegisterRequest, requested: Uuid, found: Option<Uuid>, now: u64)
    requires var reply := RegisterDevice(s, userId, request, requested, found, now).reply;
             reply.Success? && reply.value in s.devices
    ensures var outcome := RegisterDevice(s, userId, request, requested, found, now);
            var id, after := outcome.reply.value, outcome.store;
            && id in after.devices
            && var d, e := s.devices[id], after.devices[id];
               && e.role == (match request.role case Some(r) => r case None => d.role)
               && e.osType == request.osType && e.osVersion == request.osVersion && e.appVersion == request.appVersion
               && e.userId == d.userId == userId && e.publicKey == d.publicKey == request.publicKey
               && e.name == d.name && e.nameVersion == d.nameVersion && e.disabled == d.disabled
               && e.createdAt == d.createdAt
               && (if e.role == d.role && e.osType == d.osType && e.osVersion == d.osVersion
                      && e.appVersion == d.appVersion
                   then e == d else e.updatedAt == now && IsNext(d.deviceVersion, e.deviceVersion))
               && PutsOnly(s.devices, after.devices, id, e)
  {
    hide DecideKey, KeysWithout, PresentedWithout, Trim, IdFor;
    var outcome := RegisterDevice(s, userId, request, requested, found, now);
    PutsOnlyOne(s.devices, outcome.reply.value, outcome.store.devices[outcome.reply.value]);
    hide PutsOnly;
  }

  /** A registration touches nothing but the devices and what is remembered of deleted ones. */
  lemma RegisterKeepsTheRest(
    s: Store, userId: Uuid, request: RegisterRequest, requested: Uuid, found: Option<Uuid>, now: u64)
    ensures var outcome := RegisterDevice(s, userId, request, requested, found, now);
            && outcome.store == s.(devices := outcome.store.devices, deletedKeys := outcome.store.deletedKeys,
                                   deletedPresented := outcome.store.deletedPresented)
            && (outcome.reply.Failure? ==> outcome.store == s)
  {
    hide DecideKey, KeysWithout, PresentedWithout, Trim, IdFor, RefreshedDevice, NewDevice;
  }

  /** `k` records that the key was deleted from another device than the one asked for. */
  predicate BelongedToAnother(k: DeletedKey, userId: Uuid, requested: Uuid, publicKey: string) {
    k.userId == userId && k.publicKey == publicKey
    && match k.deviceId
       case Some(id) => id != requested
       case None => false
  }

  /**
   A registration is refused for a blank name, then for an id that is free but a key that was deleted from another
   device, then for an id or a key that leads to a device which is not the user's or has another key.
   */
  lemma RegisterIsRefusedExactly(
    s: Store, userId: Uuid, request: RegisterRequest, requested: Uuid, found: Option<Uuid>, now: u64)
    requires IsHolder(s.devices, userId, request.publicKey, found)
    ensures var reply := RegisterDevice(s, userId, request, requested, found, now).reply;
            if Trim(request.name) == "" then reply == Failure(BadRequest)
            else if requested in s.devices then
              if s.devices[requested].userId == userId && s.devices[requested].publicKey == request.publicKey
              then reply == Success(requested) else reply == Failure(Conflict)
            else if exists k <- s.deletedKeys :: BelongedToAnother(k, userId, requested, request.publicKey)
            then reply == Failure(Forbidden)
            else
              match found
              case Some(id) => reply == Success(id)
              case None => reply == Success(requested)
  {
    hide Trim, KeysWithout, PresentedWithout, RefreshedDevice, NewDevice;
  }

  /** A registration drops the records of its key that name its device or no device, and no others. */
  lemma RegisterDropsKeysExactly(
    s: Store, userId: Uuid, request: RegisterRequest, requested: Uuid, found: Option<Uuid>, now: u64, k: DeletedKey)
    requires RegisterDevice(s, userId, request, requested, found, now).reply.Success?
    ensures k in RegisterDevice(s, userId, request, requested, found, now).store.deletedKeys
       <==> && k in s.deletedKeys
            && !(k.userId == userId && k.publicKey == request.publicKey
                 && (k.deviceId == None
                     || k.deviceId == Some(RegisterDevice(s, userId, request, requested, found, now).reply.value)))
  {
    hide Trim, DecideKey, PresentedWithout, RefreshedDevice, NewDevice, IdFor;
  }

  // ---- Changes to a device ----

  /** An update stores the name and the switch that it names, and keeps them where it names none. */
  lemma UpdateStores(s: Store, userId: Uuid, id: Uuid, request: UpdateRequest, now: u64)
    requires UpdateDevice(s, userId, id, request, now).reply.Success?
    ensures var outcome := UpdateDevice(s, userId, id, request, now);
            var after := outcome.store;
            && id in s.devices && id in after.devices
            && var d, e := s.devices[id], after.devices[id];
               && e.name == (match request.name case Some(n) => n case None => d.name)
               && e.disabled == (match request.disabled case Some(b) => b case None => d.disabled)
               && (if e.name == d.name then e.nameVersion == d.nameVersion else IsNext(d.nameVersion, e.nameVersion))
               && (if e.name == d.name && e.disabled == d.disabled then e == d && after.events == s.events
                   else
                     && e.updatedAt == now && IsNext(d.deviceVersion, e.deviceVersion)
                     && after.events == s.events + [DeviceChanged(userId, id, e.deviceVersion, e.nameVersion)])
               && e == d.(name := e.name, disabled := e.disabled, updatedAt := e.updatedAt,
                          deviceVersion := e.deviceVersion, nameVersion := e.nameVersion)
               && outcome.reply == Success(e)
               && PutsOnly(s.devices, after.devices, id, e)
               && after == s.(devices := after.devices, events := after.events)
  {
    hide Trim;
    var outcome := UpdateDevice(s, userId, id, request, now);
    PutsOnlyOne(s.devices, id, outcome.store.devices[id]);
    hide PutsOnly;
  }

  lemma UpdateIsRefusedExactly(s: Store, userId: Uuid, id: Uuid, request: UpdateRequest, now: u64)
    ensures var outcome := UpdateDevice(s, userId, id, request, now);
            if !(id in s.devices && s.devices[id].userId == userId) then outcome == Outcome(s, Failure(NotFound))
            else if request.name.Some? && Trim(request.name.value) == "" then outcome == Outcome(s, Failure(BadRequest))
            else outcome.reply.Success?
  {
    hide Trim, UpdatedDevice;
  }

  /** Reauthorizing a device gives it the new key, enables it and changes nothing else of it. */
  lemma ReauthorizeStores(s: Store, userId: Uuid, id: Uuid, publicKey: string, now: u64)
    requires id in s.devices && s.devices[id].userId == userId && Trim(publicKey) != ""
    ensures var outcome := ReauthorizeDevice(s, userId, id, publicKey, now);
            var after := outcome.store;
            && id in after.devices
            && var d, e := s.devices[id], after.devices[id];
               && e.publicKey == publicKey && !e.disabled && e.updatedAt == now
               && IsNext(d.deviceVersion, e.deviceVersion)
               && e == d.(publicKey := e.publicKey, disabled := e.disabled, updatedAt := e.updatedAt,
                          deviceVersion := e.deviceVersion)
               && outcome.reply == Success(e)
               && PutsOnly(s.devices, after.devices, id, e)
               && after == s.(devices := after.devices, events := after.events)
               && after.events == s.events + [DeviceChanged(userId, id, e.deviceVersion, e.nameVersion)]
  {
    hide Trim;
    var outcome := ReauthorizeDevice(s, userId, id, publicKey, now);
    PutsOnlyOne(s.devices, id, outcome.store.devices[id]);
    hide PutsOnly;
  }

  lemma ReauthorizeIsRefusedExactly(s: Store, userId: Uuid, id: Uuid, publicKey: string, now: u64)
    ensures var outcome := ReauthorizeDevice(s, userId, id, publicKey, now);
            if Trim(publicKey) == "" then outcome == Outcome(s, Failure(BadRequest))
            else if !(id in s.devices && s.devices[id].userId == userId) then outcome == Outcome(s, Failure(NotFound))
            else outcome.reply.Success?
  {
    hide Trim;
  }

  // ---- Deletions ----

  lemma DeletionIsRefusedExactly(s: Store, userId: Uuid, id: Uuid, now: u64, order: seq<Uuid>)
    ensures var outcome := DeleteDevice(s, userId, id, now, order);
            if id in s.devices && s.devices[id].userId == userId then outcome.reply == Success(())
            else outcome == Outcome(s, Failure(NotFound))
  {
    hide DeletedIds, KeysOfDeleted, PresentedKeysOfDeleted, OfflineEvents, ScopeOf, WithoutDevices;
  }

  /** The order of a deletion holds each deleted id once. */
  lemma EnumeratesEachOnce(order: seq<Uuid>, ids: set<Uuid>, d: Uuid)
    requires Enumerates(order, ids)
    ensures d in ids <==> exists i :: 0 <= i < |order| && order[i] == d
    ensures forall i, j :: 0 <= i < |order| && 0 <= j < |order| && order[i] == d && order[j] == d ==> i == j
  {
    assert d in ids ==> d in order;
  }

  lemma {:induction false} OfflineEventsExactly(presence: map<Uuid, Presence>, userId: Uuid, order: seq<Uuid>, i: nat)
    requires i < |order|
    ensures |OfflineEvents(presence, userId, order)| == |order|
    ensures OfflineEvents(presence, userId, order)[i]
         == PresenceChanged(userId, order[i], false, NextPresenceVersion(presence, order[i]))
  {
    hide NextPresenceVersion;
    if |order| > 1 {
      OfflineEventsExactly(presence, userId, order[1..], if i > 0 then i - 1 else 0);
    } else {
      assert order[1..] == [];
    }
  }

  /** A deletion publishes for each deleted device that it is offline, under the version after its last. */
  lemma DeletionPublishesExactly(
    s: Store, userId: Uuid, id: Uuid, now: u64, order: seq<Uuid>, i: nat)
    requires id in s.devices && s.devices[id].userId == userId && i < |order|
    ensures var events := DeleteDevice(s, userId, id, now, order).store.events;
            && s.events <= events && |events| == |s.events| + |order|
            && var e := events[|s.events| + i];
               && e.PresenceChanged? && e.userId == userId && e.deviceId == order[i] && !e.online
               && if order[i] in s.presence then IsNext(s.presence[order[i]].presenceVersion, e.presenceVersion)
                  else e.presenceVersion == 1
  {
    hide DeletedIds, KeysOfDeleted, PresentedKeysOfDeleted, OfflineEvents, ScopeOf, ClearedTopology;
    OfflineEventsExactly(s.presence, userId, order, i);
  }

  /** A deletion records the key of each deleted device under its id, and forgets no key. */
  lemma DeletionRecordsExactly(
    s: Store, userId: Uuid, id: Uuid, now: u64, order: seq<Uuid>, k: DeletedKey)
    requires id in s.devices && s.devices[id].userId == userId
    ensures k in DeleteDevice(s, userId, id, now, order).store.deletedKeys
       <==> || k in s.deletedKeys
            || exists d <- DeletedIds(s, userId, id, now) ::
                 d in s.devices && k == DeletedKey(userId, Some(d), s.devices[d].publicKey)
  {
    hide DeletedIds, PresentedKeysOfDeleted, OfflineEvents, ScopeOf, ClearedTopology;
  }

  /** A topology that named a deleted device has the next version and the time of the deletion. */
  lemma DeletionStampsTopologies(s: Store, userId: Uuid, id: Uuid, now: u64, order: seq<Uuid>, u: Uuid)
    requires id in s.devices && s.devices[id].userId == userId && u in s.topologies
    ensures var after := DeleteDevice(s, userId, id, now, order).store;
            u in after.topologies
            && var t := s.topologies[u];
               var named := exists d <- DeletedIds(s, userId, id, now) ::
                              Some(d) in [t.master, t.layout.left, t.layout.right, t.layout.top, t.layout.bottom];
               if named then
                 IsNext(t.topologyVersion, after.topologies[u].topologyVersion) && after.topologies[u].updatedAt == now
               else after.topologies[u] == t
  {
    hide DeletedIds, KeysOfDeleted, PresentedKeysOfDeleted, OfflineEvents, ScopeOf;
    var t := s.topologies[u];
    var slots := [t.master, t.layout.left, t.layout.right, t.layout.top, t.layout.bottom];
    assert slots[0] == t.master && slots[1] == t.layout.left && slots[2] == t.layout.right
        && slots[3] == t.layout.top && slots[4] == t.layout.bottom;
    NamesAnyExactly(t, DeletedIds(s, userId, id, now));
    hide NamesAny;
  }

  lemma NamesAnyExactly(t: Topology, ids: set<Uuid>)
    ensures NamesAny(t, ids)
       <==> exists d <- ids :: Some(d) in [t.master, t.layout.left, t.layout.right, t.layout.top, t.layout.bottom]
  {
    if NamesAny(t, ids) {
      var slot := if Holds(t.master, ids) then t.master
                  else if Holds(t.layout.left, ids) then t.layout.left
                  else if Holds(t.layout.right, ids) then t.layout.right
                  else if Holds(t.layout.top, ids) then t.layout.top
                  else t.layout.bottom;
      assert slot.value in ids
          && Some(slot.value) in [t.master, t.layout.left, t.layout.right, t.layout.top, t.layout.bottom];
    }
  }

  // ---- Topologies ----

  predicate IsMine(s: Store, userId: Uuid, id: Uuid) {
    id in s.devices && s.devices[id].userId == userId
  }

  lemma OwnsAllExactly(s: Store, userId: Uuid, master: Option<Uuid>, layout: Layout)
    ensures OwnsAll(s.devices, userId, master, layout)
       <==> forall d :: Some(d) in [master, layout.left, layout.right, layout.top, layout.bottom]
                        ==> IsMine(s, userId, d)
  {
    if OwnsAll(s.devices, userId, master, layout) {
    } else {
      var slots := [master, layout.left, layout.right, layout.top, layout.bottom];
      var slot := if !OwnsSlot(s.devices, userId, master) then master
                  else if !OwnsSlot(s.devices, userId, layout.left) then layout.left
                  else if !OwnsSlot(s.devices, userId, layout.right) then layout.right
                  else if !OwnsSlot(s.devices, userId, layout.top) then layout.top
                  else layout.bottom;
      assert Some(slot.value) in slots && !IsMine(s, userId, slot.value);
    }
  }

  /** A layout is stored slot by slot if every device it names is the user's, and refused otherwise. */
  lemma TopologyStoresExactly(s: Store, userId: Uuid, master: Option<Uuid>, layout: Layout, now: u64)
    ensures var outcome := UpsertTopology(s, userId, master, layout, now);
            var after := outcome.store;
            if forall d :: Some(d) in [master, layout.left, layout.right, layout.top, layout.bottom]
                           ==> IsMine(s, userId, d)
            then
              && userId in after.topologies
              && var t := after.topologies[userId];
                 && t.master == master && t.updatedAt == now
                 && t.layout.left == layout.left && t.layout.right == layout.right
                 && t.layout.top == layout.top && t.layout.bottom == layout.bottom
                 && (if userId in s.topologies then IsNext(s.topologies[userId].topologyVersion, t.topologyVersion)
                     else t.topologyVersion == 1)
                 && outcome.reply == Success(t)
                 && PutsOnly(s.topologies, after.topologies, userId, t)
                 && after == s.(topologies := after.topologies,
                                events := s.events + [TopologyChanged(userId, t.topologyVersion)])
            else outcome == Outcome(s, Failure(NotFound))
  {
    OwnsAllExactly(s, userId, master, layout);
    hide OwnsAll, IsMine;
    var after := UpsertTopology(s, userId, master, layout, now).store;
    if userId in after.topologies {
      PutsOnlyOne(s.topologies, userId, after.topologies[userId]);
    }
    hide PutsOnly;
  }

  // ---- Profiles ----

  /** What storing a configuration leaves: the next version and revision, the event, and the record it replaces. */
  ghost predicate StoresConfig(s: Store, outcome: Outcome<Profile>, id: ProfileId, config: string, now: u64) {
    var after := outcome.store;
    && id in after.profiles
    && var p := after.profiles[id];
       && p.id == id && p.config == config && p.updatedAt == now
       && (if id in s.profiles then IsNext(s.profiles[id].version, p.version) else p.version == 1)
       && IsNext(s.profileRevision, p.revision) && after.profileRevision == p.revision
       && outcome.reply == Success(p)
       && PutsOnly(s.profiles, after.profiles, id, p)
       && after.events == s.events + [ProfileChanged(id.userId, p)]
       && (if id in s.profiles
           then PutsOnly(s.profileHistory, after.profileHistory, id,
                         (if id in s.profileHistory then s.profileHistory[id] else []) + [s.profiles[id]])
           else after.profileHistory == s.profileHistory)
       && after == s.(profiles := after.profiles, profileHistory := after.profileHistory,
                      profileRevision := after.profileRevision, events := after.events)
  }

  lemma StoringStores(s: Store, id: ProfileId, config: string, version: u64, now: u64)
    requires if id in s.profiles then IsNext(s.profiles[id].version, version) else version == 1
    ensures StoresConfig(s, StoreProfile(s, id, config, version, now), id, config, now)
  {
    var after := StoreProfile(s, id, config, version, now).store;
    PutsOnlyOne(s.profiles, id, after.profiles[id]);
    if id in s.profiles {
      PutsOnlyOne(s.profileHistory, id, after.profileHistory[id]);
    }
    hide PutsOnly;
  }

  lemma UpsertStoresExactly(
    s: Store, userId: Uuid, source: Uuid, target: Uuid, expected: Option<u64>, config: string, now: u64)
    ensures var outcome := UpsertProfile(s, userId, source, target, expected, config, now);
            var id := ProfileId(userId, source, target);
            if !IsMine(s, userId, source) || !IsMine(s, userId, target) then
              outcome == Outcome(s, Failure(NotFound))
            else if id in s.profiles && expected.Some? && expected.value != s.profiles[id].version then
              outcome == Outcome(s, Failure(Conflict))
            else StoresConfig(s, outcome, id, config, now)
  {
    hide StoresConfig, StoreProfile;
    var id := ProfileId(userId, source, target);
    StoringStores(s, id, config, if id in s.profiles then SaturatingAdd(s.profiles[id].version, 1) else 1, now);
  }

  /** `p` is the record of a version: the stored one if that has it, else the oldest in the history that has. */
  ghost predicate IsVersion(s: Store, id: ProfileId, version: u64, p: Profile) {
    if id in s.profiles && s.profiles[id].version == version then p == s.profiles[id]
    else
      id in s.profileHistory
      && var history := s.profileHistory[id];
         exists n :: 0 <= n < |history| && history[n] == p && p.version == version
                     && forall m :: 0 <= m < n ==> history[m].version != version
  }

  lemma {:induction false} FirstVersionExactly(history: seq<Profile>, version: u64)
    ensures match FirstVersion(history, version)
            case Some(p) => exists n :: 0 <= n < |history| && history[n] == p && p.version == version
                                        && forall m :: 0 <= m < n ==> history[m].version != version
            case None => forall m :: 0 <= m < |history| ==> history[m].version != version
  {
    if history != [] && history[0].version != version {
      var rest := history[1..];
      FirstVersionExactly(rest, version);
      match FirstVersion(rest, version)
      case Some(p) =>
        var n :| 0 <= n < |rest| && rest[n] == p && p.version == version
                 && forall m :: 0 <= m < n ==> rest[m].version != version;
        assert history[n + 1] == p;
        forall m | 0 <= m < n + 1 ensures history[m].version != version {
          assert m > 0 ==> history[m] == rest[m - 1];
        }
      case None =>
        forall m | 0 <= m < |history| ensures history[m].version != version {
          assert m > 0 ==> history[m] == rest[m - 1];
        }
    }
  }

  lemma VersionIsFound(s: Store, id: ProfileId, version: u64, p: Profile)
    ensures IsVersion(s, id, version, p) <==> ProfileVersion(s, id, version) == Some(p)
  {
    hide FirstVersion;
    FirstVersionExactly(History(s, id), version);
    var history := History(s, id);
    if FirstVersion(history, version).Some? {
      var q := FirstVersion(history, version).value;
      var n :| 0 <= n < |history| && history[n] == q && q.version == version
               && forall m :: 0 <= m < n ==> history[m].version != version;
      forall m | 0 <= m < |history| && history[m].version == version
                 && forall k :: 0 <= k < m ==> history[k].version != version
        ensures m == n
      {
      }
    }
  }

  /** A rollback stores the configuration of the version it names, if the profile is the user's and has that version. */
  lemma RollbackStoresExactly(s: Store, userId: Uuid, id: ProfileId, version: u64, now: u64)
    ensures var outcome := RollbackProfile(s, userId, id, version, now);
            if outcome.reply.Success? then
              id in s.profiles && id.userId == userId
              && exists p :: IsVersion(s, id, version, p) && p.id.userId == userId
                             && StoresConfig(s, outcome, id, p.config, now)
            else
              && outcome == Outcome(s, Failure(NotFound))
              && (id in s.profiles && id.userId == userId ==>
                    forall p :: IsVersion(s, id, version, p) ==> p.id.userId != userId)
  {
    hide StoresConfig, ProfileVersion, IsVersion;
    forall p ensures IsVersion(s, id, version, p) <==> ProfileVersion(s, id, version) == Some(p) {
      VersionIsFound(s, id, version, p);
    }
    if id in s.profiles && ProfileVersion(s, id, version).Some? {
      var p := ProfileVersion(s, id, version).value;
      assert IsVersion(s, id, version, p);
      StoringStores(s, id, p.config, SaturatingAdd(s.profiles[id].version, 1), now);
    }
  }
}
