/**
 The server's store as the handlers change it in place
 (crates/kmsync-server/src/main.rs). Each handler is proved against its step in
 `StoreSteps`; the laws of runs are proved there on the steps.
 */
module StoreService {
  import opened Bytes
  import opened PresenceClock
  import opened ProfileSync
  import opened ServerData
  import opened StoreSteps
  import opened Text
  import opened Wrappers

  lemma {:induction false} OfflineEventsSnoc(
    presence: map<Uuid, Presence>, userId: Uuid, order: seq<Uuid>, d: Uuid)
    ensures OfflineEvents(presence, userId, order + [d])
         == OfflineEvents(presence, userId, order)
            + [PresenceChanged(userId, d, false, NextPresenceVersion(presence, d))]
  {
    hide NextPresenceVersion;
    if order != [] {
      assert (order + [d])[1..] == order[1..] + [d];
      OfflineEventsSnoc(presence, userId, order[1..], d);
    } else {
      assert [d][1..] == [];
    }
  }

  lemma NoKeysOfDeleted(devices: map<Uuid, Device>, presence: map<Uuid, Presence>, userId: Uuid)
    ensures KeysOfDeleted(devices, userId, {}) == {} && PresentedKeysOfDeleted(devices, presence, userId, {}) == {}
  {
  }

  lemma KeysOfDeletedGrow(
    devices: map<Uuid, Device>, presence: map<Uuid, Presence>, userId: Uuid, ids: set<Uuid>, d: Uuid)
    requires d in devices
    ensures KeysOfDeleted(devices, userId, ids + {d})
         == KeysOfDeleted(devices, userId, ids) + {DeletedKey(userId, Some(d), devices[d].publicKey)}
    ensures PresentedKeysOfDeleted(devices, presence, userId, ids + {d})
         == PresentedKeysOfDeleted(devices, presence, userId, ids) + PresentedKeysOf(devices, presence, userId, d)
  {
    hide PresentedKeysOf;
  }

  ghost predicate IsKeyed(profiles: map<ProfileId, Profile>) {
    forall p <- profiles :: profiles[p].id == p
  }

  ghost predicate IsByRevision(profiles: seq<Profile>) {
    forall i, j :: 0 <= i < j < |profiles| ==> profiles[i].revision <= profiles[j].revision
  }

  /** Each profile of the map, once. */
  ghost predicate Lists(list: seq<Profile>, profiles: map<ProfileId, Profile>) {
    multiset(list) == multiset(profiles.Values)
  }

  ghost function ChangesAmong(profiles: map<ProfileId, Profile>, ids: set<ProfileId>, userId: Uuid, since: u64)
    : map<ProfileId, Profile>
  {
    map p | p in profiles && p in ids && p.userId == userId && profiles[p].revision > since :: profiles[p]
  }

  lemma NoChangesAmong(profiles: map<ProfileId, Profile>, userId: Uuid, since: u64)
    ensures ChangesAmong(profiles, {}, userId, since) == map[]
  {
  }

  lemma AllChangesAmong(profiles: map<ProfileId, Profile>, userId: Uuid, since: u64)
    ensures ChangesAmong(profiles, profiles.Keys, userId, since) == ChangesSince(profiles, userId, since)
  {
  }

  lemma ChangesAmongGrow(
    profiles: map<ProfileId, Profile>, ids: set<ProfileId>, id: ProfileId, userId: Uuid, since: u64)
    requires id in profiles && IsKeyed(profiles)
    ensures ChangesAmong(profiles, ids + {id}, userId, since)
         == if id.userId == userId && profiles[id].revision > since
            then ChangesAmong(profiles, ids, userId, since)[id := profiles[id]]
            else ChangesAmong(profiles, ids, userId, since)
    ensures id !in ids ==> id !in ChangesAmong(profiles, ids, userId, since)
    ensures IsKeyed(ChangesAmong(profiles, ids, userId, since))
  {
  }

  lemma InsertionCounts(sorted: seq<Profile>, at: nat, p: Profile)
    requires at <= |sorted|
    ensures multiset(sorted[..at] + [p] + sorted[at..]) == multiset(sorted) + multiset{p}
  {
    assert sorted == sorted[..at] + sorted[at..];
  }

  lemma InsertionIsByRevision(sorted: seq<Profile>, at: nat, p: Profile)
    requires IsByRevision(sorted) && at <= |sorted|
    requires at > 0 ==> sorted[at - 1].revision <= p.revision
    requires forall k :: at <= k < |sorted| ==> p.revision < sorted[k].revision
    ensures IsByRevision(sorted[..at] + [p] + sorted[at..])
  {
    var all := sorted[..at] + [p] + sorted[at..];
    forall i | 0 <= i < |all| ensures all[i] == if i < at then sorted[i] else if i == at then p else sorted[i - 1] {
    }
  }

  lemma ListsOneMore(
    list: seq<Profile>, longer: seq<Profile>, p: Profile, before: map<ProfileId, Profile>,
    after: map<ProfileId, Profile>)
    requires IsKeyed(before) && Lists(list, before) && multiset(longer) == multiset(list) + multiset{p}
    requires p.id !in before && after == before[p.id := p]
    ensures Lists(longer, after)
  {
    forall v ensures v in after.Values <==> v in before.Values || v == p {
      if v in before.Values {
        assert before[v.id] == v && after[v.id] == v;
      }
      assert after[p.id] == p;
    }
    assert after.Values == before.Values + {p};
    assert p !in before.Values;
  }

  /** What is listed when `rest` is still to be looked at. */
  ghost predicate HasListed(
    all: map<ProfileId, Profile>, rest: set<ProfileId>, userId: Uuid, since: u64, changed: seq<Profile>)
  {
    IsByRevision(changed) && Lists(changed, ChangesAmong(all, all.Keys - rest, userId, since))
  }

  lemma NothingListed(all: map<ProfileId, Profile>, userId: Uuid, since: u64)
    ensures HasListed(all, all.Keys, userId, since, [])
  {
    NoChangesAmong(all, userId, since);
    assert all.Keys - all.Keys == {};
    assert Lists([], map[]);
    hide ChangesAmong, Lists;
  }

  lemma HasListedSorted(
    all: map<ProfileId, Profile>, rest: set<ProfileId>, userId: Uuid, since: u64, changed: seq<Profile>)
    requires HasListed(all, rest, userId, since, changed)
    ensures IsByRevision(changed)
  {
  }

  lemma OneMoreListed(
    all: map<ProfileId, Profile>, rest: set<ProfileId>, id: ProfileId, userId: Uuid, since: u64,
    changed: seq<Profile>, longer: seq<Profile>)
    requires IsKeyed(all) && rest <= all.Keys && id in rest && HasListed(all, rest, userId, since, changed)
    requires if all[id].id.userId == userId && all[id].revision > since
             then IsByRevision(longer) && multiset(longer) == multiset(changed) + multiset{all[id]}
             else longer == changed
    ensures HasListed(all, rest - {id}, userId, since, longer)
  {
    var walked := all.Keys - rest;
    assert all.Keys - (rest - {id}) == walked + {id};
    ChangesAmongGrow(all, walked, id, userId, since);
    assert all[id].id == id;
    var among := ChangesAmong(all, walked, userId, since);
    hide Lists, ChangesAmong, IsByRevision, IsKeyed;
    if id.userId == userId && all[id].revision > since {
      ListsOneMore(changed, longer, all[id], among, among[id := all[id]]);
    }
  }

  lemma AllListed(all: map<ProfileId, Profile>, userId: Uuid, since: u64, changed: seq<Profile>)
    requires HasListed(all, {}, userId, since, changed)
    ensures IsByRevision(changed) && Lists(changed, ChangesSince(all, userId, since))
  {
    AllChangesAmong(all, userId, since);
    assert all.Keys - {} == all.Keys;
    hide Lists, ChangesAmong, ChangesSince;
  }

  class ServerStore {
    var devices: map<Uuid, Device>
    var presence: map<Uuid, Presence>
    var topologies: map<Uuid, Topology>
    var profiles: map<ProfileId, Profile>
    var profileHistory: map<ProfileId, seq<Profile>>
    var deletedKeys: set<DeletedKey>
    var deletedPresented: set<PresentedKey>
    var profileRevision: u64
    var events: seq<ServerEvent>

    function View(): Store
      reads this
    {
      Store(devices, presence, topologies, profiles, profileHistory, deletedKeys, deletedPresented, profileRevision,
            events)
    }

    constructor ()
      ensures View() == EMPTY
    {
      devices, presence, topologies, profiles, profileHistory := map[], map[], map[], map[], map[];
      deletedKeys, deletedPresented, profileRevision, events := {}, {}, 0, [];
    }

    // ---- Registration ----

    /** `deleted_device_key_decision`: the outcome is the same whatever order the set is walked in. */
    method DecideDeletedKey(userId: Uuid, requested: Uuid, publicKey: string) returns (decision: KeyDecision)
      ensures decision == DecideKey(deletedKeys, userId, requested, publicKey)
    {
      decision := NotDeleted;
      var rest := deletedKeys;
      while rest != {}
        invariant rest <= deletedKeys
        invariant forall k <- deletedKeys :: k !in rest && KeyMatches(k, userId, publicKey) ==>
                    k.deviceId.None? || k.deviceId.value == requested
        invariant decision
               == if exists k <- deletedKeys :: k !in rest && KeyMatches(k, userId, publicKey)
                  then ReactivateSameIdentity else NotDeleted
        decreases |rest|
      {
        var k :| k in rest;
        rest := rest - {k};
        if KeyMatches(k, userId, publicKey) {
          if k.deviceId.Some? && k.deviceId.value != requested {
            return BlockDuplicateIdentity;
          }
          decision := ReactivateSameIdentity;
        }
      }
    }

    method FindHolder(userId: Uuid, publicKey: string) returns (found: Option<Uuid>)
      ensures IsHolder(devices, userId, publicKey, found)
    {
      if exists id <- devices :: HasKey(devices, id, userId, publicKey) {
        var id :| id in devices && HasKey(devices, id, userId, publicKey);
        found := Some(id);
      } else {
        found := None;
      }
    }

    method RegisterDevice(userId: Uuid, request: RegisterRequest, requested: Uuid, now: u64)
      returns (reply: Result<Uuid, ApiError>, ghost found: Option<Uuid>)
      modifies this
      ensures IsHolder(old(devices), userId, request.publicKey, found)
      ensures Outcome(View(), reply) == StoreSteps.RegisterDevice(old(View()), userId, request, requested, found, now)
    {
      hide DecideKey, IsHolder, KeysWithout, PresentedWithout, Trim, Normalize;
      var holder := FindHolder(userId, request.publicKey);
      found := holder;
      if Trim(request.name) == "" {
        return Failure(BadRequest), found;
      }
      var decision := DecideDeletedKey(userId, requested, request.publicKey);
      if requested !in devices && decision.BlockDuplicateIdentity? {
        return Failure(Forbidden), found;
      }
      var id := if requested in devices || holder.None? then requested else holder.value;
      if id in devices {
        var d := devices[id];
        if d.userId != userId || d.publicKey != request.publicKey {
          return Failure(Conflict), found;
        }
        devices := devices[id := RefreshedDevice(d, request, now)];
      } else {
        devices := devices[id := NewDevice(userId, request, now)];
      }
      deletedKeys := KeysWithout(deletedKeys, userId, id, request.publicKey);
      if decision.ReactivateSameIdentity? {
        deletedPresented := PresentedWithout(deletedPresented, userId, request.name, request.osType);
      }
      reply := Success(id);
    }

    method UpdateDevice(userId: Uuid, id: Uuid, request: UpdateRequest, now: u64)
      returns (reply: Result<Device, ApiError>)
      modifies this`devices, this`events
      ensures Outcome(View(), reply) == StoreSteps.UpdateDevice(old(View()), userId, id, request, now)
    {
      hide Trim;
      if !Owns(devices, userId, id) {
        return Failure(NotFound);
      }
      var d := devices[id];
      var device, changed := d, false;
      if request.name.Some? {
        if Trim(request.name.value) == "" {
          return Failure(BadRequest);
        }
        if device.name != request.name.value {
          device := device.(name := request.name.value, nameVersion := SaturatingAdd(device.nameVersion, 1));
          changed := true;
        }
      }
      if request.disabled.Some? && device.disabled != request.disabled.value {
        device := device.(disabled := request.disabled.value);
        changed := true;
      }
      if changed {
        device := device.(updatedAt := now, deviceVersion := SaturatingAdd(device.deviceVersion, 1));
      }
      devices := devices[id := device];
      if changed {
        events := events + [DeviceEvent(id, device)];
      }
      reply := Success(device);
    }

    method ReauthorizeDevice(userId: Uuid, id: Uuid, publicKey: string, now: u64)
      returns (reply: Result<Device, ApiError>)
      modifies this`devices, this`events
      ensures Outcome(View(), reply) == StoreSteps.ReauthorizeDevice(old(View()), userId, id, publicKey, now)
    {
      hide Trim;
      if Trim(publicKey) == "" {
        return Failure(BadRequest);
      }
      if !Owns(devices, userId, id) {
        return Failure(NotFound);
      }
      var device := devices[id];
      device := device.(publicKey := publicKey, disabled := false, updatedAt := now,
                        deviceVersion := SaturatingAdd(device.deviceVersion, 1));
      devices := devices[id := device];
      events := events + [DeviceEvent(id, device)];
      reply := Success(device);
    }

    // ---- Deletion ----

    /** Walks the deleted devices, gathering their tombstones. */
    method GatherDeleted(userId: Uuid, ids: set<Uuid>, scope: DeletionScope)
      returns (keys: set<DeletedKey>, presented: set<PresentedKey>)
      requires ids <= devices.Keys
      ensures keys == KeysOfDeleted(devices, userId, ids)
      ensures presented == if scope.PresentedDevice?
                           then PresentedKeysOfDeleted(devices, presence, userId, ids) else {}
    {
      NoKeysOfDeleted(devices, presence, userId);
      hide KeysOfDeleted, PresentedKeysOfDeleted, PresentedKeys;
      keys, presented := {}, {};
      var rest := ids;
      ghost var walked := {};
      while rest != {}
        invariant walked + rest == ids
        invariant keys == KeysOfDeleted(devices, userId, walked)
        invariant presented == if scope.PresentedDevice?
                               then PresentedKeysOfDeleted(devices, presence, userId, walked) else {}
        decreases |rest|
      {
        var d :| d in rest;
        KeysOfDeletedGrow(devices, presence, userId, walked, d);
        walked, rest := walked + {d}, rest - {d};
        keys := keys + {DeletedKey(userId, Some(d), devices[d].publicKey)};
        if scope.PresentedDevice? && d in presence {
          var p := presence[d];
          presented := presented + PresentedKeys(userId, devices[d], p.lanIps, p.publicIp, p.listenPort);
        }
      }
      assert walked == ids;
    }

    method RemoveDevices(ids: set<Uuid>)
      modifies this`devices, this`presence
      ensures devices == old(devices) - ids && presence == old(presence) - ids
    {
      var rest := ids;
      while rest != {}
        invariant rest <= ids
        invariant devices == old(devices) - (ids - rest) && presence == old(presence) - (ids - rest)
        decreases |rest|
      {
        var d :| d in rest;
        rest := rest - {d};
        devices, presence := devices - {d}, presence - {d};
      }
    }

    static method ClearSlot(slot: Option<Uuid>, ids: set<Uuid>) returns (r: Option<Uuid>, cleared: bool)
      ensures r == Cleared(slot, ids) && cleared == Holds(slot, ids)
    {
      if slot.Some? && slot.value in ids {
        return None, true;
      }
      return slot, false;
    }

    static method ClearTopology(t: Topology, ids: set<Uuid>, now: u64) returns (r: Topology)
      ensures r == ClearedTopology(t, ids, now)
    {
      var master, changed := ClearSlot(t.master, ids);
      var left, leftChanged := ClearSlot(t.layout.left, ids);
      var right, rightChanged := ClearSlot(t.layout.right, ids);
      var top, topChanged := ClearSlot(t.layout.top, ids);
      var bottom, bottomChanged := ClearSlot(t.layout.bottom, ids);
      r := t.(master := master, layout := Layout(left, right, top, bottom));
      if changed || leftChanged || rightChanged || topChanged || bottomChanged {
        r := r.(topologyVersion := SaturatingAdd(r.topologyVersion, 1), updatedAt := now);
      }
    }

    method ClearTopologies(ids: set<Uuid>, now: u64)
      modifies this`topologies
      ensures topologies == map u | u in old(topologies) :: ClearedTopology(old(topologies)[u], ids, now)
    {
      hide ClearedTopology;
      var rest := topologies.Keys;
      while rest != {}
        invariant rest <= old(topologies).Keys && topologies.Keys == old(topologies).Keys
        invariant forall u <- rest :: topologies[u] == old(topologies)[u]
        invariant forall u <- topologies ::
                    u !in rest ==> topologies[u] == ClearedTopology(old(topologies)[u], ids, now)
        decreases |rest|
      {
        var u :| u in rest;
        rest := rest - {u};
        var t := ClearTopology(topologies[u], ids, now);
        topologies := topologies[u := t];
      }
    }

    /** Publishes in whatever order the set is walked. */
    method PublishDeletion(userId: Uuid, ids: set<Uuid>, versions: map<Uuid, Presence>) returns (order: seq<Uuid>)
      modifies this`events
      ensures Enumerates(order, ids)
      ensures events == old(events) + OfflineEvents(versions, userId, order)
    {
      hide NextPresenceVersion;
      order := [];
      var rest := ids;
      assert OfflineEvents(versions, userId, []) == [];
      hide OfflineEvents;
      while rest != {}
        invariant rest <= ids && Enumerates(order, ids - rest)
        invariant events == old(events) + OfflineEvents(versions, userId, order)
        decreases |rest|
      {
        var d :| d in rest;
        rest := rest - {d};
        OfflineEventsSnoc(versions, userId, order, d);
        order := order + [d];
        events := events + [PresenceChanged(userId, d, false, NextPresenceVersion(versions, d))];
      }
    }

    /** Everything of a deletion up to its announcement. */
    method Remove(userId: Uuid, ids: set<Uuid>, scope: DeletionScope, now: u64)
      requires ids <= devices.Keys
      modifies this
      ensures View()
           == WithoutDevices(old(View()), ids, now).(
                deletedKeys := old(deletedKeys) + KeysOfDeleted(old(devices), userId, ids),
                deletedPresented :=
                  old(deletedPresented)
                  + if scope.PresentedDevice?
                    then PresentedKeysOfDeleted(old(devices), old(presence), userId, ids) else {})
    {
      hide ClearedTopology, KeysOfDeleted, PresentedKeysOfDeleted;
      var keys, presented := GatherDeleted(userId, ids, scope);
      deletedKeys, deletedPresented := deletedKeys + keys, deletedPresented + presented;
      RemoveDevices(ids);
      ClearTopologies(ids, now);
      profiles := map p | p in profiles && p.source !in ids && p.target !in ids :: profiles[p];
    }

    method DeleteDevice(userId: Uuid, id: Uuid, now: u64)
      returns (reply: Result<(), ApiError>, order: seq<Uuid>)
      modifies this
      ensures Outcome(View(), reply) == StoreSteps.DeleteDevice(old(View()), userId, id, now, order)
      ensures Owns(old(devices), userId, id) ==> Enumerates(order, DeletedIds(old(View()), userId, id, now))
    {
      hide SharesIdentity, OnlineIn, ClearedTopology, KeysOfDeleted, PresentedKeysOfDeleted, OfflineEvents, Enumerates;
      if !Owns(devices, userId, id) {
        return Failure(NotFound), [];
      }
      var scope, ids, before := ScopeOf(View(), userId, id, now), DeletedIds(View(), userId, id, now), presence;
      assert ids <= devices.Keys;
      hide ScopeOf, DeletedIds;
      Remove(userId, ids, scope, now);
      order := PublishDeletion(userId, ids, before);
      reply := Success(());
    }

    // ---- Presence ----

    method Heartbeat(userId: Uuid, id: Uuid, request: HeartbeatRequest, publicIp: string, now: u64)
      returns (reply: Result<HeartbeatReply, ApiError>)
      modifies this`devices, this`presence, this`events
      ensures Outcome(View(), reply) == StoreSteps.Heartbeat(old(View()), userId, id, request, publicIp, now)
    {
      hide PresentedKeys, IsOnlineAt;
      if !Owns(devices, userId, id) {
        return Failure(NotFound);
      }
      var device := devices[id];
      if device.disabled {
        return Failure(Forbidden);
      }
      var keys := PresentedKeys(userId, device, request.lanIps, publicIp, request.listenPort);
      if exists k <- keys :: k in deletedPresented {
        devices, presence := devices - {id}, presence - {id};
        return Failure(Forbidden);
      }
      var natType := if request.natType.Some? then request.natType.value else "unknown";
      var version, shouldPublish := 1, true;
      if id in presence {
        var previous := presence[id];
        var changed := previous.lanIps != request.lanIps || previous.listenPort != request.listenPort
                       || previous.natType != natType || previous.display != request.display;
        var wasOnline := IsOnlineAt(previous, now);
        version :=
          if wasOnline && !changed then previous.presenceVersion else SaturatingAdd(previous.presenceVersion, 1);
        shouldPublish := !wasOnline || changed;
      }
      presence := presence[id :=
        Presence(userId, true, request.lanIps, publicIp, request.listenPort, natType, now,
                 SaturatingAdd(now, PRESENCE_TTL_SECONDS), version, request.display)];
      if shouldPublish {
        events := events + [PresenceChanged(userId, id, true, version)];
      }
      reply := Success(HeartbeatReply(true, now, version));
    }

    method MarkDeviceOffline(userId: Uuid, id: Uuid, now: u64) returns (reply: Result<HeartbeatReply, ApiError>)
      modifies this`presence, this`events
      ensures Outcome(View(), reply) == StoreSteps.MarkDeviceOffline(old(View()), userId, id, now)
    {
      hide IsOnlineAt;
      if !Owns(devices, userId, id) {
        return Failure(NotFound);
      }
      if id !in presence {
        return Success(HeartbeatReply(false, now, 1));
      }
      var p := presence[id];
      var wasOnline := IsOnlineAt(p, now);
      p := p.(online := false, expiresAt := now, presenceVersion := SaturatingAdd(p.presenceVersion, 1));
      presence := presence[id := p];
      if wasOnline {
        events := events + [PresenceChanged(userId, id, false, p.presenceVersion)];
      }
      reply := Success(HeartbeatReply(false, p.lastSeenAt, p.presenceVersion));
    }

    // ---- Topologies ----

    method UpsertTopology(userId: Uuid, master: Option<Uuid>, layout: Layout, now: u64)
      returns (reply: Result<Topology, ApiError>)
      modifies this`topologies, this`events
      ensures Outcome(View(), reply) == StoreSteps.UpsertTopology(old(View()), userId, master, layout, now)
    {
      if master.Some? && !Owns(devices, userId, master.value) {
        return Failure(NotFound);
      }
      var slots := [layout.left, layout.right, layout.top, layout.bottom];
      for i := 0 to |slots|
        invariant forall k :: 0 <= k < i ==> OwnsSlot(devices, userId, slots[k])
      {
        if slots[i].Some? && !Owns(devices, userId, slots[i].value) {
          assert !OwnsSlot(devices, userId, slots[i]);
          return Failure(NotFound);
        }
      }
      assert forall k :: 0 <= k < 4 ==> OwnsSlot(devices, userId, slots[k]);
      assert slots[0] == layout.left && slots[1] == layout.right && slots[2] == layout.top && slots[3] == layout.bottom;
      var version := if userId in topologies then SaturatingAdd(topologies[userId].topologyVersion, 1) else 1;
      var t := Topology(master, layout, version, now);
      topologies := topologies[userId := t];
      events := events + [TopologyChanged(userId, version)];
      reply := Success(t);
    }

    // ---- Profiles ----

    /** Archives what is stored under `id` and stores `config` in its place. */
    method Replace(id: ProfileId, config: string, version: u64, now: u64) returns (profile: Profile)
      modifies this`profiles, this`profileHistory, this`profileRevision, this`events
      ensures Outcome(View(), Success(profile)) == StoreProfile(old(View()), id, config, version, now)
    {
      if id in profiles {
        profileHistory := profileHistory[id := History(View(), id) + [profiles[id]]];
      }
      profileRevision := SaturatingAdd(profileRevision, 1);
      profile := Profile(id, config, version, profileRevision, now);
      profiles := profiles[id := profile];
      events := events + [ProfileChanged(id.userId, profile)];
    }

    method UpsertProfile(
      userId: Uuid, source: Uuid, target: Uuid, expected: Option<u64>, config: string, now: u64)
      returns (reply: Result<Profile, ApiError>)
      modifies this`profiles, this`profileHistory, this`profileRevision, this`events
      ensures Outcome(View(), reply)
           == StoreSteps.UpsertProfile(old(View()), userId, source, target, expected, config, now)
    {
      hide StoreProfile;
      if !Owns(devices, userId, source) {
        return Failure(NotFound);
      }
      if !Owns(devices, userId, target) {
        return Failure(NotFound);
      }
      var id := ProfileId(userId, source, target);
      var existing := Find(profiles, id);
      if expected.Some? && existing.Some? && expected.value != existing.value.version {
        return Failure(Conflict);
      }
      var version := if existing.Some? then SaturatingAdd(existing.value.version, 1) else 1;
      var profile := Replace(id, config, version, now);
      reply := Success(profile);
    }

    method FindVersion(id: ProfileId, version: u64) returns (found: Option<Profile>)
      ensures found == ProfileVersion(View(), id, version)
    {
      if id in profiles && profiles[id].version == version {
        return Some(profiles[id]);
      }
      var history := History(View(), id);
      hide History;
      var i := 0;
      assert history[0..] == history;
      while i < |history|
        invariant 0 <= i <= |history|
        invariant FirstVersion(history, version) == FirstVersion(history[i..], version)
      {
        assert history[i..][1..] == history[i + 1..];
        if history[i].version == version {
          return Some(history[i]);
        }
        i := i + 1;
      }
      return None;
    }

    method RollbackProfile(userId: Uuid, id: ProfileId, version: u64, now: u64)
      returns (reply: Result<Profile, ApiError>)
      modifies this`profiles, this`profileHistory, this`profileRevision, this`events
      ensures Outcome(View(), reply) == StoreSteps.RollbackProfile(old(View()), userId, id, version, now)
    {
      hide StoreProfile, ProfileVersion;
      if id !in profiles || id.userId != userId {
        return Failure(NotFound);
      }
      var target := FindVersion(id, version);
      if target.None? || target.value.id.userId != userId {
        return Failure(NotFound);
      }
      var profile := Replace(id, target.value.config, SaturatingAdd(profiles[id].version, 1), now);
      reply := Success(profile);
    }

    static method InsertByRevision(sorted: seq<Profile>, p: Profile) returns (r: seq<Profile>)
      requires IsByRevision(sorted)
      ensures multiset(r) == multiset(sorted) + multiset{p} && IsByRevision(r)
    {
      var at := |sorted|;
      while at > 0 && p.revision < sorted[at - 1].revision
        invariant 0 <= at <= |sorted|
        invariant forall k :: at <= k < |sorted| ==> p.revision < sorted[k].revision
      {
        at := at - 1;
      }
      InsertionCounts(sorted, at, p);
      InsertionIsByRevision(sorted, at, p);
      hide IsByRevision;
      r := sorted[..at] + [p] + sorted[at..];
    }

    static method Changes(all: map<ProfileId, Profile>, userId: Uuid, since: u64) returns (changed: seq<Profile>)
      requires IsKeyed(all)
      ensures IsByRevision(changed) && Lists(changed, ChangesSince(all, userId, since))
    {
      hide HasListed, Lists, IsByRevision, ChangesSince, IsKeyed;
      changed := [];
      var rest := all.Keys;
      NothingListed(all, userId, since);
      while rest != {}
        invariant rest <= all.Keys && HasListed(all, rest, userId, since, changed)
        decreases |rest|
      {
        var id :| id in rest;
        var p := all[id];
        ghost var before := changed;
        HasListedSorted(all, rest, userId, since, changed);
        if p.id.userId == userId && p.revision > since {
          changed := InsertByRevision(changed, p);
        }
        OneMoreListed(all, rest, id, userId, since, before, changed);
        rest := rest - {id};
      }
      AllListed(all, userId, since, changed);
    }

    /** The profiles changed after a cursor, oldest change first, and the cursor to ask with next. */
    method ListProfileChanges(userId: Uuid, sinceRevision: Option<u64>)
      returns (revision: u64, changed: seq<Profile>)
      requires IsKeyed(profiles)
      ensures revision == profileRevision
      ensures IsByRevision(changed)
      ensures var since := if sinceRevision.Some? then sinceRevision.value else 0;
              Lists(changed, ChangesSince(profiles, userId, since))
    {
      var since := if sinceRevision.Some? then sinceRevision.value else 0;
      changed := Changes(profiles, userId, since);
      revision := profileRevision;
    }
  }
}
