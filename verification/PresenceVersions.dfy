/**
 Presence versions: what a device announces about itself never changes under one
 version, and the versions published for it rise for as long as it is registered.
 */
module PresenceVersions {
  import opened Bytes
  import opened LiveReferences
  import opened PresenceClock
  import opened ServerData
  import opened StoreSteps
  import opened Text

  // ---- Whose presence ----

  lemma DeviceStepKeepsPresence(s: Store, step: Step)
    requires PresenceIsOwned(s.devices, s.presence) && (step.Register? || step.Update? || step.Reauthorize?)
    ensures PresenceIsOwned(Apply(s, step).devices, Apply(s, step).presence)
  {
    hide RegisterDevice, UpdateDevice, ReauthorizeDevice;
    match step
    case Register(userId, request, requested, found, now) =>
      RegisterKeepsOwners(s, userId, request, requested, found, now);
    case Update(userId, id, request, now) => UpdateKeepsOwners(s, userId, id, request, now);
    case Reauthorize(userId, id, publicKey, now) => ReauthorizeKeepsOwners(s, userId, id, publicKey, now);
  }

  lemma DeleteKeepsPresence(s: Store, step: Step)
    requires PresenceIsOwned(s.devices, s.presence) && step.Delete?
    ensures PresenceIsOwned(Apply(s, step).devices, Apply(s, step).presence)
  {
    hide DeletedIds, KeysOfDeleted, PresentedKeysOfDeleted, OfflineEvents, ScopeOf, ClearedTopology;
  }

  lemma PutKeepsPresence(devices: map<Uuid, Device>, presence: map<Uuid, Presence>, id: Uuid, p: Presence)
    requires PresenceIsOwned(devices, presence) && Owns(devices, p.userId, id)
    ensures PresenceIsOwned(devices, presence[id := p])
  {
  }

  lemma DropKeepsPresence(devices: map<Uuid, Device>, presence: map<Uuid, Presence>, id: Uuid)
    requires PresenceIsOwned(devices, presence)
    ensures PresenceIsOwned(devices - {id}, presence - {id})
  {
  }

  lemma BeatKeepsPresence(s: Store, userId: Uuid, id: Uuid, request: HeartbeatRequest, publicIp: string, now: u64)
    requires PresenceIsOwned(s.devices, s.presence)
    ensures var after := Heartbeat(s, userId, id, request, publicIp, now).store;
            PresenceIsOwned(after.devices, after.presence)
  {
    hide IsEvicted, SamePresentation, OnlineIn, NatType, NextPresenceVersion, PresenceIsOwned, Owns;
    var after := Heartbeat(s, userId, id, request, publicIp, now).store;
    if after.devices == s.devices && id in after.presence && after.presence == s.presence[id := after.presence[id]] {
      if Owns(s.devices, userId, id) && after.presence[id].userId == userId {
        PutKeepsPresence(s.devices, s.presence, id, after.presence[id]);
      }
    }
    DropKeepsPresence(s.devices, s.presence, id);
  }

  lemma OfflineKeepsPresence(s: Store, userId: Uuid, id: Uuid, now: u64)
    requires PresenceIsOwned(s.devices, s.presence)
    ensures var after := MarkDeviceOffline(s, userId, id, now).store;
            PresenceIsOwned(after.devices, after.presence)
  {
    hide IsOnlineAt;
  }

  lemma OtherStepKeepsPresence(s: Store, step: Step)
    requires PresenceIsOwned(s.devices, s.presence) && (step.PutTopology? || step.PutProfile? || step.Rollback?)
    ensures PresenceIsOwned(Apply(s, step).devices, Apply(s, step).presence)
  {
    hide PresenceIsOwned, OwnsAll, ProfileVersion, History;
  }

  lemma StepKeepsPresence(s: Store, step: Step)
    requires PresenceIsOwned(s.devices, s.presence)
    ensures PresenceIsOwned(Apply(s, step).devices, Apply(s, step).presence)
  {
    hide PresenceIsOwned, RegisterDevice, UpdateDevice, ReauthorizeDevice, DeleteDevice, Heartbeat, MarkDeviceOffline,
      UpsertTopology, UpsertProfile, RollbackProfile;
    match step
    case Delete(_, _, _, _) => DeleteKeepsPresence(s, step);
    case Beat(userId, id, request, publicIp, now) => BeatKeepsPresence(s, userId, id, request, publicIp, now);
    case GoOffline(userId, id, now) => OfflineKeepsPresence(s, userId, id, now);
    case PutTopology(_, _, _, _) => OtherStepKeepsPresence(s, step);
    case PutProfile(_, _, _, _, _, _) => OtherStepKeepsPresence(s, step);
    case Rollback(_, _, _, _) => OtherStepKeepsPresence(s, step);
    case _ => DeviceStepKeepsPresence(s, step);
  }

  /** In every run a presence belongs to a live device of the same user. */
  lemma {:induction false} RunKeepsPresence(s: Store, steps: seq<Step>)
    requires PresenceIsOwned(s.devices, s.presence)
    ensures PresenceIsOwned(Run(s, steps).devices, Run(s, steps).presence)
    decreases |steps|
  {
    hide PresenceIsOwned, Apply;
    if steps != [] {
      StepKeepsPresence(s, steps[0]);
      RunKeepsPresence(Apply(s, steps[0]), steps[1..]);
    }
  }

  // ---- What is published ----

  function VersionsFor(events: seq<ServerEvent>, d: Uuid): seq<u64> {
    if events == [] then []
    else
      (if events[0].PresenceChanged? && events[0].deviceId == d then [events[0].presenceVersion] else [])
      + VersionsFor(events[1..], d)
  }

  /** The versions a step publishes for a device. */
  ghost function StepVersions(s: Store, step: Step, d: Uuid): seq<u64> {
    var after := Apply(s, step);
    if s.events <= after.events then VersionsFor(after.events[|s.events|..], d) else []
  }

  ghost function Published(s: Store, steps: seq<Step>, d: Uuid): seq<u64>
    decreases |steps|
  {
    if steps == [] then [] else StepVersions(s, steps[0], d) + Published(Apply(s, steps[0]), steps[1..], d)
  }

  /** The device is registered before every step of the run. */
  ghost predicate Lives(s: Store, steps: seq<Step>, d: Uuid)
    decreases |steps|
  {
    steps != [] ==> d in s.devices && Proper(s, steps[0]) && Lives(Apply(s, steps[0]), steps[1..], d)
  }

  function VersionOf(s: Store, d: Uuid): u64 {
    if d in s.presence then s.presence[d].presenceVersion else 0
  }

  /** Later in the order of versions, which ends at the largest number that can be stored. */
  predicate Above(v: u64, floor: u64) {
    floor < v || v == U64_MAX
  }

  ghost predicate Rising(versions: seq<u64>, floor: u64) {
    && (forall v <- versions :: Above(v, floor))
    && (forall i, j :: 0 <= i < j < |versions| ==> Above(versions[j], versions[i]))
  }

  lemma {:induction false} VersionsForDeleted(
    presence: map<Uuid, Presence>, userId: Uuid, order: seq<Uuid>, d: Uuid)
    requires forall i, j :: 0 <= i < j < |order| ==> order[i] != order[j]
    ensures VersionsFor(OfflineEvents(presence, userId, order), d)
         == if d in order then [NextPresenceVersion(presence, d)] else []
  {
    if order != [] {
      VersionsForDeleted(presence, userId, order[1..], d);
      var events := OfflineEvents(presence, userId, order);
      assert events[1..] == OfflineEvents(presence, userId, order[1..]);
      hide OfflineEvents, NextPresenceVersion;
      assert order == [order[0]] + order[1..];
    }
  }

  /** What a step may do to the version of a device: publish the one it moves to, above the one it had. */
  ghost predicate MovesUp(before: u64, published: seq<u64>, after: u64, stays: bool) {
    && |published| <= 1
    && (published != [] ==> Above(published[0], before) && (stays ==> after == published[0]))
    && (stays ==> before <= after)
  }

  ghost predicate StepMovesUp(s: Store, step: Step, d: Uuid) {
    MovesUp(VersionOf(s, d), StepVersions(s, step, d), VersionOf(Apply(s, step), d), d in Apply(s, step).devices)
  }

  lemma MovesUpBy(s: Store, step: Step, published: seq<ServerEvent>, d: Uuid)
    requires Apply(s, step).events == s.events + published
    requires MovesUp(VersionOf(s, d), VersionsFor(published, d), VersionOf(Apply(s, step), d),
                     d in Apply(s, step).devices)
    ensures StepMovesUp(s, step, d)
  {
    hide Apply, MovesUp, VersionsFor, VersionOf;
    assert (s.events + published)[|s.events|..] == published;
  }

  lemma VersionsForOne(e: ServerEvent, d: Uuid)
    ensures VersionsFor([], d) == []
    ensures VersionsFor([e], d) == if e.PresenceChanged? && e.deviceId == d then [e.presenceVersion] else []
  {
    assert [e][1..] == [];
  }

  lemma DeleteMovesUp(s: Store, step: Step, d: Uuid)
    requires step.Delete? && Proper(s, step)
    ensures StepMovesUp(s, step, d)
  {
    hide DeletedIds, KeysOfDeleted, PresentedKeysOfDeleted, OfflineEvents, ScopeOf, ClearedTopology, StepMovesUp;
    var Delete(userId, id, now, order) := step;
    var published := if Owns(s.devices, userId, id) then OfflineEvents(s.presence, userId, order) else [];
    if Owns(s.devices, userId, id) {
      VersionsForDeleted(s.presence, userId, order, d);
    }
    MovesUpBy(s, step, published, d);
  }

  lemma HeartbeatPublishes(
    s: Store, userId: Uuid, id: Uuid, request: HeartbeatRequest, publicIp: string, now: u64, d: Uuid)
    ensures var after := Heartbeat(s, userId, id, request, publicIp, now).store;
            || (after.events == s.events && (d in after.devices ==> VersionOf(after, d) == VersionOf(s, d)))
            || (&& id in after.presence && Above(VersionOf(after, id), VersionOf(s, id))
                && after.events == s.events + [PresenceChanged(userId, id, true, VersionOf(after, id))]
                && (d != id ==> VersionOf(after, d) == VersionOf(s, d)))
  {
    hide IsEvicted, SamePresentation, IsOnlineAt, NatType;
  }

  lemma BeatMovesUp(s: Store, step: Step, d: Uuid)
    requires step.Beat?
    ensures StepMovesUp(s, step, d)
  {
    hide Heartbeat, VersionsFor, VersionOf, StepMovesUp;
    var after := Apply(s, step);
    HeartbeatPublishes(s, step.userId, step.id, step.beat, step.publicIp, step.now, d);
    var e := PresenceChanged(step.userId, step.id, true, VersionOf(after, step.id));
    VersionsForOne(e, d);
    MovesUpBy(s, step, if after.events == s.events then [] else [e], d);
  }

  lemma OfflineMovesUp(s: Store, step: Step, d: Uuid)
    requires step.GoOffline?
    ensures StepMovesUp(s, step, d)
  {
    hide IsOnlineAt, VersionsFor, StepMovesUp;
    var after := Apply(s, step);
    var e := PresenceChanged(step.userId, step.id, false, VersionOf(after, step.id));
    VersionsForOne(e, d);
    MovesUpBy(s, step, if after.events == s.events then [] else [e], d);
  }

  ghost predicate Quiet(s: Store, after: Store) {
    && after.presence == s.presence
    && (after.events == s.events
        || (|after.events| == |s.events| + 1 && s.events <= after.events && !after.events[|s.events|].PresenceChanged?))
  }

  lemma RegisterIsQuiet(s: Store, step: Step)
    requires step.Register?
    ensures Quiet(s, Apply(s, step))
  {
    hide RefreshedDevice, NewDevice, KeysWithout, PresentedWithout, DecideKey, IdFor, Trim, Normalize;
  }

  lemma DeviceChangeIsQuiet(s: Store, step: Step)
    requires step.Update? || step.Reauthorize?
    ensures Quiet(s, Apply(s, step))
  {
    hide Trim, UpdatedDevice;
  }

  lemma OthersAreQuiet(s: Store, step: Step)
    requires step.PutTopology? || step.PutProfile? || step.Rollback?
    ensures Quiet(s, Apply(s, step))
  {
    hide OwnsAll, ProfileVersion, History;
  }

  lemma QuietMovesUp(s: Store, step: Step, d: Uuid)
    requires Quiet(s, Apply(s, step))
    ensures StepMovesUp(s, step, d)
  {
    hide Apply, VersionsFor, StepMovesUp;
    var after := Apply(s, step);
    VersionsForOne(TopologyChanged(step.userId, 0), d);
    if after.events == s.events {
      MovesUpBy(s, step, [], d);
    } else {
      VersionsForOne(after.events[|s.events|], d);
      MovesUpBy(s, step, [after.events[|s.events|]], d);
    }
  }

  lemma EveryStepMovesUp(s: Store, step: Step, d: Uuid)
    requires Proper(s, step)
    ensures StepMovesUp(s, step, d)
  {
    hide Apply, Quiet, StepMovesUp, Proper;
    match step
    case Delete(_, _, _, _) => DeleteMovesUp(s, step, d);
    case Beat(_, _, _, _, _) => BeatMovesUp(s, step, d);
    case GoOffline(_, _, _) => OfflineMovesUp(s, step, d);
    case Register(_, _, _, _, _) =>
      RegisterIsQuiet(s, step);
      QuietMovesUp(s, step, d);
    case Update(_, _, _, _) =>
      DeviceChangeIsQuiet(s, step);
      QuietMovesUp(s, step, d);
    case Reauthorize(_, _, _, _) =>
      DeviceChangeIsQuiet(s, step);
      QuietMovesUp(s, step, d);
    case _ =>
      OthersAreQuiet(s, step);
      QuietMovesUp(s, step, d);
  }

  /** While a device is registered, the versions published for it rise, from its registration to its deletion. */
  lemma {:induction false} PublishedVersionsRise(s: Store, steps: seq<Step>, d: Uuid)
    requires Lives(s, steps, d)
    ensures Rising(Published(s, steps, d), VersionOf(s, d))
    decreases |steps|
  {
    hide Apply, VersionOf, StepVersions, Proper;
    if steps != [] {
      EveryStepMovesUp(s, steps[0], d);
      var after := Apply(s, steps[0]);
      PublishedVersionsRise(after, steps[1..], d);
      var first, rest := StepVersions(s, steps[0], d), Published(after, steps[1..], d);
      assert Published(s, steps, d) == first + rest;
      hide Published;
      if d !in after.devices {
        assert steps[1..] == [];
        assert rest == [] by { NothingPublished(after, d); }
      }
      RisingOn(first, rest, VersionOf(s, d), VersionOf(after, d), d in after.devices);
    }
  }

  lemma NothingPublished(s: Store, d: Uuid)
    ensures Published(s, [], d) == []
  {
  }

  lemma RisingOn(first: seq<u64>, rest: seq<u64>, before: u64, after: u64, stays: bool)
    requires MovesUp(before, first, after, stays) && Rising(rest, after) && (stays || rest == [])
    ensures Rising(first + rest, before)
  {
    var all := first + rest;
    forall v | v in all ensures Above(v, before) {
      assert v in first || v in rest;
    }
    if first != [] {
      assert forall v <- rest :: Above(v, first[0]);
      assert all == [first[0]] + rest;
    } else {
      assert all == rest;
    }
  }

  // ---- How long a device is online ----

  /** A heartbeat keeps a device online for exactly the time to live; going offline takes effect at once. */
  lemma OnlineUntilExactly(
    s: Store, userId: Uuid, id: Uuid, request: HeartbeatRequest, publicIp: string, now: u64, later: u64)
    ensures var beat := Heartbeat(s, userId, id, request, publicIp, now);
            beat.reply.Success? ==>
              (OnlineIn(beat.store.presence, id, later) <==> later <= SaturatingAdd(now, PRESENCE_TTL_SECONDS))
    ensures var offline := MarkDeviceOffline(s, userId, id, now);
            offline.reply.Success? ==> !OnlineIn(offline.store.presence, id, later)
  {
    hide IsEvicted, SamePresentation, NatType;
  }

  // ---- What a version stands for ----

  predicate Presents(p: Presence, q: Presence) {
    p.lanIps == q.lanIps && p.listenPort == q.listenPort && p.natType == q.natType && p.display == q.display
  }

  /** The presence of a device that stays: its version never falls, and one version stands for one presentation. */
  ghost predicate Follows(before: Presence, after: Presence) {
    && before.presenceVersion <= after.presenceVersion
    && (!Presents(before, after) ==> Above(after.presenceVersion, before.presenceVersion))
  }

  ghost predicate Progresses(s: Store, after: Store, d: Uuid) {
    d in s.presence && d in after.devices ==> d in after.presence && Follows(s.presence[d], after.presence[d])
  }

  lemma HeartbeatProgresses(
    s: Store, userId: Uuid, id: Uuid, request: HeartbeatRequest, publicIp: string, now: u64, d: Uuid)
    ensures Progresses(s, Heartbeat(s, userId, id, request, publicIp, now).store, d)
  {
    hide IsEvicted, IsOnlineAt, NatType;
  }

  lemma DeleteProgresses(s: Store, userId: Uuid, id: Uuid, now: u64, order: seq<Uuid>, d: Uuid)
    ensures Progresses(s, DeleteDevice(s, userId, id, now, order).store, d)
  {
    hide DeletedIds, KeysOfDeleted, PresentedKeysOfDeleted, OfflineEvents, ScopeOf, ClearedTopology;
  }

  lemma OfflineProgresses(s: Store, userId: Uuid, id: Uuid, now: u64, d: Uuid)
    ensures Progresses(s, MarkDeviceOffline(s, userId, id, now).store, d)
  {
    hide IsOnlineAt;
  }

  lemma QuietProgresses(s: Store, step: Step, d: Uuid)
    requires !step.Beat? && !step.GoOffline? && !step.Delete?
    ensures Progresses(s, Apply(s, step), d)
  {
    hide Apply;
    if step.Register? {
      RegisterIsQuiet(s, step);
    } else if step.Update? || step.Reauthorize? {
      DeviceChangeIsQuiet(s, step);
    } else {
      OthersAreQuiet(s, step);
    }
  }

  lemma StepProgresses(s: Store, step: Step, d: Uuid)
    ensures Progresses(s, Apply(s, step), d)
  {
    hide Progresses, Heartbeat, DeleteDevice, MarkDeviceOffline;
    match step
    case Beat(userId, id, request, publicIp, now) => HeartbeatProgresses(s, userId, id, request, publicIp, now, d);
    case GoOffline(userId, id, now) => OfflineProgresses(s, userId, id, now, d);
    case Delete(userId, id, now, order) => DeleteProgresses(s, userId, id, now, order, d);
    case _ => QuietProgresses(s, step, d);
  }

  /** Across any run in which a device stays registered, a change of what it presents is a later version. */
  lemma {:induction false} ChangeIsALaterVersion(s: Store, steps: seq<Step>, d: Uuid)
    requires Lives(s, steps, d) && d in s.presence && d in Run(s, steps).devices
    ensures d in Run(s, steps).presence && Follows(s.presence[d], Run(s, steps).presence[d])
    decreases |steps|
  {
    hide Apply, Proper;
    if steps != [] {
      var after := Apply(s, steps[0]);
      StepProgresses(s, steps[0], d);
      assert steps[1..] == [] ==> Run(after, steps[1..]) == after;
      ChangeIsALaterVersion(after, steps[1..], d);
    }
  }
}
