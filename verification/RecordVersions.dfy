/**
 Version numbers of devices and topologies: over every run of requests, a record
 that changed has a later version, so that a client holding a version knows whether it is behind.
 */
module RecordVersions {
  import opened Bytes
  import opened PresenceVersions
  import opened ServerData
  import opened StoreSteps
  import opened Text
  import opened Wrappers

  // ---- Devices ----

  ghost predicate Supersedes(before: Device, after: Device) {
    && before.deviceVersion <= after.deviceVersion && before.nameVersion <= after.nameVersion
    && (after != before ==> Above(after.deviceVersion, before.deviceVersion))
    && (after.name != before.name ==> Above(after.nameVersion, before.nameVersion))
    && after.userId == before.userId && after.createdAt == before.createdAt
  }

  lemma RefreshSupersedes(d: Device, request: RegisterRequest, now: u64)
    ensures Supersedes(d, RefreshedDevice(d, request, now))
  {
  }

  lemma UpdateSupersedes(d: Device, request: UpdateRequest, now: u64)
    ensures Supersedes(d, UpdatedDevice(d, request, now))
  {
  }

  ghost predicate DevicesSupersede(s: Store, after: Store, d: Uuid) {
    d in s.devices && d in after.devices ==> Supersedes(s.devices[d], after.devices[d])
  }

  lemma RegisterSupersedes(
    s: Store, userId: Uuid, request: RegisterRequest, requested: Uuid, found: Option<Uuid>, now: u64, d: Uuid)
    ensures DevicesSupersede(s, RegisterDevice(s, userId, request, requested, found, now).store, d)
  {
    if d in s.devices {
      RefreshSupersedes(s.devices[d], request, now);
    }
    hide RefreshedDevice, NewDevice, DecideKey, IdFor, KeysWithout, PresentedWithout;
  }

  lemma DeviceStepSupersedes(s: Store, step: Step, d: Uuid)
    requires step.Register? || step.Update? || step.Reauthorize?
    ensures DevicesSupersede(s, Apply(s, step), d)
  {
    hide RegisterDevice, UpdatedDevice;
    match step
    case Register(userId, request, requested, found, now) =>
      RegisterSupersedes(s, userId, request, requested, found, now, d);
    case Update(userId, id, request, now) =>
      if d in s.devices {
        UpdateSupersedes(s.devices[d], request, now);
      }
      hide Supersedes, Trim;
    case Reauthorize(userId, id, publicKey, now) => hide Trim;
  }

  lemma OtherStepSupersedes(s: Store, step: Step, d: Uuid)
    requires !step.Register? && !step.Update? && !step.Reauthorize?
    ensures DevicesSupersede(s, Apply(s, step), d)
  {
    hide DeletedIds, ScopeOf, ClearedTopology, KeysOfDeleted, PresentedKeysOfDeleted, OfflineEvents,
      IsEvicted, SamePresentation, IsOnlineAt, OwnsAll, ProfileVersion, History;
  }

  /** While a device is registered, any change to its record is a later version, and so is any change of its name. */
  lemma {:induction false} DeviceChangeIsALaterVersion(s: Store, steps: seq<Step>, d: Uuid)
    requires Lives(s, steps, d) && d in s.devices && d in Run(s, steps).devices
    ensures Supersedes(s.devices[d], Run(s, steps).devices[d])
    decreases |steps|
  {
    hide Apply, Proper;
    if steps != [] {
      var after := Apply(s, steps[0]);
      if steps[0].Register? || steps[0].Update? || steps[0].Reauthorize? {
        DeviceStepSupersedes(s, steps[0], d);
      } else {
        OtherStepSupersedes(s, steps[0], d);
      }
      assert steps[1..] == [] ==> Run(after, steps[1..]) == after;
      DeviceChangeIsALaterVersion(after, steps[1..], d);
    }
  }

  // ---- Topologies ----

  ghost predicate TopologySupersedes(s: Store, after: Store, u: Uuid) {
    u in s.topologies ==>
      && u in after.topologies
      && s.topologies[u].topologyVersion <= after.topologies[u].topologyVersion
      && (after.topologies[u] != s.topologies[u] ==>
            Above(after.topologies[u].topologyVersion, s.topologies[u].topologyVersion))
  }

  lemma TopologyStepSupersedes(s: Store, step: Step, u: Uuid)
    requires step.PutTopology? || step.Delete?
    ensures TopologySupersedes(s, Apply(s, step), u)
  {
    hide DeletedIds, ScopeOf, KeysOfDeleted, PresentedKeysOfDeleted, OfflineEvents, OwnsAll;
  }

  lemma OtherStepKeepsTopologies(s: Store, step: Step)
    requires !step.PutTopology? && !step.Delete?
    ensures Apply(s, step).topologies == s.topologies
  {
    hide RefreshedDevice, NewDevice, DecideKey, IdFor, KeysWithout, PresentedWithout, UpdatedDevice, Trim,
      IsEvicted, SamePresentation, OnlineIn, IsOnlineAt, ProfileVersion, History;
  }

  /** In every run a user's topology stays, and any change to it is a later version, deletions of devices included. */
  lemma {:induction false} TopologyChangeIsALaterVersion(s: Store, steps: seq<Step>, u: Uuid)
    ensures TopologySupersedes(s, Run(s, steps), u)
    decreases |steps|
  {
    hide Apply;
    if steps != [] {
      if steps[0].PutTopology? || steps[0].Delete? {
        TopologyStepSupersedes(s, steps[0], u);
      } else {
        OtherStepKeepsTopologies(s, steps[0]);
      }
      TopologyChangeIsALaterVersion(Apply(s, steps[0]), steps[1..], u);
    }
  }
}
