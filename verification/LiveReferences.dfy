/**
 What may name a device: over every run in which no heartbeat finds its machine
 deleted, presences, topologies and profiles name live devices of their own user.
 */
module LiveReferences {
  import opened Bytes
  import opened KeyLifecycle
  import opened ServerData
  import opened StoreSteps
  import opened Text
  import opened Wrappers

  ghost predicate PresenceIsOwned(devices: map<Uuid, Device>, presence: map<Uuid, Presence>) {
    forall d <- presence :: Owns(devices, presence[d].userId, d)
  }

  ghost predicate TopologiesAreOwned(devices: map<Uuid, Device>, topologies: map<Uuid, Topology>) {
    forall u <- topologies :: OwnsAll(devices, u, topologies[u].master, topologies[u].layout)
  }

  ghost predicate ProfilesAreOwned(devices: map<Uuid, Device>, profiles: map<ProfileId, Profile>) {
    forall p <- profiles :: Owns(devices, p.userId, p.source) && Owns(devices, p.userId, p.target)
  }

  ghost predicate References(s: Store) {
    && PresenceIsOwned(s.devices, s.presence)
    && TopologiesAreOwned(s.devices, s.topologies)
    && ProfilesAreOwned(s.devices, s.profiles)
  }

  /** No device is lost and none changes hands. */
  ghost predicate KeepsOwners(before: map<Uuid, Device>, after: map<Uuid, Device>) {
    forall d <- before :: d in after && after[d].userId == before[d].userId
  }

  lemma OwnersKeepReferences(s: Store, after: Store)
    requires References(s) && KeepsOwners(s.devices, after.devices)
    requires after.presence == s.presence && after.topologies == s.topologies && after.profiles == s.profiles
    ensures References(after)
  {
  }

  lemma RegisterKeepsOwners(
    s: Store, userId: Uuid, request: RegisterRequest, requested: Uuid, found: Option<Uuid>, now: u64)
    ensures var after := RegisterDevice(s, userId, request, requested, found, now).store;
            && KeepsOwners(s.devices, after.devices) && after.presence == s.presence
            && after.topologies == s.topologies && after.profiles == s.profiles
  {
    hide RefreshedDevice, NewDevice, KeysWithout, PresentedWithout, DecideKey, IdFor;
    if RegisterDevice(s, userId, request, requested, found, now).reply.Success? {
      var id, device := RegisterShape(s, userId, request, requested, found, now);
    }
  }

  lemma SameKeepsOwners(devices: map<Uuid, Device>)
    ensures KeepsOwners(devices, devices)
  {
  }

  lemma ReplacingKeepsOwners(devices: map<Uuid, Device>, id: Uuid, device: Device)
    requires id in devices && device.userId == devices[id].userId
    ensures KeepsOwners(devices, devices[id := device])
  {
  }

  lemma UpdateKeepsOwners(s: Store, userId: Uuid, id: Uuid, request: UpdateRequest, now: u64)
    ensures var after := UpdateDevice(s, userId, id, request, now).store;
            && KeepsOwners(s.devices, after.devices) && after.presence == s.presence
            && after.topologies == s.topologies && after.profiles == s.profiles
  {
    hide Trim, UpdatedDevice, DeviceEvent, KeepsOwners;
    SameKeepsOwners(s.devices);
    if id in s.devices {
      UpdatedKeepsKey(s.devices[id], request, now);
      ReplacingKeepsOwners(s.devices, id, UpdatedDevice(s.devices[id], request, now));
    }
  }

  lemma ReauthorizeKeepsOwners(s: Store, userId: Uuid, id: Uuid, publicKey: string, now: u64)
    ensures var after := ReauthorizeDevice(s, userId, id, publicKey, now).store;
            && KeepsOwners(s.devices, after.devices) && after.presence == s.presence
            && after.topologies == s.topologies && after.profiles == s.profiles
  {
    hide Trim, DeviceEvent, KeepsOwners;
    SameKeepsOwners(s.devices);
    var after := ReauthorizeDevice(s, userId, id, publicKey, now).store;
    if id in s.devices && id in after.devices && after.devices[id].userId == s.devices[id].userId {
      ReplacingKeepsOwners(s.devices, id, after.devices[id]);
    }
  }

  lemma DeleteKeepsReferences(s: Store, userId: Uuid, id: Uuid, now: u64, order: seq<Uuid>)
    requires References(s)
    ensures References(DeleteDevice(s, userId, id, now, order).store)
  {
    hide DeletedIds, KeysOfDeleted, PresentedKeysOfDeleted, OfflineEvents, ScopeOf;
    if Owns(s.devices, userId, id) {
      WithoutKeepsReferences(s, DeletedIds(s, userId, id, now), now);
    }
  }

  lemma WithoutKeepsReferences(s: Store, ids: set<Uuid>, now: u64)
    requires References(s)
    ensures References(WithoutDevices(s, ids, now))
  {
    var after := WithoutDevices(s, ids, now);
    forall u | u in after.topologies
      ensures OwnsAll(after.devices, u, after.topologies[u].master, after.topologies[u].layout)
    {
      assert OwnsAll(s.devices, u, s.topologies[u].master, s.topologies[u].layout);
    }
  }

  /** A heartbeat that finds its machine deleted takes the device away. */
  predicate Evicts(s: Store, step: Step) {
    step.Beat? && Owns(s.devices, step.userId, step.id) && !s.devices[step.id].disabled
    && IsEvicted(s, step.userId, step.id, step.beat, step.publicIp)
  }

  lemma PresenceStepKeepsReferences(s: Store, step: Step)
    requires References(s) && (step.Beat? || step.GoOffline?) && !Evicts(s, step)
    ensures References(Apply(s, step))
  {
    hide IsEvicted, SamePresentation, IsOnlineAt, TopologiesAreOwned, ProfilesAreOwned;
  }

  lemma TopologyStepKeepsReferences(s: Store, step: Step)
    requires References(s) && step.PutTopology?
    ensures References(Apply(s, step))
  {
    hide PresenceIsOwned, ProfilesAreOwned, OwnsAll;
  }

  lemma ProfileStepKeepsReferences(s: Store, step: Step)
    requires References(s) && (step.PutProfile? || step.Rollback?)
    ensures References(Apply(s, step))
  {
    hide PresenceIsOwned, TopologiesAreOwned, ProfileVersion, History;
  }

  lemma StepKeepsReferences(s: Store, step: Step)
    requires References(s) && !Evicts(s, step)
    ensures References(Apply(s, step))
  {
    hide References, Evicts, RegisterDevice, UpdateDevice, ReauthorizeDevice, DeleteDevice;
    match step
    case Register(userId, request, requested, found, now) =>
      RegisterKeepsOwners(s, userId, request, requested, found, now);
      OwnersKeepReferences(s, Apply(s, step));
    case Update(userId, id, request, now) =>
      UpdateKeepsOwners(s, userId, id, request, now);
      OwnersKeepReferences(s, Apply(s, step));
    case Reauthorize(userId, id, publicKey, now) =>
      ReauthorizeKeepsOwners(s, userId, id, publicKey, now);
      OwnersKeepReferences(s, Apply(s, step));
    case Delete(userId, id, now, order) =>
      DeleteKeepsReferences(s, userId, id, now, order);
    case PutTopology(_, _, _, _) => TopologyStepKeepsReferences(s, step);
    case PutProfile(_, _, _, _, _, _) => ProfileStepKeepsReferences(s, step);
    case Rollback(_, _, _, _) => ProfileStepKeepsReferences(s, step);
    case _ => PresenceStepKeepsReferences(s, step);
  }

  lemma TopologyLoses(devices: map<Uuid, Device>, u: Uuid, t: Topology, id: Uuid)
    requires OwnsAll(devices, u, t.master, t.layout)
    ensures OwnsAll(devices - {id}, u, t.master, t.layout) <==> !NamesAny(t, {id})
  {
  }

  lemma ProfileLoses(devices: map<Uuid, Device>, p: ProfileId, id: Uuid)
    requires Owns(devices, p.userId, p.source) && Owns(devices, p.userId, p.target)
    ensures Owns(devices - {id}, p.userId, p.source) && Owns(devices - {id}, p.userId, p.target)
       <==> p.source != id && p.target != id
  {
  }

  /** An eviction cleans up no topology and no profile: it keeps references live exactly when none named the device. */
  lemma EvictionKeepsReferencesExactly(s: Store, step: Step)
    requires References(s) && Evicts(s, step)
    ensures References(Apply(s, step))
       <==> && (forall u <- s.topologies :: !NamesAny(s.topologies[u], {step.id}))
            && (forall p <- s.profiles :: p.source != step.id && p.target != step.id)
  {
    hide IsEvicted, NamesAny;
    var after := Apply(s, step);
    assert after == s.(devices := s.devices - {step.id}, presence := s.presence - {step.id});
    hide Apply, Heartbeat;
    assert PresenceIsOwned(after.devices, after.presence);
    hide PresenceIsOwned, OwnsAll, Owns;
    forall u | u in s.topologies
      ensures OwnsAll(after.devices, u, s.topologies[u].master, s.topologies[u].layout)
         <==> !NamesAny(s.topologies[u], {step.id})
    {
      TopologyLoses(s.devices, u, s.topologies[u], step.id);
    }
    forall p | p in s.profiles
      ensures Owns(after.devices, p.userId, p.source) && Owns(after.devices, p.userId, p.target)
         <==> p.source != step.id && p.target != step.id
    {
      ProfileLoses(s.devices, p, step.id);
    }
  }

  // ---- Runs ----

  /** If the step evicts a device, no topology and no profile names it. */
  ghost predicate EvictsNothingNamed(s: Store, step: Step) {
    Evicts(s, step) ==>
      && (forall u <- s.topologies :: !NamesAny(s.topologies[u], {step.id}))
      && (forall p <- s.profiles :: p.source != step.id && p.target != step.id)
  }

  ghost predicate NeverEvictsNamed(s: Store, steps: seq<Step>)
    decreases |steps|
  {
    steps != [] ==> EvictsNothingNamed(s, steps[0]) && NeverEvictsNamed(Apply(s, steps[0]), steps[1..])
  }

  /** References are live now and after every further step. */
  ghost predicate StaysLive(s: Store, steps: seq<Step>)
    decreases |steps|
  {
    References(s) && (steps != [] ==> StaysLive(Apply(s, steps[0]), steps[1..]))
  }

  lemma StepKeepsReferencesExactly(s: Store, step: Step)
    requires References(s)
    ensures References(Apply(s, step)) <==> EvictsNothingNamed(s, step)
  {
    hide References, Apply;
    if Evicts(s, step) {
      EvictionKeepsReferencesExactly(s, step);
    } else {
      StepKeepsReferences(s, step);
    }
  }

  lemma {:induction false} RunKeepsReferencesExactly(s: Store, steps: seq<Step>)
    requires References(s)
    ensures StaysLive(s, steps) <==> NeverEvictsNamed(s, steps)
    decreases |steps|
  {
    hide References, Apply, EvictsNothingNamed;
    if steps != [] {
      StepKeepsReferencesExactly(s, steps[0]);
      if References(Apply(s, steps[0])) {
        RunKeepsReferencesExactly(Apply(s, steps[0]), steps[1..]);
      }
    }
  }

  /** From the empty store, references stay live throughout a run exactly when no eviction hits a named device. */
  lemma ReferencesStayLiveExactly(steps: seq<Step>)
    ensures StaysLive(EMPTY, steps) <==> NeverEvictsNamed(EMPTY, steps)
  {
    hide Apply, StaysLive, NeverEvictsNamed;
    RunKeepsReferencesExactly(EMPTY, steps);
  }
}
