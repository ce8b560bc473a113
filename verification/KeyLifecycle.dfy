/**
 The life of a device key on the server: which devices and which tombstones
 (records of deleted keys) can exist together, over every run of requests.
 */
module KeyLifecycle {
  import opened Bytes
  import opened ServerData
  import opened StoreSteps
  import opened Text
  import opened Wrappers

  predicate HoldsKey(k: DeletedKey, d: Device) {
    KeyMatches(k, d.userId, d.publicKey)
  }

  /** A user's key belongs to one live device or to one tombstone, which names the device it was deleted from. */
  ghost predicate KeysAreUnique(devices: map<Uuid, Device>, keys: set<DeletedKey>) {
    && (forall a, b :: a in devices && HasKey(devices, b, devices[a].userId, devices[a].publicKey) ==> a == b)
    && (forall k <- keys :: k.deviceId.Some?)
    && (forall j <- keys, k <- keys :: KeyMatches(j, k.userId, k.publicKey) ==> j == k)
    && (forall k <- keys, d <- devices :: !HoldsKey(k, devices[d]))
  }

  ghost predicate Keys(s: Store) {
    KeysAreUnique(s.devices, s.deletedKeys)
  }

  // ---- One step ----

  /** With unique keys, a tombstone blocks every registration of its key but the one under its own id. */
  lemma TombstoneDecides(s: Store, userId: Uuid, requested: Uuid, publicKey: string, k: DeletedKey)
    requires Keys(s) && k in s.deletedKeys && KeyMatches(k, userId, publicKey)
    ensures DecideKey(s.deletedKeys, userId, requested, publicKey)
         == if k.deviceId == Some(requested) then ReactivateSameIdentity else BlockDuplicateIdentity
    ensures forall id :: !HasKey(s.devices, id, userId, publicKey)
  {
    forall id ensures !HasKey(s.devices, id, userId, publicKey) {
      assert id in s.devices ==> !HoldsKey(k, s.devices[id]);
    }
  }

  /** Under unique keys it does not matter which device a search by key turns up. */
  lemma RegistrationIgnoresTheSearch(
    s: Store, userId: Uuid, request: RegisterRequest, requested: Uuid, found: Option<Uuid>, other: Option<Uuid>,
    now: u64)
    requires Keys(s)
    requires IsHolder(s.devices, userId, request.publicKey, found)
    requires IsHolder(s.devices, userId, request.publicKey, other)
    ensures RegisterDevice(s, userId, request, requested, found, now)
         == RegisterDevice(s, userId, request, requested, other, now)
  {
    if found.Some? && other.Some? {
      assert HasKey(s.devices, other.value, s.devices[found.value].userId, s.devices[found.value].publicKey);
    }
    assert found == other;
  }

  /** What a registration leaves of the devices and the tombstones. */
  lemma RegisterShape(
    s: Store, userId: Uuid, request: RegisterRequest, requested: Uuid, found: Option<Uuid>, now: u64)
    returns (id: Uuid, device: Device)
    requires RegisterDevice(s, userId, request, requested, found, now).reply.Success?
    ensures id == IdFor(s.devices, requested, found)
    ensures RegisterDevice(s, userId, request, requested, found, now).reply == Success(id)
    ensures device.userId == userId && device.publicKey == request.publicKey
    ensures var after := RegisterDevice(s, userId, request, requested, found, now).store;
            && after.devices == s.devices[id := device]
            && after.deletedKeys == KeysWithout(s.deletedKeys, userId, id, request.publicKey)
    ensures id in s.devices ==> HasKey(s.devices, id, userId, request.publicKey)
    ensures requested !in s.devices ==>
              !DecideKey(s.deletedKeys, userId, requested, request.publicKey).BlockDuplicateIdentity?
  {
    hide DecideKey, KeysWithout, IdFor, PresentedWithout, Trim, Normalize;
    id := IdFor(s.devices, requested, found);
    device :=
      if id in s.devices then RefreshedDevice(s.devices[id], request, now) else NewDevice(userId, request, now);
  }

  lemma OnlyTheRegistered(s: Store, userId: Uuid, requested: Uuid, publicKey: string, found: Option<Uuid>, b: Uuid)
    requires Keys(s) && IsHolder(s.devices, userId, publicKey, found)
    requires var id := IdFor(s.devices, requested, found);
             id in s.devices ==> HasKey(s.devices, id, userId, publicKey)
    requires HasKey(s.devices, b, userId, publicKey)
    ensures b == IdFor(s.devices, requested, found)
  {
    var id := IdFor(s.devices, requested, found);
    assert found.Some?;
    assert HasKey(s.devices, b, s.devices[id].userId, s.devices[id].publicKey);
  }

  lemma TombstoneIsDropped(
    s: Store, userId: Uuid, requested: Uuid, publicKey: string, found: Option<Uuid>, k: DeletedKey)
    requires Keys(s) && k in s.deletedKeys && KeyMatches(k, userId, publicKey)
    requires IsHolder(s.devices, userId, publicKey, found)
    requires requested in s.devices ==> HasKey(s.devices, requested, userId, publicKey)
    requires requested !in s.devices ==>
               !DecideKey(s.deletedKeys, userId, requested, publicKey).BlockDuplicateIdentity?
    ensures k.deviceId == Some(requested) && IdFor(s.devices, requested, found) == requested
    ensures requested !in s.devices
  {
    TombstoneDecides(s, userId, requested, publicKey, k);
    hide DecideKey;
  }

  lemma RegisterKeepsKeys(
    s: Store, userId: Uuid, request: RegisterRequest, requested: Uuid, found: Option<Uuid>, now: u64)
    requires Keys(s) && IsHolder(s.devices, userId, request.publicKey, found)
    ensures Keys(RegisterDevice(s, userId, request, requested, found, now).store)
  {
    var outcome := RegisterDevice(s, userId, request, requested, found, now);
    if outcome.reply.Success? {
      var id, device := RegisterShape(s, userId, request, requested, found, now);
      forall b | HasKey(s.devices, b, userId, request.publicKey) ensures b == id {
        OnlyTheRegistered(s, userId, requested, request.publicKey, found, b);
      }
      forall k | k in s.deletedKeys && KeyMatches(k, userId, request.publicKey) ensures k.deviceId == Some(id) {
        assert requested in s.devices ==> id == requested;
        TombstoneIsDropped(s, userId, requested, request.publicKey, found, k);
      }
      hide RegisterDevice, DecideKey, IdFor;
      KeysAfterInsert(s.devices, s.deletedKeys, id, device);
    }
  }

  lemma KeysAfterInsert(devices: map<Uuid, Device>, keys: set<DeletedKey>, id: Uuid, device: Device)
    requires KeysAreUnique(devices, keys)
    requires forall b :: HasKey(devices, b, device.userId, device.publicKey) ==> b == id
    requires forall k <- keys :: HoldsKey(k, device) ==> k.deviceId == Some(id)
    ensures KeysAreUnique(devices[id := device], KeysWithout(keys, device.userId, id, device.publicKey))
  {
    var after := devices[id := device];
    forall a, b | a in after && HasKey(after, b, after[a].userId, after[a].publicKey) ensures a == b {
      assert HasKey(devices, b, device.userId, device.publicKey) ==> b == id;
      if a != id {
        assert HasKey(devices, a, device.userId, device.publicKey) ==> a == id;
        assert b != id ==> HasKey(devices, b, devices[a].userId, devices[a].publicKey);
      }
    }
  }

  /** A step that neither adds a device, nor a tombstone, nor changes a key. */
  ghost predicate LeavesKeys(s: Store, after: Store) {
    && after.deletedKeys == s.deletedKeys
    && forall d <- after.devices ::
         d in s.devices && after.devices[d].userId == s.devices[d].userId
         && after.devices[d].publicKey == s.devices[d].publicKey
  }

  lemma LeavingKeysKeepsKeys(s: Store, after: Store)
    requires Keys(s) && LeavesKeys(s, after)
    ensures Keys(after)
  {
    forall a, b | a in after.devices && HasKey(after.devices, b, after.devices[a].userId, after.devices[a].publicKey)
      ensures a == b
    {
      assert HasKey(s.devices, b, s.devices[a].userId, s.devices[a].publicKey);
    }
  }

  lemma DeleteKeepsKeys(s: Store, userId: Uuid, id: Uuid, now: u64, order: seq<Uuid>)
    requires Keys(s)
    ensures Keys(DeleteDevice(s, userId, id, now, order).store)
  {
    hide ScopeOf, SharesWith, PresentedKeysOfDeleted, OfflineEvents, ClearedTopology;
    if Owns(s.devices, userId, id) {
      var ids := DeletedIds(s, userId, id, now);
      assert forall d <- ids :: d in s.devices && s.devices[d].userId == userId;
      hide DeletedIds;
      var after := DeleteDevice(s, userId, id, now, order).store;
      assert after.devices == s.devices - ids;
      assert after.deletedKeys == s.deletedKeys + KeysOfDeleted(s.devices, userId, ids);
      hide DeleteDevice, WithoutDevices;
      forall k | k in KeysOfDeleted(s.devices, userId, ids)
        ensures k.deviceId.Some? && k.deviceId.value in ids && HoldsKey(k, s.devices[k.deviceId.value])
        ensures k == DeletedKey(userId, k.deviceId, s.devices[k.deviceId.value].publicKey)
      {
      }
      hide KeysOfDeleted;
      forall j, k | j in s.deletedKeys && k in KeysOfDeleted(s.devices, userId, ids)
        ensures !KeyMatches(j, k.userId, k.publicKey)
      {
        assert !HoldsKey(j, s.devices[k.deviceId.value]);
      }
      forall j, k | j in KeysOfDeleted(s.devices, userId, ids) && k in KeysOfDeleted(s.devices, userId, ids)
                    && KeyMatches(j, k.userId, k.publicKey)
        ensures j == k
      {
        assert HasKey(s.devices, j.deviceId.value, s.devices[k.deviceId.value].userId, k.publicKey);
      }
      forall k, d | k in KeysOfDeleted(s.devices, userId, ids) && d in after.devices
        ensures !HoldsKey(k, after.devices[d])
      {
        assert !HasKey(s.devices, d, s.devices[k.deviceId.value].userId, k.publicKey);
      }
      forall a, b | a in after.devices && HasKey(after.devices, b, after.devices[a].userId, after.devices[a].publicKey)
        ensures a == b
      {
        assert HasKey(s.devices, b, s.devices[a].userId, s.devices[a].publicKey);
      }
    }
  }

  /** Reauthorizing keeps keys unique exactly when no other device of the user has the key or was deleted with it. */
  lemma ReauthorizeKeepsKeysExactly(s: Store, userId: Uuid, id: Uuid, publicKey: string, now: u64)
    requires Keys(s) && ReauthorizeDevice(s, userId, id, publicKey, now).reply.Success?
    ensures Keys(ReauthorizeDevice(s, userId, id, publicKey, now).store)
       <==> && (forall d <- s.devices :: HasKey(s.devices, d, userId, publicKey) ==> d == id)
            && (forall k <- s.deletedKeys :: !KeyMatches(k, userId, publicKey))
  {
    var after := ReauthorizeDevice(s, userId, id, publicKey, now).store;
    hide Trim;
    var device := after.devices[id];
    assert after.devices == s.devices[id := device] && after.deletedKeys == s.deletedKeys;
    assert device.userId == userId && device.publicKey == publicKey;
    hide ReauthorizeDevice;
    if Keys(after) {
      forall d | d in s.devices && HasKey(s.devices, d, userId, publicKey) ensures d == id {
        assert d != id ==> HasKey(after.devices, d, after.devices[id].userId, after.devices[id].publicKey);
      }
      forall k | k in s.deletedKeys ensures !KeyMatches(k, userId, publicKey) {
        assert !HoldsKey(k, after.devices[id]);
      }
    }
    if (forall d <- s.devices :: HasKey(s.devices, d, userId, publicKey) ==> d == id)
       && (forall k <- s.deletedKeys :: !KeyMatches(k, userId, publicKey))
    {
      KeysAfterInsert(s.devices, s.deletedKeys, id, device);
      assert KeysWithout(s.deletedKeys, userId, id, publicKey) == s.deletedKeys;
    }
  }

  // ---- One step, every request ----

  lemma UpdatedKeepsKey(d: Device, request: UpdateRequest, now: u64)
    ensures UpdatedDevice(d, request, now).userId == d.userId
    ensures UpdatedDevice(d, request, now).publicKey == d.publicKey
  {
  }

  lemma UpdateLeavesKeys(s: Store, userId: Uuid, id: Uuid, request: UpdateRequest, now: u64)
    ensures LeavesKeys(s, UpdateDevice(s, userId, id, request, now).store)
  {
    hide Trim, UpdatedDevice;
    if id in s.devices {
      UpdatedKeepsKey(s.devices[id], request, now);
    }
  }

  lemma HeartbeatLeavesKeys(s: Store, userId: Uuid, id: Uuid, request: HeartbeatRequest, publicIp: string, now: u64)
    ensures LeavesKeys(s, Heartbeat(s, userId, id, request, publicIp, now).store)
  {
    hide IsEvicted, SamePresentation, OnlineIn, NatType;
  }

  lemma OfflineLeavesKeys(s: Store, userId: Uuid, id: Uuid, now: u64)
    ensures LeavesKeys(s, MarkDeviceOffline(s, userId, id, now).store)
  {
    hide IsOnlineAt;
  }

  lemma TopologyLeavesKeys(s: Store, userId: Uuid, master: Option<Uuid>, layout: Layout, now: u64)
    ensures LeavesKeys(s, UpsertTopology(s, userId, master, layout, now).store)
  {
    hide OwnsAll;
  }

  lemma ProfilesLeaveKeys(s: Store, step: Step)
    requires step.PutProfile? || step.Rollback?
    ensures LeavesKeys(s, Apply(s, step))
  {
    hide ProfileVersion, Owns, History;
  }

  lemma StepKeepsKeys(s: Store, step: Step)
    requires Keys(s) && Proper(s, step) && !step.Reauthorize?
    ensures Keys(Apply(s, step))
  {
    hide *;
    if step.PutProfile? || step.Rollback? {
      ProfilesLeaveKeys(s, step);
      LeavingKeysKeepsKeys(s, Apply(s, step));
    } else {
      OtherStepKeepsKeys(s, step);
    }
  }

  lemma OtherStepKeepsKeys(s: Store, step: Step)
    requires Keys(s) && Proper(s, step) && !step.Reauthorize? && !step.PutProfile? && !step.Rollback?
    ensures Keys(Apply(s, step))
  {
    hide Keys, LeavesKeys, RegisterDevice, DeleteDevice, UpdateDevice, Heartbeat, MarkDeviceOffline, UpsertTopology;
    match step
    case Register(userId, request, requested, found, now) =>
      RegisterKeepsKeys(s, userId, request, requested, found, now);
    case Delete(userId, id, now, order) =>
      DeleteKeepsKeys(s, userId, id, now, order);
    case Update(userId, id, request, now) =>
      UpdateLeavesKeys(s, userId, id, request, now);
      LeavingKeysKeepsKeys(s, Apply(s, step));
    case Beat(userId, id, request, publicIp, now) =>
      HeartbeatLeavesKeys(s, userId, id, request, publicIp, now);
      LeavingKeysKeepsKeys(s, Apply(s, step));
    case GoOffline(userId, id, now) =>
      OfflineLeavesKeys(s, userId, id, now);
      LeavingKeysKeepsKeys(s, Apply(s, step));
    case PutTopology(userId, master, layout, now) =>
      TopologyLeavesKeys(s, userId, master, layout, now);
      LeavingKeysKeepsKeys(s, Apply(s, step));
  }

  /** If the step reauthorizes a device, no other device of the user has the new key and no tombstone has it. */
  ghost predicate TakesFreeKey(s: Store, step: Step) {
    step.Reauthorize? && ReauthorizeDevice(s, step.userId, step.id, step.publicKey, step.now).reply.Success? ==>
      && (forall d <- s.devices :: HasKey(s.devices, d, step.userId, step.publicKey) ==> d == step.id)
      && (forall k <- s.deletedKeys :: !KeyMatches(k, step.userId, step.publicKey))
  }

  lemma StepKeepsKeysExactly(s: Store, step: Step)
    requires Keys(s) && Proper(s, step)
    ensures Keys(Apply(s, step)) <==> TakesFreeKey(s, step)
  {
    hide Keys, Proper;
    if step.Reauthorize? {
      var Reauthorize(userId, id, publicKey, now) := step;
      if ReauthorizeDevice(s, userId, id, publicKey, now).reply.Success? {
        ReauthorizeKeepsKeysExactly(s, userId, id, publicKey, now);
      } else {
        assert Apply(s, step) == s;
      }
    } else {
      StepKeepsKeys(s, step);
    }
  }

  // ---- Runs ----

  ghost predicate AlwaysTakesFreeKeys(s: Store, steps: seq<Step>)
    decreases |steps|
  {
    steps != [] ==> TakesFreeKey(s, steps[0]) && AlwaysTakesFreeKeys(Apply(s, steps[0]), steps[1..])
  }

  /** Keys are unique now and after every further step. */
  ghost predicate StaysUnique(s: Store, steps: seq<Step>)
    decreases |steps|
  {
    Keys(s) && (steps != [] ==> StaysUnique(Apply(s, steps[0]), steps[1..]))
  }

  lemma {:induction false} RunKeepsKeysExactly(s: Store, steps: seq<Step>)
    requires Keys(s) && ProperRun(s, steps)
    ensures StaysUnique(s, steps) <==> AlwaysTakesFreeKeys(s, steps)
    decreases |steps|
  {
    hide Keys, Apply, TakesFreeKey, Proper;
    if steps != [] {
      StepKeepsKeysExactly(s, steps[0]);
      if Keys(Apply(s, steps[0])) {
        RunKeepsKeysExactly(Apply(s, steps[0]), steps[1..]);
      }
    }
  }

  /** From the empty store, keys stay unique throughout a run exactly when no reauthorization takes a key in use. */
  lemma KeysStayUniqueExactly(steps: seq<Step>)
    requires ProperRun(EMPTY, steps)
    ensures StaysUnique(EMPTY, steps) <==> AlwaysTakesFreeKeys(EMPTY, steps)
  {
    hide Apply, ProperRun, StaysUnique, AlwaysTakesFreeKeys;
    RunKeepsKeysExactly(EMPTY, steps);
  }

  ghost predicate NoReauthorization(steps: seq<Step>) {
    forall step <- steps :: !step.Reauthorize?
  }

  lemma {:induction false} NoReauthorizationIsFree(s: Store, steps: seq<Step>)
    requires NoReauthorization(steps)
    ensures AlwaysTakesFreeKeys(s, steps)
    decreases |steps|
  {
    hide Apply;
    if steps != [] {
      NoReauthorizationIsFree(Apply(s, steps[0]), steps[1..]);
    }
  }

  lemma {:induction false} RunKeepsKeys(s: Store, steps: seq<Step>)
    requires Keys(s) && ProperRun(s, steps) && AlwaysTakesFreeKeys(s, steps)
    ensures Keys(Run(s, steps))
    decreases |steps|
  {
    hide Keys, Apply, Proper, TakesFreeKey;
    if steps != [] {
      StepKeepsKeysExactly(s, steps[0]);
      RunKeepsKeys(Apply(s, steps[0]), steps[1..]);
    }
  }

  /** In every run from the empty store without reauthorizations, a key has one live device or one tombstone. */
  lemma KeysStayUnique(steps: seq<Step>)
    requires ProperRun(EMPTY, steps) && NoReauthorization(steps)
    ensures Keys(Run(EMPTY, steps))
  {
    hide ProperRun, Run, AlwaysTakesFreeKeys;
    NoReauthorizationIsFree(EMPTY, steps);
    RunKeepsKeys(EMPTY, steps);
  }

  /** The one request that brings a deleted key back: its registration under the id it was deleted from. */
  predicate Returns(step: Step, k: DeletedKey) {
    step.Register? && KeyMatches(k, step.userId, step.registration.publicKey) && k.deviceId == Some(step.requested)
  }

  /** A tombstone outlasts every other request, and until then nobody lives under its key. */
  lemma TombstoneStands(s: Store, step: Step, k: DeletedKey)
    requires Keys(s) && Proper(s, step) && k in s.deletedKeys
    ensures Returns(step, k) || k in Apply(s, step).deletedKeys
  {
    if step.Register? {
      var Register(userId, request, requested, found, now) := step;
      if RegisterDevice(s, userId, request, requested, found, now).reply.Success?
         && KeyMatches(k, userId, request.publicKey)
      {
        var id, device := RegisterShape(s, userId, request, requested, found, now);
        TombstoneIsDropped(s, userId, requested, request.publicKey, found, k);
      }
    }
  }

  lemma {:induction false} DeletedKeyReturnsUnderItsOwnId(s: Store, steps: seq<Step>, k: DeletedKey)
    requires Keys(s) && k in s.deletedKeys && ProperRun(s, steps) && AlwaysTakesFreeKeys(s, steps)
    requires forall step <- steps :: !Returns(step, k)
    ensures k in Run(s, steps).deletedKeys
    ensures forall d <- Run(s, steps).devices :: !HoldsKey(k, Run(s, steps).devices[d])
    decreases |steps|
  {
    hide Apply, Returns, Proper, TakesFreeKey;
    if steps != [] {
      TombstoneStands(s, steps[0], k);
      StepKeepsKeysExactly(s, steps[0]);
      hide Keys;
      DeletedKeyReturnsUnderItsOwnId(Apply(s, steps[0]), steps[1..], k);
    }
  }

  /** And that request does bring it back, under that id, if the id is free and the name is not blank. */
  lemma DeletedKeyReturns(
    s: Store, userId: Uuid, request: RegisterRequest, requested: Uuid, found: Option<Uuid>, now: u64, k: DeletedKey)
    requires Keys(s) && k in s.deletedKeys && KeyMatches(k, userId, request.publicKey)
    requires IsHolder(s.devices, userId, request.publicKey, found)
    ensures RegisterDevice(s, userId, request, requested, found, now).reply.Success?
       <==> Trim(request.name) != "" && k.deviceId == Some(requested) && requested !in s.devices
    ensures RegisterDevice(s, userId, request, requested, found, now).reply.Success? ==>
              RegisterDevice(s, userId, request, requested, found, now).reply.value == requested
  {
    TombstoneDecides(s, userId, requested, request.publicKey, k);
    hide DecideKey, Trim, Normalize;
    assert requested in s.devices ==> !HasKey(s.devices, requested, userId, request.publicKey);
  }
}
