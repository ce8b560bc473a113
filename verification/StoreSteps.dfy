/**
 What each handler of the server does to its store
 (crates/kmsync-server/src/main.rs): one request is one step. The user, the clock,
 the caller's address and freshly drawn ids are parameters.
 */
module StoreSteps {
  import opened Bytes
  import opened PresenceClock
  import opened ServerData
  import opened Text
  import opened Wrappers

  /** `events` is everything published so far. */
  datatype Store = Store(
    devices: map<Uuid, Device>,
    presence: map<Uuid, Presence>,
    topologies: map<Uuid, Topology>,
    profiles: map<ProfileId, Profile>,
    profileHistory: map<ProfileId, seq<Profile>>,
    deletedKeys: set<DeletedKey>,
    deletedPresented: set<PresentedKey>,
    profileRevision: u64,
    events: seq<ServerEvent>)

  const EMPTY := Store(map[], map[], map[], map[], map[], {}, {}, 0, [])

  datatype Outcome<T> = Outcome(store: Store, reply: Result<T, ApiError>)

  predicate Owns(devices: map<Uuid, Device>, userId: Uuid, id: Uuid) {
    id in devices && devices[id].userId == userId
  }

  // ---- Registration ----

  datatype KeyDecision = NotDeleted | ReactivateSameIdentity | BlockDuplicateIdentity

  predicate KeyMatches(k: DeletedKey, userId: Uuid, publicKey: string) {
    k.userId == userId && k.publicKey == publicKey
  }

  ghost function DecideKey(keys: set<DeletedKey>, userId: Uuid, requested: Uuid, publicKey: string): KeyDecision {
    if exists k <- keys :: KeyMatches(k, userId, publicKey) && k.deviceId.Some? && k.deviceId.value != requested
    then BlockDuplicateIdentity
    else if exists k <- keys :: KeyMatches(k, userId, publicKey) then ReactivateSameIdentity
    else NotDeleted
  }

  predicate HasKey(devices: map<Uuid, Device>, id: Uuid, userId: Uuid, publicKey: string) {
    id in devices && devices[id].userId == userId && devices[id].publicKey == publicKey
  }

  /** `found` holds the key, if any device of the user does. */
  ghost predicate IsHolder(devices: map<Uuid, Device>, userId: Uuid, publicKey: string, found: Option<Uuid>) {
    if found.Some? then HasKey(devices, found.value, userId, publicKey)
    else forall id :: !HasKey(devices, id, userId, publicKey)
  }

  function NewDevice(userId: Uuid, request: RegisterRequest, now: u64): Device {
    var role := if request.role.Some? then request.role.value else Client;
    Device(userId, request.name, role, request.osType, request.osVersion, request.appVersion, request.publicKey,
           false, now, now, 1, 1)
  }

  function RefreshedDevice(d: Device, request: RegisterRequest, now: u64): Device {
    var role := if request.role.Some? then request.role.value else d.role;
    var changed := d.role != role || d.osType != request.osType
                   || d.osVersion != request.osVersion || d.appVersion != request.appVersion;
    var refreshed := d.(role := role, osType := request.osType,
                        osVersion := request.osVersion, appVersion := request.appVersion);
    if changed then refreshed.(updatedAt := now, deviceVersion := SaturatingAdd(d.deviceVersion, 1)) else refreshed
  }

  function KeysWithout(keys: set<DeletedKey>, userId: Uuid, id: Uuid, publicKey: string): set<DeletedKey> {
    set k | k in keys && !(KeyMatches(k, userId, publicKey) && (k.deviceId.None? || k.deviceId == Some(id)))
  }

  function PresentedWithout(keys: set<PresentedKey>, userId: Uuid, name: string, osType: string): set<PresentedKey> {
    set k | k in keys && !(k.userId == userId && k.name == Normalize(name) && k.osType == Normalize(osType))
  }

  /** The id a registration ends up under, when `found` is the device that turns up with the key. */
  function IdFor(devices: map<Uuid, Device>, requested: Uuid, found: Option<Uuid>): Uuid {
    if requested in devices || found.None? then requested else found.value
  }

  /** `found` is whichever holder of the key a search through the devices turns up. */
  ghost function RegisterDevice(
    s: Store, userId: Uuid, request: RegisterRequest, requested: Uuid, found: Option<Uuid>, now: u64)
    : Outcome<Uuid>
  {
    var decision := DecideKey(s.deletedKeys, userId, requested, request.publicKey);
    var id := IdFor(s.devices, requested, found);
    if Trim(request.name) == "" then Outcome(s, Failure(BadRequest))
    else if requested !in s.devices && decision.BlockDuplicateIdentity? then Outcome(s, Failure(Forbidden))
    else if id in s.devices && !HasKey(s.devices, id, userId, request.publicKey) then Outcome(s, Failure(Conflict))
    else
      var device :=
        if id in s.devices then RefreshedDevice(s.devices[id], request, now) else NewDevice(userId, request, now);
      Outcome(
        s.(devices := s.devices[id := device],
           deletedKeys := KeysWithout(s.deletedKeys, userId, id, request.publicKey),
           deletedPresented :=
             if decision.ReactivateSameIdentity?
             then PresentedWithout(s.deletedPresented, userId, request.name, request.osType)
             else s.deletedPresented),
        Success(id))
  }

  // ---- Changes to a device ----

  function UpdatedDevice(d: Device, request: UpdateRequest, now: u64): Device {
    var renamed := request.name.Some? && d.name != request.name.value;
    var toggled := request.disabled.Some? && d.disabled != request.disabled.value;
    var named := if renamed then d.(name := request.name.value, nameVersion := SaturatingAdd(d.nameVersion, 1)) else d;
    var switched := if toggled then named.(disabled := request.disabled.value) else named;
    if renamed || toggled then switched.(updatedAt := now, deviceVersion := SaturatingAdd(d.deviceVersion, 1))
    else switched
  }

  function DeviceEvent(id: Uuid, d: Device): ServerEvent {
    DeviceChanged(d.userId, id, d.deviceVersion, d.nameVersion)
  }

  function UpdateDevice(s: Store, userId: Uuid, id: Uuid, request: UpdateRequest, now: u64): Outcome<Device> {
    if !Owns(s.devices, userId, id) then Outcome(s, Failure(NotFound))
    else if request.name.Some? && Trim(request.name.value) == "" then Outcome(s, Failure(BadRequest))
    else
      var d := s.devices[id];
      var device := UpdatedDevice(d, request, now);
      var changed := (request.name.Some? && d.name != request.name.value)
                     || (request.disabled.Some? && d.disabled != request.disabled.value);
      Outcome(
        s.(devices := s.devices[id := device],
           events := if changed then s.events + [DeviceEvent(id, device)] else s.events),
        Success(device))
  }

  function ReauthorizeDevice(s: Store, userId: Uuid, id: Uuid, publicKey: string, now: u64): Outcome<Device> {
    if Trim(publicKey) == "" then Outcome(s, Failure(BadRequest))
    else if !Owns(s.devices, userId, id) then Outcome(s, Failure(NotFound))
    else
      var d := s.devices[id];
      var device := d.(publicKey := publicKey, disabled := false, updatedAt := now,
                       deviceVersion := SaturatingAdd(d.deviceVersion, 1));
      Outcome(s.(devices := s.devices[id := device], events := s.events + [DeviceEvent(id, device)]), Success(device))
  }

  // ---- Deletion ----

  predicate SharesWith(s: Store, target: Uuid, candidate: Uuid)
    requires target in s.devices && candidate in s.devices
  {
    SharesIdentity(target, s.devices[target], Find(s.presence, target),
                   candidate, s.devices[candidate], Find(s.presence, candidate))
  }

  predicate HasOnlineSibling(s: Store, userId: Uuid, id: Uuid, now: u64)
    requires id in s.devices
  {
    exists c <- s.devices ::
      s.devices[c].userId == userId && c != id && OnlineIn(s.presence, c, now) && SharesWith(s, id, c)
  }

  datatype DeletionScope = SingleRecord | PresentedDevice

  function ScopeOf(s: Store, userId: Uuid, id: Uuid, now: u64): DeletionScope
    requires id in s.devices
  {
    if OnlineIn(s.presence, id, now) then PresentedDevice
    else if HasOnlineSibling(s, userId, id, now) then SingleRecord
    else PresentedDevice
  }

  function DeletedIds(s: Store, userId: Uuid, id: Uuid, now: u64): set<Uuid>
    requires id in s.devices
  {
    if ScopeOf(s, userId, id, now).SingleRecord? then {id}
    else set c | c in s.devices && s.devices[c].userId == userId && SharesWith(s, id, c)
  }

  function KeysOfDeleted(devices: map<Uuid, Device>, userId: Uuid, ids: set<Uuid>): set<DeletedKey> {
    set d | d in ids && d in devices :: DeletedKey(userId, Some(d), devices[d].publicKey)
  }

  function PresentedKeysOf(devices: map<Uuid, Device>, presence: map<Uuid, Presence>, userId: Uuid, id: Uuid)
    : set<PresentedKey>
  {
    if id !in devices || id !in presence then {}
    else
      var p := presence[id];
      PresentedKeys(userId, devices[id], p.lanIps, p.publicIp, p.listenPort)
  }

  function PresentedKeysOfDeleted(
    devices: map<Uuid, Device>, presence: map<Uuid, Presence>, userId: Uuid, ids: set<Uuid>)
    : set<PresentedKey>
  {
    set d, k | d in ids && k in PresentedKeysOf(devices, presence, userId, d) :: k
  }

  function NextPresenceVersion(presence: map<Uuid, Presence>, id: Uuid): u64 {
    if id in presence then SaturatingAdd(presence[id].presenceVersion, 1) else 1
  }

  function OfflineEvents(presence: map<Uuid, Presence>, userId: Uuid, order: seq<Uuid>): seq<ServerEvent> {
    if order == [] then []
    else
      [PresenceChanged(userId, order[0], false, NextPresenceVersion(presence, order[0]))]
      + OfflineEvents(presence, userId, order[1..])
  }

  function WithoutDevices(s: Store, ids: set<Uuid>, now: u64): Store {
    s.(devices := s.devices - ids,
       presence := s.presence - ids,
       topologies := map u | u in s.topologies :: ClearedTopology(s.topologies[u], ids, now),
       profiles := map p | p in s.profiles && p.source !in ids && p.target !in ids :: s.profiles[p])
  }

  /** `order` is the order in which the deleted ids happen to be published. */
  function DeleteDevice(s: Store, userId: Uuid, id: Uuid, now: u64, order: seq<Uuid>): Outcome<()> {
    if !Owns(s.devices, userId, id) then Outcome(s, Failure(NotFound))
    else
      var ids := DeletedIds(s, userId, id, now);
      Outcome(
        WithoutDevices(s, ids, now).(
          deletedKeys := s.deletedKeys + KeysOfDeleted(s.devices, userId, ids),
          deletedPresented :=
            s.deletedPresented
            + if ScopeOf(s, userId, id, now).PresentedDevice?
              then PresentedKeysOfDeleted(s.devices, s.presence, userId, ids) else {},
          events := s.events + OfflineEvents(s.presence, userId, order)),
        Success(()))
  }

  /** Each of `ids` once. */
  predicate Enumerates(order: seq<Uuid>, ids: set<Uuid>) {
    (forall d <- ids :: d in order) && (forall d <- order :: d in ids)
    && forall i, j :: 0 <= i < j < |order| ==> order[i] != order[j]
  }

  // ---- Presence ----

  predicate IsEvicted(s: Store, userId: Uuid, id: Uuid, request: HeartbeatRequest, publicIp: string)
    requires id in s.devices
  {
    exists k <- PresentedKeys(userId, s.devices[id], request.lanIps, publicIp, request.listenPort) ::
      k in s.deletedPresented
  }

  predicate SamePresentation(p: Presence, request: HeartbeatRequest) {
    && p.lanIps == request.lanIps && p.listenPort == request.listenPort
    && p.natType == NatType(request) && p.display == request.display
  }

  function NatType(request: HeartbeatRequest): string {
    if request.natType.Some? then request.natType.value else "unknown"
  }

  function Heartbeat(s: Store, userId: Uuid, id: Uuid, request: HeartbeatRequest, publicIp: string, now: u64)
    : Outcome<HeartbeatReply>
  {
    if !Owns(s.devices, userId, id) then Outcome(s, Failure(NotFound))
    else if s.devices[id].disabled then Outcome(s, Failure(Forbidden))
    else if IsEvicted(s, userId, id, request, publicIp) then
      Outcome(s.(devices := s.devices - {id}, presence := s.presence - {id}), Failure(Forbidden))
    else
      var steady := OnlineIn(s.presence, id, now) && SamePresentation(s.presence[id], request);
      var version :=
        if steady then s.presence[id].presenceVersion else NextPresenceVersion(s.presence, id);
      var p := Presence(userId, true, request.lanIps, publicIp, request.listenPort, NatType(request), now,
                        SaturatingAdd(now, PRESENCE_TTL_SECONDS), version, request.display);
      Outcome(
        s.(presence := s.presence[id := p],
           events := if steady then s.events else s.events + [PresenceChanged(userId, id, true, version)]),
        Success(HeartbeatReply(true, now, version)))
  }

  function MarkDeviceOffline(s: Store, userId: Uuid, id: Uuid, now: u64): Outcome<HeartbeatReply> {
    if !Owns(s.devices, userId, id) then Outcome(s, Failure(NotFound))
    else if id !in s.presence then Outcome(s, Success(HeartbeatReply(false, now, 1)))
    else
      var p := s.presence[id];
      var version := SaturatingAdd(p.presenceVersion, 1);
      Outcome(
        s.(presence := s.presence[id := p.(online := false, expiresAt := now, presenceVersion := version)],
           events :=
             if IsOnlineAt(p, now) then s.events + [PresenceChanged(userId, id, false, version)] else s.events),
        Success(HeartbeatReply(false, p.lastSeenAt, version)))
  }

  // ---- Topologies ----

  predicate OwnsSlot(devices: map<Uuid, Device>, userId: Uuid, slot: Option<Uuid>) {
    slot.Some? ==> Owns(devices, userId, slot.value)
  }

  predicate OwnsAll(devices: map<Uuid, Device>, userId: Uuid, master: Option<Uuid>, layout: Layout) {
    && OwnsSlot(devices, userId, master)
    && OwnsSlot(devices, userId, layout.left) && OwnsSlot(devices, userId, layout.right)
    && OwnsSlot(devices, userId, layout.top) && OwnsSlot(devices, userId, layout.bottom)
  }

  function UpsertTopology(s: Store, userId: Uuid, master: Option<Uuid>, layout: Layout, now: u64): Outcome<Topology> {
    if !OwnsAll(s.devices, userId, master, layout) then Outcome(s, Failure(NotFound))
    else
      var version := if userId in s.topologies then SaturatingAdd(s.topologies[userId].topologyVersion, 1) else 1;
      var t := Topology(master, layout, version, now);
      Outcome(
        s.(topologies := s.topologies[userId := t], events := s.events + [TopologyChanged(userId, version)]),
        Success(t))
  }

  // ---- Profiles ----

  function History(s: Store, id: ProfileId): seq<Profile> {
    if id in s.profileHistory then s.profileHistory[id] else []
  }

  /** Puts `profile` under the next revision, keeping what it replaces in the history. */
  function StoreProfile(s: Store, id: ProfileId, config: string, version: u64, now: u64): Outcome<Profile> {
    var revision := SaturatingAdd(s.profileRevision, 1);
    var profile := Profile(id, config, version, revision, now);
    Outcome(
      s.(profiles := s.profiles[id := profile],
         profileHistory :=
           if id in s.profiles then s.profileHistory[id := History(s, id) + [s.profiles[id]]] else s.profileHistory,
         profileRevision := revision,
         events := s.events + [ProfileChanged(id.userId, profile)]),
      Success(profile))
  }

  function UpsertProfile(
    s: Store, userId: Uuid, source: Uuid, target: Uuid, expected: Option<u64>, config: string, now: u64)
    : Outcome<Profile>
  {
    var id := ProfileId(userId, source, target);
    if !Owns(s.devices, userId, source) || !Owns(s.devices, userId, target) then Outcome(s, Failure(NotFound))
    else if expected.Some? && id in s.profiles && expected.value != s.profiles[id].version then
      Outcome(s, Failure(Conflict))
    else StoreProfile(s, id, config, if id in s.profiles then SaturatingAdd(s.profiles[id].version, 1) else 1, now)
  }

  function FirstVersion(history: seq<Profile>, version: u64): Option<Profile> {
    if history == [] then None
    else if history[0].version == version then Some(history[0])
    else FirstVersion(history[1..], version)
  }

  function ProfileVersion(s: Store, id: ProfileId, version: u64): Option<Profile> {
    if id in s.profiles && s.profiles[id].version == version then Some(s.profiles[id])
    else FirstVersion(History(s, id), version)
  }

  function RollbackProfile(s: Store, userId: Uuid, id: ProfileId, version: u64, now: u64): Outcome<Profile> {
    if id !in s.profiles || id.userId != userId then Outcome(s, Failure(NotFound))
    else
      var target := ProfileVersion(s, id, version);
      if target.None? || target.value.id.userId != userId then Outcome(s, Failure(NotFound))
      else StoreProfile(s, id, target.value.config, SaturatingAdd(s.profiles[id].version, 1), now)
  }

  // ---- Runs ----

  datatype Step =
    | Register(userId: Uuid, registration: RegisterRequest, requested: Uuid, found: Option<Uuid>, now: u64)
    | Update(userId: Uuid, id: Uuid, update: UpdateRequest, now: u64)
    | Reauthorize(userId: Uuid, id: Uuid, publicKey: string, now: u64)
    | Delete(userId: Uuid, id: Uuid, now: u64, order: seq<Uuid>)
    | Beat(userId: Uuid, id: Uuid, beat: HeartbeatRequest, publicIp: string, now: u64)
    | GoOffline(userId: Uuid, id: Uuid, now: u64)
    | PutTopology(userId: Uuid, master: Option<Uuid>, layout: Layout, now: u64)
    | PutProfile(userId: Uuid, source: Uuid, target: Uuid, expected: Option<u64>, config: string, now: u64)
    | Rollback(userId: Uuid, profile: ProfileId, version: u64, now: u64)

  ghost function Apply(s: Store, step: Step): Store {
    match step
    case Register(userId, request, requested, found, now) =>
      RegisterDevice(s, userId, request, requested, found, now).store
    case Update(userId, id, request, now) => UpdateDevice(s, userId, id, request, now).store
    case Reauthorize(userId, id, publicKey, now) => ReauthorizeDevice(s, userId, id, publicKey, now).store
    case Delete(userId, id, now, order) => DeleteDevice(s, userId, id, now, order).store
    case Beat(userId, id, request, publicIp, now) => Heartbeat(s, userId, id, request, publicIp, now).store
    case GoOffline(userId, id, now) => MarkDeviceOffline(s, userId, id, now).store
    case PutTopology(userId, master, layout, now) => UpsertTopology(s, userId, master, layout, now).store
    case PutProfile(userId, source, target, expected, config, now) =>
      UpsertProfile(s, userId, source, target, expected, config, now).store
    case Rollback(userId, id, version, now) => RollbackProfile(s, userId, id, version, now).store
  }

  ghost function Run(s: Store, steps: seq<Step>): Store
    decreases |steps|
  {
    if steps == [] then s else Run(Apply(s, steps[0]), steps[1..])
  }

  /** A step carries a choice the code can make: which holder a search finds, in which order a set is walked. */
  ghost predicate Proper(s: Store, step: Step) {
    match step
    case Register(userId, request, _, found, _) => IsHolder(s.devices, userId, request.publicKey, found)
    case Delete(userId, id, now, order) =>
      Owns(s.devices, userId, id) ==> Enumerates(order, DeletedIds(s, userId, id, now))
    case _ => true
  }

  ghost predicate ProperRun(s: Store, steps: seq<Step>)
    decreases |steps|
  {
    steps != [] ==> Proper(s, steps[0]) && ProperRun(Apply(s, steps[0]), steps[1..])
  }
}
