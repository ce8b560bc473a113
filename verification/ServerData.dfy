/**
 The records kept by the server (crates/kmsync-server/src/main.rs). A record stored
 in a map does not repeat the id it is stored under. A profile id is the triple that
 its text form joins with colons.
 */
module ServerData {
  import opened Bytes
  import opened PresenceClock
  import opened Text
  import opened Wrappers

  datatype Uuid = Uuid(bits: u128)

  datatype Role = Master | Client

  datatype Device = Device(
    userId: Uuid,
    name: string,
    role: Role,
    osType: string,
    osVersion: string,
    appVersion: string,
    publicKey: string,
    disabled: bool,
    createdAt: u64,
    updatedAt: u64,
    deviceVersion: u64,
    nameVersion: u64)

  datatype Presence = Presence(
    userId: Uuid,
    online: bool,
    lanIps: seq<string>,
    publicIp: string,
    listenPort: u16,
    natType: string,
    lastSeenAt: u64,
    expiresAt: u64,
    presenceVersion: u64,
    display: Option<string>)

  datatype Layout = Layout(left: Option<Uuid>, right: Option<Uuid>, top: Option<Uuid>, bottom: Option<Uuid>)

  datatype Topology = Topology(master: Option<Uuid>, layout: Layout, topologyVersion: u64, updatedAt: u64)

  datatype ProfileId = ProfileId(userId: Uuid, source: Uuid, target: Uuid)

  datatype Profile = Profile(id: ProfileId, config: string, version: u64, revision: u64, updatedAt: u64)

  datatype DeletedKey = DeletedKey(userId: Uuid, deviceId: Option<Uuid>, publicKey: string)

  datatype PresentedKey = PresentedKey(
    userId: Uuid,
    name: string,
    osType: string,
    lanIp: Option<string>,
    publicIp: Option<string>,
    listenPort: Option<u16>)

  datatype ServerEvent =
    | PresenceChanged(userId: Uuid, deviceId: Uuid, online: bool, presenceVersion: u64)
    | DeviceChanged(userId: Uuid, deviceId: Uuid, deviceVersion: u64, nameVersion: u64)
    | TopologyChanged(userId: Uuid, topologyVersion: u64)
    | ProfileChanged(userId: Uuid, profile: Profile)

  datatype ApiError = BadRequest | NotFound | Forbidden | Conflict

  datatype RegisterRequest = RegisterRequest(
    name: string,
    role: Option<Role>,
    osType: string,
    osVersion: string,
    appVersion: string,
    publicKey: string)

  datatype UpdateRequest = UpdateRequest(name: Option<string>, disabled: Option<bool>)

  datatype HeartbeatRequest = HeartbeatRequest(
    lanIps: seq<string>,
    listenPort: u16,
    natType: Option<string>,
    display: Option<string>)

  datatype HeartbeatReply = HeartbeatReply(online: bool, lastSeenAt: u64, presenceVersion: u64)

  function Find<K, V>(m: map<K, V>, key: K): Option<V> {
    if key in m then Some(m[key]) else None
  }

  // ---- Presence ----

  predicate IsOnlineAt(p: Presence, now: u64) {
    StillOnline(p.online, p.lastSeenAt, p.expiresAt, now)
  }

  predicate OnlineIn(presence: map<Uuid, Presence>, id: Uuid, now: u64) {
    id in presence && IsOnlineAt(presence[id], now)
  }

  // ---- How a device presents itself ----

  predicate LanIpsOverlap(left: seq<string>, right: seq<string>) {
    exists a <- left :: Trim(a) != "" && exists b <- right :: Trim(a) == Trim(b)
  }

  predicate HasLanIp(ips: seq<string>) {
    exists ip <- ips :: Trim(ip) != ""
  }

  predicate SamePlace(a: Presence, b: Presence) {
    || LanIpsOverlap(a.lanIps, b.lanIps)
    || (&& !HasLanIp(a.lanIps) && !HasLanIp(b.lanIps)
        && Trim(a.publicIp) != "" && Trim(a.publicIp) == Trim(b.publicIp)
        && a.listenPort == b.listenPort)
  }

  /** Two records that stand for one machine, as far as the server can tell. */
  predicate SharesIdentity(
    target: Uuid, targetDevice: Device, targetPresence: Option<Presence>,
    candidate: Uuid, candidateDevice: Device, candidatePresence: Option<Presence>)
  {
    || target == candidate
    || (Trim(targetDevice.publicKey) != "" && Trim(targetDevice.publicKey) == Trim(candidateDevice.publicKey))
    || (&& Normalize(targetDevice.name) == Normalize(candidateDevice.name)
        && Normalize(targetDevice.osType) == Normalize(candidateDevice.osType)
        && targetPresence.Some? && candidatePresence.Some?
        && SamePlace(targetPresence.value, candidatePresence.value))
  }

  /** What is remembered of a machine that was deleted: its LAN addresses or, without any, its public endpoint. */
  function PresentedKeys(userId: Uuid, device: Device, lanIps: seq<string>, publicIp: string, port: u16)
    : set<PresentedKey>
  {
    var name, osType := Normalize(device.name), Normalize(device.osType);
    var lan := set ip | ip in lanIps && Normalize(ip) != "" ::
      PresentedKey(userId, name, osType, Some(Normalize(ip)), None, None);
    if lan != {} then lan
    else if Trim(publicIp) != "" then {PresentedKey(userId, name, osType, None, Some(Trim(publicIp)), Some(port))}
    else {}
  }

  // ---- Topologies ----

  predicate Holds(slot: Option<Uuid>, ids: set<Uuid>) {
    slot.Some? && slot.value in ids
  }

  predicate NamesAny(t: Topology, ids: set<Uuid>) {
    || Holds(t.master, ids)
    || Holds(t.layout.left, ids) || Holds(t.layout.right, ids)
    || Holds(t.layout.top, ids) || Holds(t.layout.bottom, ids)
  }

  function Cleared(slot: Option<Uuid>, ids: set<Uuid>): Option<Uuid> {
    if Holds(slot, ids) then None else slot
  }

  function ClearedTopology(t: Topology, ids: set<Uuid>, now: u64): Topology {
    if !NamesAny(t, ids) then t
    else
      Topology(
        Cleared(t.master, ids),
        Layout(Cleared(t.layout.left, ids), Cleared(t.layout.right, ids),
               Cleared(t.layout.top, ids), Cleared(t.layout.bottom, ids)),
        SaturatingAdd(t.topologyVersion, 1),
        now)
  }
}
