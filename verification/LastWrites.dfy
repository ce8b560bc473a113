/**
 What is stored is what was said last: over every run of requests a presence, a layout,
 a name and a switch are those of the last request that set them.
 */
module LastWrites {
  import opened Bytes
  import opened DeletedMachines
  import opened GroupedDeletion
  import opened RequestEffects
  import opened ServerData
  import opened StoreSteps
  import opened Text
  import opened Wrappers

  // ---- Presence ----

  datatype Report = Report(userId: Uuid, request: HeartbeatRequest, publicIp: string, now: u64)

  /** The report that a step makes for a device, if it is a heartbeat of it that gets through. */
  ghost function ReportOf(s: Store, step: Step, d: Uuid): Option<Report> {
    if step.Beat? && step.id == d
       && Heartbeat(s, step.userId, d, step.beat, step.publicIp, step.now).reply.Success?
    then Some(Report(step.userId, step.beat, step.publicIp, step.now))
    else None
  }

  ghost function LastReport(s: Store, steps: seq<Step>, d: Uuid): Option<Report>
    decreases |steps|
  {
    if steps == [] then None
    else
      var later := LastReport(Apply(s, steps[0]), steps[1..], d);
      if later.Some? then later else ReportOf(s, steps[0], d)
  }

  predicate Tells(p: Presence, r: Report) {
    && p.userId == r.userId && p.publicIp == r.publicIp && p.lastSeenAt == r.now
    && p.lanIps == r.request.lanIps && p.listenPort == r.request.listenPort && p.display == r.request.display
    && p.natType == (match r.request.natType case Some(n) => n case None => "unknown")
  }

  predicate TellsTheSame(p: Presence, q: Presence) {
    q == p.(online := q.online, expiresAt := q.expiresAt, presenceVersion := q.presenceVersion)
  }

  /** One step: a presence that is there afterwards tells what the step reported, or what it told before. */
  ghost predicate StepTells(s: Store, step: Step, d: Uuid) {
    var after := Apply(s, step);
    d in after.presence ==>
      match ReportOf(s, step, d)
      case Some(r) => Tells(after.presence[d], r)
      case None => d in s.presence && TellsTheSame(s.presence[d], after.presence[d])
  }

  lemma BeatTells(s: Store, userId: Uuid, id: Uuid, request: HeartbeatRequest, publicIp: string, now: u64, d: Uuid)
    ensures StepTells(s, Beat(userId, id, request, publicIp, now), d)
  {
    if Heartbeat(s, userId, id, request, publicIp, now).reply.Success? {
      HeartbeatStores(s, userId, id, request, publicIp, now);
      hide Heartbeat;
    } else {
      hide Exhibits;
      HeartbeatIsRefusedExactly(s, userId, id, request, publicIp, now);
      hide Heartbeat;
    }
  }

  lemma OfflineTells(s: Store, userId: Uuid, id: Uuid, now: u64, d: Uuid)
    ensures StepTells(s, GoOffline(userId, id, now), d)
  {
    if id in s.devices && s.devices[id].userId == userId && id in s.presence {
      OfflineStores(s, userId, id, now);
    } else {
      OfflineChangesNothing(s, userId, id, now);
    }
    hide MarkDeviceOffline;
  }

  lemma DeletionTells(s: Store, step: Step, d: Uuid)
    requires step.Delete?
    ensures StepTells(s, step, d)
  {
    hide DeletedIds, KeysOfDeleted, PresentedKeysOfDeleted, OfflineEvents, ClearedTopology, ScopeOf;
  }

  lemma OthersTell(s: Store, step: Step, d: Uuid)
    requires !step.Beat? && !step.GoOffline? && !step.Delete?
    ensures StepTells(s, step, d)
  {
    OthersKeepPresence(s, step);
    hide Apply;
  }

  lemma OthersKeepPresence(s: Store, step: Step)
    requires !step.Beat? && !step.GoOffline? && !step.Delete?
    ensures Apply(s, step).presence == s.presence
  {
    hide RegisterDevice, UpdateDevice, ReauthorizeDevice, UpsertTopology, UpsertProfile, RollbackProfile, OwnsAll,
      StoresConfig, IsVersion, PutsOnly, Trim, IsMine;
    match step
    case Register(userId, request, requested, found, now) =>
      RegisterKeepsTheRest(s, userId, request, requested, found, now);
    case Update(userId, id, request, now) =>
      UpdateIsRefusedExactly(s, userId, id, request, now);
      if UpdateDevice(s, userId, id, request, now).reply.Success? {
        UpdateStores(s, userId, id, request, now);
      }
    case Reauthorize(userId, id, publicKey, now) =>
      ReauthorizeIsRefusedExactly(s, userId, id, publicKey, now);
      if Owns(s.devices, userId, id) && Trim(publicKey) != "" {
        ReauthorizeStores(s, userId, id, publicKey, now);
      }
    case PutTopology(userId, master, layout, now) =>
      TopologyStoresExactly(s, userId, master, layout, now);
    case PutProfile(userId, source, target, expected, config, now) =>
      UpsertKeepsTheRest(s, userId, source, target, expected, config, now);
    case Rollback(userId, profile, version, now) =>
      RollbackKeepsTheRest(s, userId, profile, version, now);
  }

  lemma UpsertKeepsTheRest(
    s: Store, userId: Uuid, source: Uuid, target: Uuid, expected: Option<u64>, config: string, now: u64)
    ensures var after := UpsertProfile(s, userId, source, target, expected, config, now).store;
            after == s.(profiles := after.profiles, profileHistory := after.profileHistory,
                        profileRevision := after.profileRevision, events := after.events)
  {
    hide History;
  }

  lemma RollbackKeepsTheRest(s: Store, userId: Uuid, id: ProfileId, version: u64, now: u64)
    ensures var after := RollbackProfile(s, userId, id, version, now).store;
            after == s.(profiles := after.profiles, profileHistory := after.profileHistory,
                        profileRevision := after.profileRevision, events := after.events)
  {
    hide History, ProfileVersion;
  }

  lemma EveryStepTells(s: Store, step: Step, d: Uuid)
    ensures StepTells(s, step, d)
  {
    hide StepTells;
    match step
    case Beat(userId, id, request, publicIp, now) => BeatTells(s, userId, id, request, publicIp, now, d);
    case GoOffline(userId, id, now) => OfflineTells(s, userId, id, now, d);
    case Delete(_, _, _, _) => DeletionTells(s, step, d);
    case _ => OthersTell(s, step, d);
  }

  /** Over any run, a presence tells exactly what the last heartbeat of its device that got through reported. */
  lemma {:induction false} PresenceIsTheLastReport(s: Store, steps: seq<Step>, d: Uuid)
    requires d in Run(s, steps).presence
    ensures match LastReport(s, steps, d)
            case Some(r) => Tells(Run(s, steps).presence[d], r)
            case None => d in s.presence && TellsTheSame(s.presence[d], Run(s, steps).presence[d])
    decreases |steps|
  {
    hide Apply, ReportOf;
    if steps != [] {
      EveryStepTells(s, steps[0], d);
      PresenceIsTheLastReport(Apply(s, steps[0]), steps[1..], d);
    }
  }

  // ---- Layouts ----

  /** The devices that a step deletes. */
  ghost function GoneIn(s: Store, step: Step): set<Uuid> {
    if step.Delete? && Owns(s.devices, step.userId, step.id) then DeletedIds(s, step.userId, step.id, step.now) else {}
  }

  ghost predicate PutsLayout(s: Store, step: Step, userId: Uuid) {
    step.PutTopology? && step.userId == userId
    && UpsertTopology(s, userId, step.master, step.layout, step.now).reply.Success?
  }

  datatype Slots = Slots(master: Option<Uuid>, layout: Layout)

  function Without(slots: Slots, ids: set<Uuid>): Slots {
    Slots(WithoutIn(slots.master, ids),
          Layout(WithoutIn(slots.layout.left, ids), WithoutIn(slots.layout.right, ids),
                 WithoutIn(slots.layout.top, ids), WithoutIn(slots.layout.bottom, ids)))
  }

  function WithoutIn(slot: Option<Uuid>, ids: set<Uuid>): Option<Uuid> {
    match slot
    case Some(id) => if id in ids then None else slot
    case None => None
  }

  /** What was put last, without what has been deleted since; `before` if nothing was put. */
  ghost function LastLayout(s: Store, steps: seq<Step>, userId: Uuid, before: Slots): Slots
    decreases |steps|
  {
    if steps == [] then before
    else
      LastLayout(Apply(s, steps[0]), steps[1..], userId,
                 if PutsLayout(s, steps[0], userId) then Slots(steps[0].master, steps[0].layout)
                 else Without(before, GoneIn(s, steps[0])))
  }

  function SlotsOf(s: Store, userId: Uuid): Slots {
    if userId in s.topologies then Slots(s.topologies[userId].master, s.topologies[userId].layout)
    else Slots(None, Layout(None, None, None, None))
  }

  ghost predicate StepLays(s: Store, step: Step, userId: Uuid) {
    SlotsOf(Apply(s, step), userId)
      == if PutsLayout(s, step, userId) then Slots(step.master, step.layout)
         else Without(SlotsOf(s, userId), GoneIn(s, step))
  }

  lemma WithoutNone(slots: Slots)
    ensures Without(slots, {}) == slots
  {
  }

  lemma DeletionLays(s: Store, step: Step, userId: Uuid)
    requires step.Delete?
    ensures StepLays(s, step, userId)
  {
    WithoutNone(SlotsOf(s, userId));
    if Owns(s.devices, step.userId, step.id) {
      DeletionKeepsTheRest(s, step.userId, step.id, step.now, step.order);
    }
    hide DeletedIds, ClearedTopology, WithoutDevices, KeysOfDeleted, PresentedKeysOfDeleted, OfflineEvents, ScopeOf;
  }

  lemma PuttingLays(s: Store, step: Step, userId: Uuid)
    requires step.PutTopology?
    ensures StepLays(s, step, userId)
  {
    WithoutNone(SlotsOf(s, userId));
    TopologyStoresExactly(s, step.userId, step.master, step.layout, step.now);
    hide UpsertTopology, IsMine, IsNext, Without;
  }

  lemma OthersLay(s: Store, step: Step, userId: Uuid)
    requires !step.Delete? && !step.PutTopology?
    ensures StepLays(s, step, userId)
  {
    WithoutNone(SlotsOf(s, userId));
    OthersKeepTopologies(s, step);
    hide Apply, Without;
  }

  lemma OthersKeepTopologies(s: Store, step: Step)
    requires !step.Delete? && !step.PutTopology?
    ensures Apply(s, step).topologies == s.topologies
  {
    hide Trim, IsEvicted, OnlineIn, SamePresentation, IsOnlineAt, History, ProfileVersion, DecideKey, KeysWithout,
      PresentedWithout, IdFor, RefreshedDevice, NewDevice, UpdatedDevice;
  }

  lemma EveryStepLays(s: Store, step: Step, userId: Uuid)
    ensures StepLays(s, step, userId)
  {
    hide StepLays;
    if step.Delete? {
      DeletionLays(s, step, userId);
    } else if step.PutTopology? {
      PuttingLays(s, step, userId);
    } else {
      OthersLay(s, step, userId);
    }
  }

  /** Over any run, each slot holds what was put there last, unless that device has been deleted since. */
  lemma {:induction false} LayoutIsTheLastPut(s: Store, steps: seq<Step>, userId: Uuid)
    ensures SlotsOf(Run(s, steps), userId) == LastLayout(s, steps, userId, SlotsOf(s, userId))
    decreases |steps|
  {
    hide Apply, PutsLayout, GoneIn, Without, SlotsOf;
    if steps != [] {
      EveryStepLays(s, steps[0], userId);
      LayoutIsTheLastPut(Apply(s, steps[0]), steps[1..], userId);
    }
  }

  // ---- Names and switches ----

  /** What the user has set of a device. */
  datatype Settings = Settings(name: string, disabled: bool)

  function SettingsOf(s: Store, d: Uuid): Option<Settings> {
    if d in s.devices then Some(Settings(s.devices[d].name, s.devices[d].disabled)) else None
  }

  /** The settings after a step, in terms of the request alone; `None` when the device is gone. */
  ghost function SettingsAfter(s: Store, step: Step, d: Uuid, before: Option<Settings>): Option<Settings> {
    match step
    case Register(userId, request, requested, found, now) =>
      if before == None && RegisterDevice(s, userId, request, requested, found, now).reply == Success(d)
      then Some(Settings(request.name, false)) else before
    case Update(userId, id, request, now) =>
      if id == d && before.Some? && UpdateDevice(s, userId, id, request, now).reply.Success?
      then Some(Settings(if request.name.Some? then request.name.value else before.value.name,
                         if request.disabled.Some? then request.disabled.value else before.value.disabled))
      else before
    case Reauthorize(userId, id, publicKey, now) =>
      if id == d && before.Some? && ReauthorizeDevice(s, userId, id, publicKey, now).reply.Success?
      then Some(before.value.(disabled := false)) else before
    case Delete(userId, id, now, _) => if d in GoneIn(s, step) then None else before
    case Beat(userId, id, request, publicIp, now) =>
      if id == d && d !in Heartbeat(s, userId, id, request, publicIp, now).store.devices then None else before
    case _ => before
  }

  ghost predicate StepSets(s: Store, step: Step, d: Uuid) {
    SettingsOf(Apply(s, step), d) == SettingsAfter(s, step, d, SettingsOf(s, d))
  }

  lemma RegistrationSets(s: Store, step: Step, d: Uuid)
    requires step.Register? && Proper(s, step)
    ensures StepSets(s, step, d)
  {
    var Register(userId, request, requested, found, now) := step;
    var outcome := RegisterDevice(s, userId, request, requested, found, now);
    RegisterKeepsTheRest(s, userId, request, requested, found, now);
    if outcome.reply.Success? {
      if outcome.reply.value in s.devices {
        RegisterStoresAgain(s, userId, request, requested, found, now);
      } else {
        RegisterStoresNew(s, userId, request, requested, found, now);
      }
    }
    hide RegisterDevice;
  }

  lemma ChangeSets(s: Store, step: Step, d: Uuid)
    requires step.Update? || step.Reauthorize?
    ensures StepSets(s, step, d)
  {
    hide UpdateDevice, ReauthorizeDevice, Trim;
    match step
    case Update(userId, id, request, now) =>
      UpdateIsRefusedExactly(s, userId, id, request, now);
      if UpdateDevice(s, userId, id, request, now).reply.Success? {
        UpdateStores(s, userId, id, request, now);
      }
    case Reauthorize(userId, id, publicKey, now) =>
      ReauthorizeIsRefusedExactly(s, userId, id, publicKey, now);
      if Owns(s.devices, userId, id) && Trim(publicKey) != "" {
        ReauthorizeStores(s, userId, id, publicKey, now);
      }
  }

  lemma BeatSets(s: Store, step: Step, d: Uuid)
    requires step.Beat?
    ensures StepSets(s, step, d)
  {
    var Beat(userId, id, request, publicIp, now) := step;
    if Heartbeat(s, userId, id, request, publicIp, now).reply.Success? {
      HeartbeatStores(s, userId, id, request, publicIp, now);
    } else {
      hide Exhibits;
      HeartbeatIsRefusedExactly(s, userId, id, request, publicIp, now);
    }
    hide Heartbeat;
  }

  lemma DeletionSets(s: Store, step: Step, d: Uuid)
    requires step.Delete?
    ensures StepSets(s, step, d)
  {
    hide DeletedIds, ClearedTopology, KeysOfDeleted, PresentedKeysOfDeleted, OfflineEvents, ScopeOf;
  }

  lemma OthersSet(s: Store, step: Step, d: Uuid)
    requires step.GoOffline? || step.PutTopology? || step.PutProfile? || step.Rollback?
    ensures StepSets(s, step, d)
  {
    hide IsOnlineAt, OwnsAll, History, ProfileVersion;
  }

  lemma EveryStepSets(s: Store, step: Step, d: Uuid)
    requires Proper(s, step)
    ensures StepSets(s, step, d)
  {
    hide StepSets;
    if step.Register? {
      RegistrationSets(s, step, d);
    } else if step.Update? || step.Reauthorize? {
      ChangeSets(s, step, d);
    } else if step.Beat? {
      BeatSets(s, step, d);
    } else if step.Delete? {
      DeletionSets(s, step, d);
    } else {
      OthersSet(s, step, d);
    }
  }

  ghost function LastSettings(s: Store, steps: seq<Step>, d: Uuid, before: Option<Settings>): Option<Settings>
    decreases |steps|
  {
    if steps == [] then before
    else LastSettings(Apply(s, steps[0]), steps[1..], d, SettingsAfter(s, steps[0], d, before))
  }

  /** Over any run, a device has the name and the switch that the user set last; registering again sets neither. */
  lemma {:induction false} SettingsAreTheLastSet(s: Store, steps: seq<Step>, d: Uuid)
    requires ProperRun(s, steps)
    ensures SettingsOf(Run(s, steps), d) == LastSettings(s, steps, d, SettingsOf(s, d))
    decreases |steps|
  {
    hide Apply, SettingsAfter, Proper, SettingsOf;
    if steps != [] {
      EveryStepSets(s, steps[0], d);
      SettingsAreTheLastSet(Apply(s, steps[0]), steps[1..], d);
    }
  }

  // ---- Disabled devices ----

  /** A step that enables the device, or takes it away. */
  ghost predicate Frees(s: Store, step: Step, d: Uuid) {
    || (step.Update? && step.id == d && step.update.disabled == Some(false))
    || (step.Reauthorize? && step.id == d)
    || d in GoneIn(s, step)
  }

  ghost predicate NeverFrees(s: Store, steps: seq<Step>, d: Uuid)
    decreases |steps|
  {
    steps != [] ==> !Frees(s, steps[0], d) && NeverFrees(Apply(s, steps[0]), steps[1..], d)
  }

  lemma StaysDisabled(s: Store, step: Step, d: Uuid)
    requires Proper(s, step) && d in s.devices && s.devices[d].disabled && !Frees(s, step, d)
    ensures d in Apply(s, step).devices && Apply(s, step).devices[d].disabled
  {
    EveryStepSets(s, step, d);
    if step.Beat? {
      HeartbeatIsRefusedExactly(s, step.userId, step.id, step.beat, step.publicIp, step.now);
    }
    hide Apply, Heartbeat, GoneIn, Exhibits, RegisterDevice, UpdateDevice, ReauthorizeDevice;
  }

  /**
   Once disabled, a device is refused over any run that neither enables it, nor gives it a new key, nor deletes it:
   no heartbeat of its own and no further registration brings it back.
   */
  lemma {:induction false} DisabledStaysRefused(
    s: Store, steps: seq<Step>, d: Uuid, userId: Uuid, request: HeartbeatRequest, publicIp: string, now: u64)
    requires ProperRun(s, steps) && d in s.devices && s.devices[d].disabled && NeverFrees(s, steps, d)
    ensures d in Run(s, steps).devices && Run(s, steps).devices[d].disabled
    ensures Heartbeat(Run(s, steps), userId, d, request, publicIp, now).store == Run(s, steps)
    ensures Heartbeat(Run(s, steps), userId, d, request, publicIp, now).reply
         == Failure(if Run(s, steps).devices[d].userId == userId then Forbidden else NotFound)
    decreases |steps|
  {
    hide Apply, Frees, Proper, Exhibits, Heartbeat;
    if steps == [] {
      HeartbeatIsRefusedExactly(s, userId, d, request, publicIp, now);
    } else {
      StaysDisabled(s, steps[0], d);
      DisabledStaysRefused(Apply(s, steps[0]), steps[1..], d, userId, request, publicIp, now);
    }
  }
}
