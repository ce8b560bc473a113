/**
 A deleted machine stays out: what a deletion remembers of how a machine presented
 itself, what forgets it, and what that does to later heartbeats, over every run of requests.
 */
module DeletedMachines {
  import opened Bytes
  import opened KeyLifecycle
  import opened ServerData
  import opened StoreSteps
  import opened Text
  import opened Wrappers

  // ---- Forgetting ----

  /**
   A registration lets machines of a name and system in again: it succeeds under that name and system, with a key
   that was deleted.
   */
  ghost predicate LetsBack(s: Store, step: Step, userId: Uuid, name: string, osType: string) {
    && step.Register? && step.userId == userId
    && Normalize(step.registration.name) == name && Normalize(step.registration.osType) == osType
    && DecideKey(s.deletedKeys, step.userId, step.requested, step.registration.publicKey).ReactivateSameIdentity?
    && RegisterDevice(s, step.userId, step.registration, step.requested, step.found, step.now).reply.Success?
  }

  ghost predicate Forgives(s: Store, step: Step, k: PresentedKey) {
    LetsBack(s, step, k.userId, k.name, k.osType)
  }

  lemma RegistrationForgetsExactly(s: Store, step: Step, k: PresentedKey)
    requires step.Register? && k in s.deletedPresented
    ensures k in RegisterDevice(s, step.userId, step.registration, step.requested, step.found, step.now)
                   .store.deletedPresented
       <==> !Forgives(s, step, k)
  {
    hide RefreshedDevice, NewDevice, DecideKey, IdFor, KeysWithout, Trim, Normalize;
  }

  lemma OthersForgetNothing(s: Store, step: Step)
    requires !step.Register?
    ensures s.deletedPresented <= Apply(s, step).deletedPresented
  {
    hide UpdatedDevice, Trim, DeletedIds, ScopeOf, KeysOfDeleted, PresentedKeysOfDeleted, OfflineEvents,
      ClearedTopology, IsEvicted, SamePresentation, OnlineIn, IsOnlineAt, OwnsAll, ProfileVersion, History;
  }

  lemma RegisterApplies(s: Store, step: Step)
    requires step.Register?
    ensures Apply(s, step)
         == RegisterDevice(s, step.userId, step.registration, step.requested, step.found, step.now).store
  {
    hide RegisterDevice;
  }

  /** What a deletion remembered is forgotten by the registrations that forgive it, and by nothing else. */
  lemma ForgottenExactly(s: Store, step: Step, k: PresentedKey)
    requires k in s.deletedPresented
    ensures k in Apply(s, step).deletedPresented <==> !Forgives(s, step, k)
  {
    hide Apply, Forgives;
    if step.Register? {
      RegisterApplies(s, step);
      RegistrationForgetsExactly(s, step, k);
    } else {
      OthersForgetNothing(s, step);
      assert !Forgives(s, step, k) by { OnlyRegistrationsForgive(s, step, k); }
    }
  }

  lemma OnlyRegistrationsForgive(s: Store, step: Step, k: PresentedKey)
    ensures Forgives(s, step, k) ==> step.Register?
  {
  }

  /** A key that was not deleted forgives nothing, whatever name it comes with. */
  lemma FreshKeysForgiveNothing(s: Store, step: Step, k: PresentedKey)
    requires step.Register?
    requires forall t <- s.deletedKeys :: !KeyMatches(t, step.userId, step.registration.publicKey)
    ensures !Forgives(s, step, k)
  {
    hide RegisterDevice;
  }

  /** While keys are unique, only the registration that brings a deleted key back under its own id forgives. */
  lemma ForgivingReturnsADeletedKey(s: Store, step: Step, k: PresentedKey)
    requires Keys(s) && Forgives(s, step, k)
    ensures exists t <- s.deletedKeys :: Returns(step, t)
  {
    hide RegisterDevice, Normalize;
    var t :| t in s.deletedKeys && KeyMatches(t, step.userId, step.registration.publicKey);
    TombstoneDecides(s, step.userId, step.requested, step.registration.publicKey, t);
    assert Returns(step, t);
  }

  ghost predicate NeverLetsBack(s: Store, steps: seq<Step>, userId: Uuid, name: string, osType: string)
    decreases |steps|
  {
    steps != [] ==>
      && !LetsBack(s, steps[0], userId, name, osType)
      && NeverLetsBack(Apply(s, steps[0]), steps[1..], userId, name, osType)
  }

  ghost predicate NeverForgives(s: Store, steps: seq<Step>, k: PresentedKey) {
    NeverLetsBack(s, steps, k.userId, k.name, k.osType)
  }

  lemma {:induction false} RememberedThroughout(s: Store, steps: seq<Step>, k: PresentedKey)
    requires k in s.deletedPresented && NeverForgives(s, steps, k)
    ensures k in Run(s, steps).deletedPresented
    decreases |steps|
  {
    hide Apply, LetsBack;
    if steps != [] {
      ForgottenExactly(s, steps[0], k);
      RememberedThroughout(Apply(s, steps[0]), steps[1..], k);
    }
  }

  // ---- Staying out ----

  lemma DeletionRemembers(s: Store, userId: Uuid, id: Uuid, now: u64, order: seq<Uuid>, gone: Uuid, k: PresentedKey)
    requires Owns(s.devices, userId, id) && ScopeOf(s, userId, id, now).PresentedDevice?
    requires gone in DeletedIds(s, userId, id, now) && k in PresentedKeysOf(s.devices, s.presence, userId, gone)
    ensures k in DeleteDevice(s, userId, id, now, order).store.deletedPresented
  {
    hide DeletedIds, ScopeOf, PresentedKeysOf, KeysOfDeleted, OfflineEvents, ClearedTopology;
  }

  /** A heartbeat that shows any of what is remembered is refused, and a live device that sends it is taken away. */
  lemma RememberedIsRefused(
    s: Store, userId: Uuid, d: Uuid, request: HeartbeatRequest, publicIp: string, now: u64, k: PresentedKey)
    requires k in s.deletedPresented && d in s.devices
    requires k in PresentedKeys(userId, s.devices[d], request.lanIps, publicIp, request.listenPort)
    ensures var outcome := Heartbeat(s, userId, d, request, publicIp, now);
            && outcome.reply.Failure?
            && (Owns(s.devices, userId, d) && !s.devices[d].disabled ==> d !in outcome.store.devices)
  {
    hide PresentedKeys;
  }

  /**
   Once a machine was deleted as a whole, no heartbeat that shows any of what it presented gets
   through, in any run in which no registration brings one of its kind back with a deleted key.
   Registrations with fresh keys do not help.
   */
  lemma DeletedMachineStaysOut(
    s: Store, userId: Uuid, id: Uuid, now: u64, order: seq<Uuid>, gone: Uuid, k: PresentedKey, steps: seq<Step>,
    d: Uuid, request: HeartbeatRequest, publicIp: string, later: u64)
    requires Owns(s.devices, userId, id) && ScopeOf(s, userId, id, now).PresentedDevice?
    requires gone in DeletedIds(s, userId, id, now) && k in PresentedKeysOf(s.devices, s.presence, userId, gone)
    requires NeverForgives(DeleteDevice(s, userId, id, now, order).store, steps, k)
    ensures var current := Run(DeleteDevice(s, userId, id, now, order).store, steps);
            d in current.devices
            && k in PresentedKeys(userId, current.devices[d], request.lanIps, publicIp, request.listenPort) ==>
              Heartbeat(current, userId, d, request, publicIp, later).reply.Failure?
  {
    hide DeletedIds, ScopeOf, DeleteDevice, Run, NeverForgives, PresentedKeysOf, PresentedKeys, Heartbeat;
    DeletionRemembers(s, userId, id, now, order, gone, k);
    var deleted := DeleteDevice(s, userId, id, now, order).store;
    RememberedThroughout(deleted, steps, k);
    var current := Run(deleted, steps);
    if d in current.devices
       && k in PresentedKeys(userId, current.devices[d], request.lanIps, publicIp, request.listenPort)
    {
      RememberedIsRefused(current, userId, d, request, publicIp, later, k);
    }
  }

  function LanKey(userId: Uuid, d: Device, address: string): PresentedKey {
    PresentedKey(userId, Normalize(d.name), Normalize(d.osType), Some(Normalize(address)), None, None)
  }

  /** Two devices that call themselves the same and share a LAN address, up to case and spaces, show the same thing. */
  lemma SharedAddressShowsTheSame(
    userId: Uuid, gone: Device, p: Presence, d: Device, lanIps: seq<string>, publicIp: string, port: u16,
    address: string, same: string)
    requires address in p.lanIps && same in lanIps && Normalize(same) == Normalize(address) != ""
    requires Normalize(d.name) == Normalize(gone.name) && Normalize(d.osType) == Normalize(gone.osType)
    ensures LanKey(userId, gone, address) in PresentedKeys(userId, gone, p.lanIps, p.publicIp, p.listenPort)
    ensures LanKey(userId, gone, address) in PresentedKeys(userId, d, lanIps, publicIp, port)
  {
    hide Normalize, Trim;
  }

  // ---- In terms of names, addresses and ports ----

  lemma NormalizeKeepsLength(s: string)
    ensures |Normalize(s)| == |Trim(s)|
  {
    hide Trim;
  }

  /**
   A key is exhibited by what a device says of itself: its name and system, and one of its LAN addresses or, if it
   has none, the public address and port it is seen at.
   */
  predicate Exhibits(userId: Uuid, d: Device, lanIps: seq<string>, publicIp: string, port: u16, k: PresentedKey) {
    && k.userId == userId && k.name == Normalize(d.name) && k.osType == Normalize(d.osType)
    && match k.lanIp
       case Some(address) =>
         k.publicIp == None && k.listenPort == None && address != ""
         && exists ip <- lanIps :: Normalize(ip) == address
       case None =>
         (forall ip <- lanIps :: Trim(ip) == "") && Trim(publicIp) != ""
         && k.publicIp == Some(Trim(publicIp)) && k.listenPort == Some(port)
  }

  lemma ExhibitsExactly(
    userId: Uuid, d: Device, lanIps: seq<string>, publicIp: string, port: u16, k: PresentedKey)
    ensures k in PresentedKeys(userId, d, lanIps, publicIp, port) <==> Exhibits(userId, d, lanIps, publicIp, port, k)
  {
    hide Normalize, Trim;
    forall ip | ip in lanIps ensures Normalize(ip) == "" <==> Trim(ip) == "" {
      NormalizeKeepsLength(ip);
    }
    if ip :| ip in lanIps && Normalize(ip) != "" {
      var lan := PresentedKey(userId, Normalize(d.name), Normalize(d.osType), Some(Normalize(ip)), None, None);
      assert lan in PresentedKeys(userId, d, lanIps, publicIp, port);
    }
  }

  /** A deletion of a whole machine remembers exactly what its records exhibit; any other remembers nothing. */
  lemma DeletionRemembersExactly(
    s: Store, userId: Uuid, id: Uuid, now: u64, order: seq<Uuid>, k: PresentedKey)
    requires Owns(s.devices, userId, id)
    ensures k in DeleteDevice(s, userId, id, now, order).store.deletedPresented
       <==> || k in s.deletedPresented
            || (ScopeOf(s, userId, id, now).PresentedDevice?
                && exists gone <- DeletedIds(s, userId, id, now) ::
                     gone in s.devices && gone in s.presence
                     && Exhibits(userId, s.devices[gone], s.presence[gone].lanIps, s.presence[gone].publicIp,
                                 s.presence[gone].listenPort, k))
  {
    hide DeletedIds, ScopeOf, PresentedKeys, Exhibits, KeysOfDeleted, OfflineEvents, ClearedTopology;
    forall gone | gone in s.devices && gone in s.presence
      ensures k in PresentedKeysOf(s.devices, s.presence, userId, gone)
         <==> Exhibits(userId, s.devices[gone], s.presence[gone].lanIps, s.presence[gone].publicIp,
                       s.presence[gone].listenPort, k)
    {
      var p := s.presence[gone];
      ExhibitsExactly(userId, s.devices[gone], p.lanIps, p.publicIp, p.listenPort, k);
    }
  }

  /** A heartbeat is refused exactly if the device is not the user's, is disabled, or exhibits what is remembered. */
  lemma HeartbeatIsRefusedExactly(
    s: Store, userId: Uuid, d: Uuid, request: HeartbeatRequest, publicIp: string, now: u64)
    ensures var outcome := Heartbeat(s, userId, d, request, publicIp, now);
            if !(d in s.devices && s.devices[d].userId == userId) then outcome == Outcome(s, Failure(NotFound))
            else if s.devices[d].disabled then outcome == Outcome(s, Failure(Forbidden))
            else if exists k <- s.deletedPresented ::
                      Exhibits(userId, s.devices[d], request.lanIps, publicIp, request.listenPort, k)
            then
              outcome == Outcome(s.(devices := s.devices - {d}, presence := s.presence - {d}), Failure(Forbidden))
            else outcome.reply.Success?
  {
    hide PresentedKeys, Exhibits, OnlineIn, SamePresentation, NextPresenceVersion, NatType;
    if d in s.devices {
      forall k ensures k in PresentedKeys(userId, s.devices[d], request.lanIps, publicIp, request.listenPort)
                  <==> Exhibits(userId, s.devices[d], request.lanIps, publicIp, request.listenPort, k) {
        ExhibitsExactly(userId, s.devices[d], request.lanIps, publicIp, request.listenPort, k);
      }
    }
  }

  /**
   Two records say the same of themselves: one name and system, and a LAN address in common or, if neither has any,
   one public address and port.
   */
  predicate SayTheSame(
    a: Device, aLanIps: seq<string>, aPublicIp: string, aPort: u16,
    b: Device, bLanIps: seq<string>, bPublicIp: string, bPort: u16)
  {
    && Normalize(a.name) == Normalize(b.name) && Normalize(a.osType) == Normalize(b.osType)
    && (|| (exists x <- aLanIps :: Trim(x) != "" && exists y <- bLanIps :: Normalize(x) == Normalize(y))
        || (&& (forall x <- aLanIps :: Trim(x) == "") && (forall y <- bLanIps :: Trim(y) == "")
            && Trim(aPublicIp) == Trim(bPublicIp) != "" && aPort == bPort))
  }

  /** Records exhibit something in common if and only if they say the same of themselves. */
  lemma SayTheSameExactly(
    userId: Uuid, a: Device, aLanIps: seq<string>, aPublicIp: string, aPort: u16,
    b: Device, bLanIps: seq<string>, bPublicIp: string, bPort: u16)
    ensures (exists k :: Exhibits(userId, a, aLanIps, aPublicIp, aPort, k)
                         && Exhibits(userId, b, bLanIps, bPublicIp, bPort, k))
       <==> SayTheSame(a, aLanIps, aPublicIp, aPort, b, bLanIps, bPublicIp, bPort)
  {
    hide Normalize, Trim;
    forall x | x in aLanIps ensures Normalize(x) == "" <==> Trim(x) == "" {
      NormalizeKeepsLength(x);
    }
    if SayTheSame(a, aLanIps, aPublicIp, aPort, b, bLanIps, bPublicIp, bPort) {
      var name, osType := Normalize(a.name), Normalize(a.osType);
      if x :| x in aLanIps && Trim(x) != "" && exists y <- bLanIps :: Normalize(x) == Normalize(y) {
        var k := PresentedKey(userId, name, osType, Some(Normalize(x)), None, None);
        assert Exhibits(userId, a, aLanIps, aPublicIp, aPort, k) && Exhibits(userId, b, bLanIps, bPublicIp, bPort, k);
      } else {
        var k := PresentedKey(userId, name, osType, None, Some(Trim(aPublicIp)), Some(aPort));
        assert Exhibits(userId, a, aLanIps, aPublicIp, aPort, k) && Exhibits(userId, b, bLanIps, bPublicIp, bPort, k);
      }
    }
  }

  lemma ExhibitedNames(
    userId: Uuid, d: Device, lanIps: seq<string>, publicIp: string, port: u16, k: PresentedKey)
    requires Exhibits(userId, d, lanIps, publicIp, port, k)
    ensures k.userId == userId && k.name == Normalize(d.name) && k.osType == Normalize(d.osType)
  {
  }

  /** What a record exhibited stays remembered as long as nothing of its name and system is let back. */
  lemma ExhibitedStaysRemembered(
    s: Store, userId: Uuid, id: Uuid, now: u64, order: seq<Uuid>, gone: Uuid, steps: seq<Step>, k: PresentedKey)
    requires Owns(s.devices, userId, id) && ScopeOf(s, userId, id, now).PresentedDevice?
    requires gone in DeletedIds(s, userId, id, now) && gone in s.devices && gone in s.presence
    requires NeverLetsBack(DeleteDevice(s, userId, id, now, order).store, steps, userId,
                           Normalize(s.devices[gone].name), Normalize(s.devices[gone].osType))
    requires Exhibits(userId, s.devices[gone], s.presence[gone].lanIps, s.presence[gone].publicIp,
                      s.presence[gone].listenPort, k)
    ensures k in Run(DeleteDevice(s, userId, id, now, order).store, steps).deletedPresented
  {
    hide DeletedIds, ScopeOf, DeleteDevice, Run, NeverLetsBack, Exhibits, Normalize;
    var p := s.presence[gone];
    ExhibitedNames(userId, s.devices[gone], p.lanIps, p.publicIp, p.listenPort, k);
    DeletionRemembersExactly(s, userId, id, now, order, k);
    RememberedThroughout(DeleteDevice(s, userId, id, now, order).store, steps, k);
  }

  lemma RememberedIsForbidden(
    s: Store, userId: Uuid, d: Uuid, request: HeartbeatRequest, publicIp: string, now: u64, k: PresentedKey)
    requires k in s.deletedPresented && d in s.devices && s.devices[d].userId == userId
    requires Exhibits(userId, s.devices[d], request.lanIps, publicIp, request.listenPort, k)
    ensures var outcome := Heartbeat(s, userId, d, request, publicIp, now);
            outcome.reply == Failure(Forbidden) && (!s.devices[d].disabled ==> d !in outcome.store.devices)
  {
    hide Heartbeat, Exhibits;
    HeartbeatIsRefusedExactly(s, userId, d, request, publicIp, now);
  }

  /**
   After a whole machine was deleted, no heartbeat that says the same as one of its records gets through, over any
   run that lets nothing of its name and system back; the device that sends it is taken away.
   */
  lemma MachineStaysOut(
    s: Store, userId: Uuid, id: Uuid, now: u64, order: seq<Uuid>, gone: Uuid, steps: seq<Step>,
    d: Uuid, request: HeartbeatRequest, publicIp: string, later: u64)
    requires Owns(s.devices, userId, id) && ScopeOf(s, userId, id, now).PresentedDevice?
    requires gone in DeletedIds(s, userId, id, now) && gone in s.devices && gone in s.presence
    requires NeverLetsBack(DeleteDevice(s, userId, id, now, order).store, steps, userId,
                           Normalize(s.devices[gone].name), Normalize(s.devices[gone].osType))
    ensures var current := Run(DeleteDevice(s, userId, id, now, order).store, steps);
            d in current.devices && current.devices[d].userId == userId
            && SayTheSame(s.devices[gone], s.presence[gone].lanIps, s.presence[gone].publicIp,
                          s.presence[gone].listenPort,
                          current.devices[d], request.lanIps, publicIp, request.listenPort) ==>
              var outcome := Heartbeat(current, userId, d, request, publicIp, later);
              outcome.reply == Failure(Forbidden) && (!current.devices[d].disabled ==> d !in outcome.store.devices)
  {
    hide DeletedIds, ScopeOf, DeleteDevice, Run, NeverLetsBack, Exhibits, Normalize, Heartbeat, SayTheSame;
    var current := Run(DeleteDevice(s, userId, id, now, order).store, steps);
    if d in current.devices && current.devices[d].userId == userId {
      var p, e := s.presence[gone], current.devices[d];
      SayTheSameExactly(userId, s.devices[gone], p.lanIps, p.publicIp, p.listenPort,
                        e, request.lanIps, publicIp, request.listenPort);
      if k :| Exhibits(userId, s.devices[gone], p.lanIps, p.publicIp, p.listenPort, k)
              && Exhibits(userId, e, request.lanIps, publicIp, request.listenPort, k)
      {
        ExhibitedStaysRemembered(s, userId, id, now, order, gone, steps, k);
        RememberedIsForbidden(current, userId, d, request, publicIp, later, k);
      }
    }
  }
}
