/**
 Following a user's profiles by the published events: a client that applies every
 `ProfileChanged` it hears has each stored profile as it is stored.
 */
module ProfileEvents {
  import opened Bytes
  import opened ProfileSync
  import opened ServerData
  import opened StoreSteps
  import opened Text
  import opened Wrappers

  /** What a client holds after hearing `events`. */
  function Heard(profiles: Profiles, events: seq<ServerEvent>): Profiles
    decreases |events|
  {
    if events == [] then profiles
    else
      var e := events[0];
      Heard(if e.ProfileChanged? then profiles[e.profile.id := e.profile] else profiles, events[1..])
  }

  /** The events that a step publishes. */
  ghost function StepEvents(s: Store, step: Step): seq<ServerEvent> {
    var after := Apply(s, step);
    if s.events <= after.events then after.events[|s.events|..] else []
  }

  ghost function RunEvents(s: Store, steps: seq<Step>): seq<ServerEvent>
    decreases |steps|
  {
    if steps == [] then [] else StepEvents(s, steps[0]) + RunEvents(Apply(s, steps[0]), steps[1..])
  }

  ghost predicate NoProfileIn(events: seq<ServerEvent>) {
    forall e <- events :: !e.ProfileChanged?
  }

  lemma {:induction false} HeardNothing(profiles: Profiles, events: seq<ServerEvent>)
    requires NoProfileIn(events)
    ensures Heard(profiles, events) == profiles
    decreases |events|
  {
    if events != [] {
      HeardNothing(profiles, events[1..]);
    }
  }

  lemma HeardOne(profiles: Profiles, p: Profile, userId: Uuid)
    ensures Heard(profiles, [ProfileChanged(userId, p)]) == profiles[p.id := p]
  {
    assert [ProfileChanged(userId, p)][1..] == [];
  }

  lemma {:induction false} HeardConcat(profiles: Profiles, a: seq<ServerEvent>, b: seq<ServerEvent>)
    ensures Heard(profiles, a + b) == Heard(Heard(profiles, a), b)
    decreases |a|
  {
    if a == [] {
      assert a + b == b;
    } else {
      var e := a[0];
      assert (a + b)[1..] == a[1..] + b;
      HeardConcat(if e.ProfileChanged? then profiles[e.profile.id := e.profile] else profiles, a[1..], b);
    }
  }

  // ---- One step ----

  /** The step stores one profile and publishes just that, or it publishes no profile and stores none. */
  ghost predicate Announces(s: Store, after: Store) {
    || (exists id <- after.profiles ::
          && after.profiles[id].id == id && after.profiles == s.profiles[id := after.profiles[id]]
          && after.events == s.events + [ProfileChanged(id.userId, after.profiles[id])])
    || (&& (forall p <- after.profiles :: p in s.profiles && after.profiles[p] == s.profiles[p])
        && s.events <= after.events && NoProfileIn(after.events[|s.events|..]))
  }

  ghost predicate QuietlyKeeps(s: Store, after: Store) {
    && after.profiles == s.profiles
    && (after.events == s.events
        || (|after.events| == |s.events| + 1 && s.events <= after.events && !after.events[|s.events|].ProfileChanged?))
  }

  lemma QuietAnnounces(s: Store, after: Store)
    requires QuietlyKeeps(s, after)
    ensures Announces(s, after)
  {
  }

  lemma StoringAnnounces(s: Store, id: ProfileId, config: string, version: u64, now: u64)
    ensures Announces(s, StoreProfile(s, id, config, version, now).store)
  {
    hide History;
    assert id in StoreProfile(s, id, config, version, now).store.profiles;
  }

  lemma UpsertAnnounces(
    s: Store, userId: Uuid, source: Uuid, target: Uuid, expected: Option<u64>, config: string, now: u64)
    ensures Announces(s, UpsertProfile(s, userId, source, target, expected, config, now).store)
  {
    var id := ProfileId(userId, source, target);
    StoringAnnounces(s, id, config, if id in s.profiles then SaturatingAdd(s.profiles[id].version, 1) else 1, now);
    QuietAnnounces(s, s);
    hide StoreProfile, Announces, Owns;
  }

  lemma RollbackAnnounces(s: Store, userId: Uuid, id: ProfileId, version: u64, now: u64)
    ensures Announces(s, RollbackProfile(s, userId, id, version, now).store)
  {
    QuietAnnounces(s, s);
    hide StoreProfile, Announces, FirstVersion, History;
    var found := ProfileVersion(s, id, version);
    if id in s.profiles && found.Some? {
      StoringAnnounces(s, id, found.value.config, SaturatingAdd(s.profiles[id].version, 1), now);
    }
  }

  lemma {:induction false} OfflineEventsHoldNoProfile(presence: map<Uuid, Presence>, userId: Uuid, order: seq<Uuid>)
    ensures NoProfileIn(OfflineEvents(presence, userId, order))
  {
    hide NextPresenceVersion;
    if order != [] {
      OfflineEventsHoldNoProfile(presence, userId, order[1..]);
    }
  }

  lemma DeleteAnnounces(s: Store, userId: Uuid, id: Uuid, now: u64, order: seq<Uuid>)
    ensures Announces(s, DeleteDevice(s, userId, id, now, order).store)
  {
    OfflineEventsHoldNoProfile(s.presence, userId, order);
    QuietAnnounces(s, s);
    hide DeletedIds, ScopeOf, OfflineEvents, ClearedTopology, KeysOfDeleted, PresentedKeysOfDeleted, NoProfileIn;
    var published := OfflineEvents(s.presence, userId, order);
    assert (s.events + published)[|s.events|..] == published;
  }

  lemma DeviceStepIsQuiet(s: Store, step: Step)
    requires step.Register? || step.Update? || step.Reauthorize?
    ensures QuietlyKeeps(s, Apply(s, step))
  {
    hide RefreshedDevice, NewDevice, DecideKey, IdFor, KeysWithout, PresentedWithout, UpdatedDevice, Trim;
  }

  lemma PresenceStepIsQuiet(s: Store, step: Step)
    requires step.Beat? || step.GoOffline? || step.PutTopology?
    ensures QuietlyKeeps(s, Apply(s, step))
  {
    hide IsEvicted, SamePresentation, OnlineIn, IsOnlineAt, OwnsAll;
  }

  lemma EveryStepAnnounces(s: Store, step: Step)
    ensures Announces(s, Apply(s, step))
  {
    hide Announces, DeleteDevice, UpsertProfile, RollbackProfile;
    match step
    case PutProfile(userId, source, target, expected, config, now) =>
      UpsertAnnounces(s, userId, source, target, expected, config, now);
    case Rollback(userId, id, version, now) => RollbackAnnounces(s, userId, id, version, now);
    case Delete(userId, id, now, order) => DeleteAnnounces(s, userId, id, now, order);
    case Beat(_, _, _, _, _) =>
      PresenceStepIsQuiet(s, step);
      QuietAnnounces(s, Apply(s, step));
    case GoOffline(_, _, _) =>
      PresenceStepIsQuiet(s, step);
      QuietAnnounces(s, Apply(s, step));
    case PutTopology(_, _, _, _) =>
      PresenceStepIsQuiet(s, step);
      QuietAnnounces(s, Apply(s, step));
    case _ =>
      DeviceStepIsQuiet(s, step);
      QuietAnnounces(s, Apply(s, step));
  }

  // ---- Runs ----

  lemma StepIsHeard(s: Store, step: Step, copy: Profiles)
    requires Covers(copy, s.profiles)
    ensures Covers(Heard(copy, StepEvents(s, step)), Apply(s, step).profiles)
  {
    EveryStepAnnounces(s, step);
    hide Apply;
    var after := Apply(s, step);
    if s.events <= after.events && NoProfileIn(after.events[|s.events|..]) {
      HeardNothing(copy, StepEvents(s, step));
      hide Heard;
    } else {
      var id :| id in after.profiles && after.profiles[id].id == id
                && after.profiles == s.profiles[id := after.profiles[id]]
                && after.events == s.events + [ProfileChanged(id.userId, after.profiles[id])];
      assert after.events[|s.events|..] == [ProfileChanged(id.userId, after.profiles[id])];
      HeardOne(copy, after.profiles[id], id.userId);
      hide Heard;
    }
  }

  /** A copy that is complete stays complete through every run, by hearing what the run publishes. */
  lemma {:induction false} HearingKeepsUp(s: Store, steps: seq<Step>, copy: Profiles)
    requires Covers(copy, s.profiles)
    ensures Covers(Heard(copy, RunEvents(s, steps)), Run(s, steps).profiles)
    decreases |steps|
  {
    hide Apply, Covers, StepEvents;
    if steps == [] {
      HeardNothing(copy, []);
    } else {
      var first, rest := StepEvents(s, steps[0]), RunEvents(Apply(s, steps[0]), steps[1..]);
      StepIsHeard(s, steps[0], copy);
      HearingKeepsUp(Apply(s, steps[0]), steps[1..], Heard(copy, first));
      HeardConcat(copy, first, rest);
      assert RunEvents(s, steps) == first + rest;
      hide Heard;
    }
  }

  /** Hearing and asking agree: both copies hold every stored profile as it is stored. */
  lemma HearingAgreesWithAsking(s: Store, steps: seq<Step>, p: ProfileId)
    requires Revisions(s) && Run(s, steps).profileRevision < U64_MAX && p in Run(s, steps).profiles
    ensures var heard := Heard(s.profiles, RunEvents(s, steps));
            var asked := s.profiles + ChangesSince(Run(s, steps).profiles, p.userId, s.profileRevision);
            p in heard && p in asked && heard[p] == asked[p]
  {
    HearingKeepsUp(s, steps, s.profiles);
    SyncStaysComplete(s, steps, p.userId, s.profiles);
    hide Heard, RunEvents, Run, Revisions;
  }
}
