/**
 Following a user's profiles from a cursor: what the change feed sends after it,
 laid over an old copy, against what the server stores.
 */
module ProfileSync {
  import opened Bytes
  import opened ServerData
  import opened StoreSteps
  import opened Text
  import opened Wrappers

  type Profiles = map<ProfileId, Profile>

  function UserProfiles(profiles: Profiles, userId: Uuid): Profiles {
    map p | p in profiles && p.userId == userId :: profiles[p]
  }

  /** What `list_profile_changes` returns, by id. */
  function ChangesSince(profiles: Profiles, userId: Uuid, since: u64): Profiles {
    map p | p in profiles && p.userId == userId && profiles[p].revision > since :: profiles[p]
  }

  // ---- Revisions ----

  /** Stored revisions never pass the counter, and below the largest one no two profiles share one. */
  ghost predicate RevisionsAreUnique(profiles: Profiles, counter: u64) {
    && (forall p <- profiles :: profiles[p].revision <= counter && profiles[p].id == p)
    && (forall p <- profiles, q <- profiles ::
          profiles[p].revision == profiles[q].revision < U64_MAX ==> p == q)
  }

  ghost predicate Revisions(s: Store) {
    RevisionsAreUnique(s.profiles, s.profileRevision)
  }

  /** What a step does to the profiles: nothing, or it stores one under the next revision, or a deletion drops some. */
  ghost predicate ProfileStep(s: Store, step: Step, after: Store) {
    || (after.profiles == s.profiles && after.profileRevision == s.profileRevision)
    || StoresOne(s, after)
    || (step.Delete? && Owns(s.devices, step.userId, step.id)
        && after.profileRevision == s.profileRevision
        && Drops(s.profiles, after.profiles, DeletedIds(s, step.userId, step.id, step.now)))
  }

  ghost predicate StoresOne(s: Store, after: Store) {
    && after.profileRevision == SaturatingAdd(s.profileRevision, 1)
    && exists id <- after.profiles ::
         after.profiles[id].revision == after.profileRevision && after.profiles[id].id == id
         && after.profiles == s.profiles[id := after.profiles[id]]
  }

  ghost predicate Drops(before: Profiles, after: Profiles, ids: set<Uuid>) {
    && (forall p <- after :: p in before && after[p] == before[p])
    && (forall p <- before :: p in after <==> p.source !in ids && p.target !in ids)
  }

  lemma StoringStoresOne(s: Store, id: ProfileId, config: string, version: u64, now: u64)
    ensures StoresOne(s, StoreProfile(s, id, config, version, now).store)
    ensures StoreProfile(s, id, config, version, now).reply.Success?
  {
    hide History;
    assert id in StoreProfile(s, id, config, version, now).store.profiles;
  }

  /** A step that has nothing to do with profiles. */
  predicate LeavesProfiles(s: Store, after: Store) {
    after.profiles == s.profiles && after.profileHistory == s.profileHistory
    && after.profileRevision == s.profileRevision
  }

  lemma DeviceStepsLeaveProfiles(s: Store, step: Step)
    requires step.Register? || step.Update? || step.Reauthorize?
    ensures LeavesProfiles(s, Apply(s, step))
  {
    hide Trim, Normalize, RefreshedDevice, NewDevice, UpdatedDevice, KeysWithout, PresentedWithout, DecideKey,
      IdFor;
  }

  lemma BeatLeavesProfiles(s: Store, userId: Uuid, id: Uuid, request: HeartbeatRequest, publicIp: string, now: u64)
    ensures LeavesProfiles(s, Heartbeat(s, userId, id, request, publicIp, now).store)
  {
    hide IsEvicted, SamePresentation, OnlineIn, NextPresenceVersion, NatType;
  }

  lemma OfflineLeavesProfiles(s: Store, userId: Uuid, id: Uuid, now: u64)
    ensures LeavesProfiles(s, MarkDeviceOffline(s, userId, id, now).store)
  {
    hide IsOnlineAt;
  }

  lemma TopologyLeavesProfiles(s: Store, userId: Uuid, master: Option<Uuid>, layout: Layout, now: u64)
    ensures LeavesProfiles(s, UpsertTopology(s, userId, master, layout, now).store)
  {
    hide OwnsAll;
  }

  lemma PresenceStepsLeaveProfiles(s: Store, step: Step)
    requires step.Beat? || step.GoOffline? || step.PutTopology?
    ensures LeavesProfiles(s, Apply(s, step))
  {
    hide LeavesProfiles, Heartbeat, MarkDeviceOffline, UpsertTopology;
    match step
    case Beat(userId, id, request, publicIp, now) => BeatLeavesProfiles(s, userId, id, request, publicIp, now);
    case GoOffline(userId, id, now) => OfflineLeavesProfiles(s, userId, id, now);
    case PutTopology(userId, master, layout, now) => TopologyLeavesProfiles(s, userId, master, layout, now);
  }

  lemma OthersLeaveProfiles(s: Store, step: Step)
    requires !step.PutProfile? && !step.Rollback? && !step.Delete?
    ensures LeavesProfiles(s, Apply(s, step))
  {
    hide Apply, LeavesProfiles;
    if step.Register? || step.Update? || step.Reauthorize? {
      DeviceStepsLeaveProfiles(s, step);
    } else {
      PresenceStepsLeaveProfiles(s, step);
    }
  }

  lemma DeleteIsAProfileStep(s: Store, userId: Uuid, id: Uuid, now: u64, order: seq<Uuid>)
    ensures ProfileStep(s, Delete(userId, id, now, order), DeleteDevice(s, userId, id, now, order).store)
  {
    hide DeletedIds, ScopeOf, OfflineEvents, ClearedTopology, StoresOne;
  }

  lemma UpsertIsAProfileStep(
    s: Store, userId: Uuid, source: Uuid, target: Uuid, expected: Option<u64>, config: string, now: u64)
    ensures var outcome := UpsertProfile(s, userId, source, target, expected, config, now);
            if outcome.reply.Success? then StoresOne(s, outcome.store) else outcome.store == s
  {
    hide StoreProfile, StoresOne;
    var id := ProfileId(userId, source, target);
    StoringStoresOne(s, id, config, if id in s.profiles then SaturatingAdd(s.profiles[id].version, 1) else 1, now);
  }

  lemma RollbackIsAProfileStep(s: Store, userId: Uuid, id: ProfileId, version: u64, now: u64)
    ensures var outcome := RollbackProfile(s, userId, id, version, now);
            if outcome.reply.Success? then StoresOne(s, outcome.store) else outcome.store == s
  {
    hide StoresOne, StoreProfile, FirstVersion, History;
    var found := ProfileVersion(s, id, version);
    if id in s.profiles && found.Some? {
      StoringStoresOne(s, id, found.value.config, SaturatingAdd(s.profiles[id].version, 1), now);
    }
  }

  lemma EveryStepIsAProfileStep(s: Store, step: Step)
    ensures ProfileStep(s, step, Apply(s, step))
  {
    hide StoresOne, UpsertProfile, RollbackProfile, DeleteDevice;
    match step
    case PutProfile(userId, source, target, expected, config, now) =>
      UpsertIsAProfileStep(s, userId, source, target, expected, config, now);
    case Rollback(userId, id, version, now) => RollbackIsAProfileStep(s, userId, id, version, now);
    case Delete(userId, id, now, order) =>
      hide ProfileStep;
      DeleteIsAProfileStep(s, userId, id, now, order);
    case _ =>
      hide Apply;
      OthersLeaveProfiles(s, step);
  }

  lemma StepKeepsRevisions(s: Store, step: Step)
    requires Revisions(s)
    ensures Revisions(Apply(s, step)) && s.profileRevision <= Apply(s, step).profileRevision
  {
    EveryStepIsAProfileStep(s, step);
    hide Apply, DeletedIds;
  }

  lemma {:induction false} RunKeepsRevisions(s: Store, steps: seq<Step>)
    requires Revisions(s)
    ensures Revisions(Run(s, steps)) && s.profileRevision <= Run(s, steps).profileRevision
    decreases |steps|
  {
    hide Revisions, Apply;
    if steps != [] {
      StepKeepsRevisions(s, steps[0]);
      RunKeepsRevisions(Apply(s, steps[0]), steps[1..]);
    }
  }

  // ---- Following ----

  /** Each profile was stored after the cursor, or is as it was at the cursor. */
  ghost predicate NewOrKept(before: Profiles, cursor: u64, after: Profiles) {
    forall p <- after :: after[p].revision > cursor || (p in before && before[p] == after[p])
  }

  lemma StepIsNewOrKept(s: Store, step: Step)
    requires Revisions(s) && Apply(s, step).profileRevision < U64_MAX
    ensures NewOrKept(s.profiles, s.profileRevision, Apply(s, step).profiles)
  {
    EveryStepIsAProfileStep(s, step);
    hide Apply, DeletedIds;
  }

  lemma {:induction false} RunIsNewOrKept(s: Store, steps: seq<Step>)
    requires Revisions(s) && Run(s, steps).profileRevision < U64_MAX
    ensures NewOrKept(s.profiles, s.profileRevision, Run(s, steps).profiles)
    decreases |steps|
  {
    hide Revisions, Apply;
    if steps != [] {
      var next := Apply(s, steps[0]);
      StepKeepsRevisions(s, steps[0]);
      RunKeepsRevisions(next, steps[1..]);
      StepIsNewOrKept(s, steps[0]);
      RunIsNewOrKept(next, steps[1..]);
    }
  }

  /** The copy holds every one of the profiles as it is stored; it may hold others that are gone. */
  ghost predicate Covers(copy: Profiles, profiles: Profiles) {
    forall p <- profiles :: p in copy && copy[p] == profiles[p]
  }

  /**
   A copy that is complete at a cursor stays complete when the changes after the cursor are laid
   over it, whatever requests the server handled in between.
   */
  lemma SyncStaysComplete(s: Store, steps: seq<Step>, userId: Uuid, copy: Profiles)
    requires Revisions(s) && Run(s, steps).profileRevision < U64_MAX
    requires Covers(copy, UserProfiles(s.profiles, userId))
    ensures var after := Run(s, steps);
            Covers(copy + ChangesSince(after.profiles, userId, s.profileRevision), UserProfiles(after.profiles, userId))
  {
    hide Revisions, Run;
    RunIsNewOrKept(s, steps);
  }

  ghost predicate DropsNow(s: Store, step: Step, p: ProfileId) {
    step.Delete? && Owns(s.devices, step.userId, step.id) && p in s.profiles
    && var ids := DeletedIds(s, step.userId, step.id, step.now); p.source in ids || p.target in ids
  }

  /** At some point of the run a deletion took one of the devices of the profile. */
  ghost predicate WasDropped(s: Store, steps: seq<Step>, p: ProfileId)
    decreases |steps|
  {
    steps != [] && (DropsNow(s, steps[0], p) || WasDropped(Apply(s, steps[0]), steps[1..], p))
  }

  lemma {:induction false} OnlyDeletionDrops(s: Store, steps: seq<Step>, p: ProfileId)
    requires p in s.profiles && p !in Run(s, steps).profiles
    ensures WasDropped(s, steps, p)
    decreases |steps|
  {
    hide Apply, DeletedIds;
    if steps != [] {
      EveryStepIsAProfileStep(s, steps[0]);
      if p in Apply(s, steps[0]).profiles {
        OnlyDeletionDrops(Apply(s, steps[0]), steps[1..], p);
      }
    }
  }

  lemma OverlayIsExactly(before: Profiles, after: Profiles, userId: Uuid, since: u64)
    requires Covers(UserProfiles(before, userId) + ChangesSince(after, userId, since), UserProfiles(after, userId))
    ensures UserProfiles(before, userId) + ChangesSince(after, userId, since) == UserProfiles(after, userId)
       <==> forall p <- before :: p.userId == userId ==> p in after
  {
    var synced := UserProfiles(before, userId) + ChangesSince(after, userId, since);
    if forall p <- before :: p.userId == userId ==> p in after {
      assert forall p <- synced :: p in UserProfiles(after, userId);
    } else {
      var p :| p in before && p.userId == userId && p !in after;
      assert p in synced && p !in UserProfiles(after, userId);
    }
  }

  /** A fresh copy brought up to date holds exactly the stored profiles, and what deletions took since the cursor. */
  lemma SyncIsExact(s: Store, steps: seq<Step>, userId: Uuid)
    requires Revisions(s) && Run(s, steps).profileRevision < U64_MAX
    ensures var after := Run(s, steps);
            var synced := UserProfiles(s.profiles, userId) + ChangesSince(after.profiles, userId, s.profileRevision);
            && Covers(synced, UserProfiles(after.profiles, userId))
            && (forall p <- synced :: p.userId == userId)
            && (forall p <- synced :: p !in after.profiles ==> p in s.profiles && WasDropped(s, steps, p))
            && (synced == UserProfiles(after.profiles, userId)
                <==> forall p <- s.profiles :: p.userId == userId ==> p in after.profiles)
  {
    var after := Run(s, steps);
    var copy := UserProfiles(s.profiles, userId);
    SyncStaysComplete(s, steps, userId, copy);
    hide Revisions, Run, WasDropped;
    forall p | p in s.profiles && p !in after.profiles ensures WasDropped(s, steps, p) {
      OnlyDeletionDrops(s, steps, p);
    }
    OverlayIsExactly(s.profiles, after.profiles, userId, s.profileRevision);
  }

  /** A profile that is stored is in the feed from the cursor before it exactly while the counter can still move. */
  lemma StoredProfileIsSeenExactly(s: Store, id: ProfileId, config: string, version: u64, now: u64)
    requires Revisions(s)
    ensures id in ChangesSince(StoreProfile(s, id, config, version, now).store.profiles, id.userId, s.profileRevision)
       <==> s.profileRevision < U64_MAX
  {
    hide Revisions, History;
    var after := StoreProfile(s, id, config, version, now).store;
    assert id in after.profiles;
  }

  /** In every run from the empty store. */
  lemma RevisionsStayUnique(steps: seq<Step>)
    ensures Revisions(Run(EMPTY, steps))
  {
    hide Apply;
    RunKeepsRevisions(EMPTY, steps);
  }
}
