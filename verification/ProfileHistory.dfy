/**
 The versions of a profile: what the history holds and what a rollback finds, over
 every run, with and without deletions of the profile's devices.
 */
module ProfileHistory {
  import opened Bytes
  import opened ProfileSync
  import opened ServerData
  import opened StoreSteps
  import opened Wrappers

  // ---- One step ----

  ghost predicate Stored(s: Store, after: Store, id: ProfileId) {
    && after.profileRevision == SaturatingAdd(s.profileRevision, 1)
    && id in after.profiles && after.profiles[id].id == id
    && after.profiles[id].revision == after.profileRevision
    && if id in s.profiles
       then && History(after, id) == History(s, id) + [s.profiles[id]]
            && after.profiles[id].version == SaturatingAdd(s.profiles[id].version, 1)
       else History(after, id) == History(s, id) && after.profiles[id].version == 1
  }

  ghost predicate Untouched(s: Store, after: Store, id: ProfileId) {
    && History(after, id) == History(s, id) && Find(after.profiles, id) == Find(s.profiles, id)
    && s.profileRevision <= after.profileRevision
  }

  ghost predicate Dropped(s: Store, after: Store, id: ProfileId) {
    && id !in after.profiles && History(after, id) == History(s, id)
    && s.profileRevision <= after.profileRevision
  }

  lemma StoringStores(s: Store, id: ProfileId, config: string, version: u64, now: u64, p: ProfileId)
    requires version == if id in s.profiles then SaturatingAdd(s.profiles[id].version, 1) else 1
    ensures var after := StoreProfile(s, id, config, version, now).store;
            if p == id then Stored(s, after, p) else Untouched(s, after, p)
  {
  }

  lemma UpsertStores(
    s: Store, userId: Uuid, source: Uuid, target: Uuid, expected: Option<u64>, config: string, now: u64, p: ProfileId)
    ensures var after := UpsertProfile(s, userId, source, target, expected, config, now).store;
            Stored(s, after, p) || Untouched(s, after, p)
  {
    hide StoreProfile, Stored, Untouched;
    var id := ProfileId(userId, source, target);
    StoringStores(s, id, config, if id in s.profiles then SaturatingAdd(s.profiles[id].version, 1) else 1, now, p);
    assert Untouched(s, s, p) by { NothingTouches(s, s, p); }
  }

  lemma NothingTouches(s: Store, after: Store, p: ProfileId)
    requires LeavesProfiles(s, after)
    ensures Untouched(s, after, p)
  {
  }

  lemma RollbackStores(s: Store, userId: Uuid, id: ProfileId, version: u64, now: u64, p: ProfileId)
    ensures var after := RollbackProfile(s, userId, id, version, now).store;
            Stored(s, after, p) || Untouched(s, after, p)
  {
    hide StoreProfile, Stored, Untouched, FirstVersion, History;
    var found := ProfileVersion(s, id, version);
    if id in s.profiles && found.Some? {
      StoringStores(s, id, found.value.config, SaturatingAdd(s.profiles[id].version, 1), now, p);
    }
    NothingTouches(s, s, p);
  }

  lemma DeleteDropsOrLeaves(s: Store, userId: Uuid, id: Uuid, now: u64, order: seq<Uuid>, p: ProfileId)
    ensures var step, after := Delete(userId, id, now, order), DeleteDevice(s, userId, id, now, order).store;
            if DropsNow(s, step, p) then Dropped(s, after, p) else Untouched(s, after, p)
  {
    hide DeletedIds, ScopeOf, OfflineEvents, ClearedTopology, KeysOfDeleted, PresentedKeysOfDeleted;
  }

  lemma EveryStepKeepsHistory(s: Store, step: Step, p: ProfileId)
    ensures var after := Apply(s, step);
            if DropsNow(s, step, p) then Dropped(s, after, p) else Stored(s, after, p) || Untouched(s, after, p)
  {
    hide Stored, Dropped, Untouched, UpsertProfile, RollbackProfile, DeleteDevice;
    match step
    case PutProfile(userId, source, target, expected, config, now) =>
      UpsertStores(s, userId, source, target, expected, config, now, p);
    case Rollback(userId, id, version, now) => RollbackStores(s, userId, id, version, now, p);
    case Delete(userId, id, now, order) =>
      DeleteDropsOrLeaves(s, userId, id, now, order, p);
    case _ =>
      OthersLeaveProfiles(s, step);
      NothingTouches(s, Apply(s, step), p);
  }

  // ---- Without deletions ----

  /** The version reached after `n - 1` changes; versions stop at the largest number that can be stored. */
  function Capped(n: nat): u64 {
    if n <= U64_MAX then n else U64_MAX
  }

  ghost predicate IsNumbered(history: seq<Profile>, id: ProfileId) {
    forall i :: 0 <= i < |history| ==> history[i].version == Capped(i + 1) && history[i].id == id
  }

  /** A profile at version v has the versions 1 to v - 1 as its history, in order; one never stored has none. */
  ghost predicate Orderly(s: Store, id: ProfileId) {
    var history := History(s, id);
    if id in s.profiles
    then && IsNumbered(history, id)
         && s.profiles[id].version == Capped(|history| + 1) && s.profiles[id].id == id
    else history == []
  }

  ghost predicate NeverDrops(s: Store, steps: seq<Step>, id: ProfileId)
    decreases |steps|
  {
    steps != [] ==> !DropsNow(s, steps[0], id) && NeverDrops(Apply(s, steps[0]), steps[1..], id)
  }

  lemma StepKeepsOrder(s: Store, step: Step, id: ProfileId)
    requires Orderly(s, id) && !DropsNow(s, step, id)
    ensures Orderly(Apply(s, step), id)
  {
    EveryStepKeepsHistory(s, step, id);
    hide Apply, DropsNow;
  }

  lemma {:induction false} RunKeepsOrder(s: Store, steps: seq<Step>, id: ProfileId)
    requires Orderly(s, id) && NeverDrops(s, steps, id)
    ensures Orderly(Run(s, steps), id)
    decreases |steps|
  {
    hide Orderly, Apply, DropsNow;
    if steps != [] {
      StepKeepsOrder(s, steps[0], id);
      RunKeepsOrder(Apply(s, steps[0]), steps[1..], id);
    }
  }

  /** A run without deletions drops nothing. */
  lemma {:induction false} WithoutDeletion(s: Store, steps: seq<Step>, id: ProfileId)
    requires forall step <- steps :: !step.Delete?
    ensures NeverDrops(s, steps, id)
    decreases |steps|
  {
    hide Apply;
    if steps != [] {
      WithoutDeletion(Apply(s, steps[0]), steps[1..], id);
    }
  }

  lemma HistoryIsOrderly(steps: seq<Step>, id: ProfileId)
    requires forall step <- steps :: !step.Delete?
    ensures Orderly(Run(EMPTY, steps), id)
  {
    WithoutDeletion(EMPTY, steps, id);
    assert Orderly(EMPTY, id);
    hide Apply, Orderly, NeverDrops;
    RunKeepsOrder(EMPTY, steps, id);
  }

  // ---- What a version stored ----

  lemma {:induction false} FirstVersionAt(history: seq<Profile>, version: u64, n: nat)
    requires n < |history| && history[n].version == version
    requires forall i :: 0 <= i < n ==> history[i].version != version
    ensures FirstVersion(history, version) == Some(history[n])
  {
    if n > 0 {
      FirstVersionAt(history[1..], version, n - 1);
    }
  }

  /** `p` is stored, or is kept at its place in the history. */
  ghost predicate Remembers(s: Store, p: Profile) {
    && p.id in s.profiles
    && (s.profiles[p.id] == p
        || (1 <= p.version <= |History(s, p.id)| && History(s, p.id)[p.version - 1] == p))
  }

  lemma StepRemembers(s: Store, step: Step, p: Profile)
    requires Orderly(s, p.id) && Remembers(s, p) && p.version < U64_MAX && !DropsNow(s, step, p.id)
    ensures Remembers(Apply(s, step), p)
  {
    EveryStepKeepsHistory(s, step, p.id);
    hide Apply, DropsNow;
  }

  lemma {:induction false} RunRemembers(s: Store, steps: seq<Step>, p: Profile)
    requires Orderly(s, p.id) && Remembers(s, p) && p.version < U64_MAX && NeverDrops(s, steps, p.id)
    ensures Remembers(Run(s, steps), p)
    decreases |steps|
  {
    hide Orderly, Remembers, Apply, DropsNow;
    if steps != [] {
      StepKeepsOrder(s, steps[0], p.id);
      StepRemembers(s, steps[0], p);
      RunRemembers(Apply(s, steps[0]), steps[1..], p);
    }
  }

  lemma RememberedIsFound(s: Store, p: Profile)
    requires Orderly(s, p.id) && Remembers(s, p) && p.version < U64_MAX
    ensures ProfileVersion(s, p.id, p.version) == Some(p)
  {
    if s.profiles[p.id] != p {
      FirstVersionAt(History(s, p.id), p.version, p.version - 1);
    }
  }

  /**
   Once a profile `p` is stored, rolling back to its version after any run that does not drop it
   stores its configuration again, under the version after the current one.
   */
  lemma RollbackRestores(s: Store, steps: seq<Step>, p: Profile, now: u64)
    requires Orderly(s, p.id) && p.id in s.profiles && s.profiles[p.id] == p && p.version < U64_MAX
    requires NeverDrops(s, steps, p.id)
    ensures var current := Run(s, steps);
            var outcome := RollbackProfile(current, p.id.userId, p.id, p.version, now);
            && p.id in current.profiles && outcome.reply.Success?
            && var restored := outcome.reply.value;
               && restored.id == p.id && restored.config == p.config
               && restored.version == SaturatingAdd(current.profiles[p.id].version, 1)
               && restored.revision == SaturatingAdd(current.profileRevision, 1)
               && outcome.store.profiles == current.profiles[p.id := restored]
               && History(outcome.store, p.id) == History(current, p.id) + [current.profiles[p.id]]
  {
    var current := Run(s, steps);
    assert Remembers(s, p);
    hide NeverDrops, Run;
    RunKeepsOrder(s, steps, p.id);
    RunRemembers(s, steps, p);
    RememberedIsFound(current, p);
    hide ProfileVersion, Orderly;
  }

  /** An upsert that expects another version than the stored one changes nothing; one that expects it goes through. */
  lemma ExpectedVersionGuards(
    s: Store, userId: Uuid, source: Uuid, target: Uuid, expected: u64, config: string, now: u64)
    requires ProfileId(userId, source, target) in s.profiles
    ensures var id := ProfileId(userId, source, target);
            var outcome := UpsertProfile(s, userId, source, target, Some(expected), config, now);
            && (outcome.reply.Success?
                <==> Owns(s.devices, userId, source) && Owns(s.devices, userId, target)
                     && expected == s.profiles[id].version)
            && (outcome.reply.Success? <==> outcome.store != s)
  {
    hide History;
  }

  // ---- With deletions ----

  ghost predicate RevisionsRise(history: seq<Profile>, id: ProfileId, counter: u64) {
    && (forall p <- history :: p.id == id && p.revision <= counter)
    && (forall i, j :: 0 <= i < j < |history| ==> history[i].revision < history[j].revision)
  }

  /** The versions `1..v` in order. */
  ghost predicate IsLifetime(history: seq<Profile>, v: nat) {
    |history| == v && forall i :: 0 <= i < v ==> history[i].version == i + 1
  }

  /** The stored profile comes after its own versions, which end the history. */
  ghost predicate Tops(history: seq<Profile>, p: Profile) {
    && 1 <= p.version <= p.revision
    && (forall q <- history :: q.revision < p.revision)
    && p.version <= |history| + 1
    && IsLifetime(history[|history| + 1 - p.version..], p.version - 1)
  }

  /**
   After deletions the history still begins with a version 1, and ends with the versions of the
   stored profile; revisions rise through all of it.
   */
  ghost predicate Layered(s: Store, id: ProfileId) {
    var history := History(s, id);
    && RevisionsRise(history, id, s.profileRevision)
    && (history != [] ==> history[0].version == 1)
    && (id in s.profiles ==>
          && s.profiles[id].id == id && s.profiles[id].revision <= s.profileRevision
          && Tops(history, s.profiles[id]))
  }

  lemma NextTops(history: seq<Profile>, p: Profile, next: Profile)
    requires Tops(history, p)
    requires next.version == p.version + 1 && p.revision < next.revision
    ensures Tops(history + [p], next)
  {
    var first := |history| + 1 - p.version;
    assert (history + [p])[first..] == history[first..] + [p];
  }

  lemma FirstTops(history: seq<Profile>, p: Profile)
    requires p.version == 1 && (forall q <- history :: q.revision < p.revision) && 1 <= p.revision
    ensures Tops(history, p)
  {
  }

  lemma RisingGrows(history: seq<Profile>, p: Profile, counter: u64, later: u64)
    requires RevisionsRise(history, p.id, counter) && counter <= later
    requires p.revision <= counter && forall q <- history :: q.revision < p.revision
    ensures RevisionsRise(history + [p], p.id, later)
  {
  }

  lemma StoredKeepsLayers(s: Store, after: Store, id: ProfileId)
    requires Layered(s, id) && Stored(s, after, id) && s.profileRevision < U64_MAX
    ensures Layered(after, id)
  {
    var next := after.profiles[id];
    if id in s.profiles {
      RisingGrows(History(s, id), s.profiles[id], s.profileRevision, after.profileRevision);
      assert s.profiles[id].version < U64_MAX;
      NextTops(History(s, id), s.profiles[id], next);
    } else {
      FirstTops(History(s, id), next);
    }
    hide Tops, History;
  }

  lemma OthersKeepLayers(s: Store, after: Store, id: ProfileId)
    requires Layered(s, id) && (Untouched(s, after, id) || Dropped(s, after, id))
    ensures Layered(after, id)
  {
    hide Tops, History;
    assert id in after.profiles ==> after.profiles[id] == s.profiles[id];
  }

  lemma StepKeepsLayers(s: Store, step: Step, id: ProfileId)
    requires Layered(s, id) && Apply(s, step).profileRevision < U64_MAX
    ensures Layered(Apply(s, step), id) && s.profileRevision <= Apply(s, step).profileRevision
  {
    EveryStepKeepsHistory(s, step, id);
    var after := Apply(s, step);
    hide Apply, DropsNow, Layered, History;
    if Stored(s, after, id) {
      StoredKeepsLayers(s, after, id);
    } else {
      OthersKeepLayers(s, after, id);
    }
  }

  lemma {:induction false} RunKeepsLayers(s: Store, steps: seq<Step>, id: ProfileId)
    requires Layered(s, id) && Revisions(s) && Run(s, steps).profileRevision < U64_MAX
    ensures Layered(Run(s, steps), id)
    decreases |steps|
  {
    hide Layered, Revisions, Apply;
    if steps != [] {
      StepKeepsRevisions(s, steps[0]);
      RunKeepsRevisions(Apply(s, steps[0]), steps[1..]);
      StepKeepsLayers(s, steps[0], id);
      RunKeepsLayers(Apply(s, steps[0]), steps[1..], id);
    }
  }

  lemma HistoryIsLayered(steps: seq<Step>, id: ProfileId)
    requires Run(EMPTY, steps).profileRevision < U64_MAX
    ensures Layered(Run(EMPTY, steps), id)
  {
    assert Layered(EMPTY, id) && Revisions(EMPTY);
    hide Apply, Layered, Revisions;
    RunKeepsLayers(EMPTY, steps, id);
  }

  /** What the stored profile itself was at version `k`. */
  function OwnVersion(s: Store, id: ProfileId, k: u64): Profile
    requires id in s.profiles && 1 <= k < s.profiles[id].version <= |History(s, id)| + 1
  {
    History(s, id)[|History(s, id)| - s.profiles[id].version + k]
  }

  lemma CleanHistoryFinds(s: Store, id: ProfileId, k: u64)
    requires id in s.profiles && 1 <= k < s.profiles[id].version
    requires IsLifetime(History(s, id), s.profiles[id].version - 1)
    ensures ProfileVersion(s, id, k) == Some(OwnVersion(s, id, k))
  {
    hide History;
    FirstVersionAt(History(s, id), k, k - 1);
  }

  lemma OldHistoryHides(s: Store, id: ProfileId)
    requires id in s.profiles && 1 < s.profiles[id].version <= |History(s, id)|
    requires History(s, id)[0].version == 1
    requires RevisionsRise(History(s, id), id, s.profileRevision)
    ensures ProfileVersion(s, id, 1) != Some(OwnVersion(s, id, 1))
  {
    hide History;
    FirstVersionAt(History(s, id), 1, 0);
    assert History(s, id)[0].revision < OwnVersion(s, id, 1).revision;
  }

  /** A rollback finds the profile's own versions exactly when no deleted profile left its history under the same id. */
  lemma RollbackFindsOwnVersionsExactly(s: Store, id: ProfileId)
    requires Layered(s, id) && id in s.profiles && s.profiles[id].version > 1
    ensures (forall k: u64 :: 1 <= k < s.profiles[id].version ==>
               ProfileVersion(s, id, k) == Some(OwnVersion(s, id, k)))
       <==> |History(s, id)| == s.profiles[id].version - 1
  {
    hide History, ProfileVersion, OwnVersion, FirstVersion, RevisionsRise, IsLifetime;
    var history, v := History(s, id), s.profiles[id].version;
    if |history| == v - 1 {
      assert history[0..] == history;
      forall k: u64 | 1 <= k < v ensures ProfileVersion(s, id, k) == Some(OwnVersion(s, id, k)) {
        CleanHistoryFinds(s, id, k);
      }
    } else {
      OldHistoryHides(s, id);
    }
  }

  lemma OldestComesBack(
    s: Store, userId: Uuid, source: Uuid, target: Uuid, first: string, second: string, now: u64)
    requires var id := ProfileId(userId, source, target);
             Layered(s, id) && id !in s.profiles && History(s, id) != []
    requires Owns(s.devices, userId, source) && Owns(s.devices, userId, target)
    ensures var id := ProfileId(userId, source, target);
            var once := UpsertProfile(s, userId, source, target, None, first, now).store;
            var twice := UpsertProfile(once, userId, source, target, None, second, now).store;
            var outcome := RollbackProfile(twice, userId, id, 1, now);
            && id in once.profiles && once.profiles[id].version == 1 && once.profiles[id].config == first
            && outcome.reply.Success? && outcome.reply.value.config == History(s, id)[0].config
  {
    var id := ProfileId(userId, source, target);
    var once := UpsertProfile(s, userId, source, target, None, first, now).store;
    var twice := UpsertProfile(once, userId, source, target, None, second, now).store;
    assert History(twice, id) == History(s, id) + [once.profiles[id]];
    assert twice.profiles[id].version == 2;
    FirstVersionAt(History(twice, id), 1, 0);
    assert History(twice, id)[0] == History(s, id)[0];
    assert History(s, id)[0] in History(s, id);
  }

  /** No step takes anything out of a history. */
  lemma {:induction false} HistoryGrows(s: Store, steps: seq<Step>, id: ProfileId)
    ensures History(s, id) <= History(Run(s, steps), id)
    decreases |steps|
  {
    hide Apply, History, DropsNow;
    if steps != [] {
      EveryStepKeepsHistory(s, steps[0], id);
      HistoryGrows(Apply(s, steps[0]), steps[1..], id);
    }
  }

  /**
   A deletion drops a profile that has been changed, and after any further run in which its two devices are
   back but it is not, it is stored anew, twice. Rolling it back to version 1 then brings back a configuration
   from before the deletion: the first of the old history, not the first of the new profile.
   */
  lemma DeletedVersionComesBack(
    s: Store, delete: Step, steps: seq<Step>, userId: Uuid, source: Uuid, target: Uuid, first: string,
    second: string, now: u64)
    requires var id := ProfileId(userId, source, target);
             && Layered(s, id) && Revisions(s) && id in s.profiles && s.profiles[id].version > 1
             && DropsNow(s, delete, id)
    requires var current := Run(s, [delete] + steps);
             && ProfileId(userId, source, target) !in current.profiles && current.profileRevision < U64_MAX
             && Owns(current.devices, userId, source) && Owns(current.devices, userId, target)
    ensures var id, current := ProfileId(userId, source, target), Run(s, [delete] + steps);
            var once := UpsertProfile(current, userId, source, target, None, first, now).store;
            var twice := UpsertProfile(once, userId, source, target, None, second, now).store;
            var outcome := RollbackProfile(twice, userId, id, 1, now);
            && id in once.profiles && once.profiles[id].version == 1 && once.profiles[id].config == first
            && History(s, id) != []
            && outcome.reply.Success? && outcome.reply.value.config == History(s, id)[0].config
  {
    var id, all := ProfileId(userId, source, target), [delete] + steps;
    assert History(s, id) != [] by {
      hide Run, DropsNow, Revisions;
    }
    hide DropsNow, Run, UpsertProfile, RollbackProfile;
    RunKeepsLayers(s, all, id);
    HistoryGrows(s, all, id);
    hide Layered, Revisions, History;
    OldestComesBack(Run(s, all), userId, source, target, first, second, now);
  }
}
