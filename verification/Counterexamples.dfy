/**
 Runs from the empty store that lead to the exceptions: each shows that the
 condition of one of the exact results can fail, by requests the server accepts.
 */
module Counterexamples {
  import opened DeletedMachines
  import opened GroupedDeletion
  import opened KeyLifecycle
  import opened LiveReferences
  import opened ProfileHistory
  import opened ProfileSync
  import opened ServerData
  import opened StoreSteps
  import opened Text
  import opened Wrappers

  const USER := Uuid(0)
  const A := Uuid(1)
  const B := Uuid(2)
  const C := Uuid(3)

  /** A desktop called "pc"; the three below differ in their keys and addresses. */
  function Pc(publicKey: string): RegisterRequest {
    RegisterRequest("pc", None, "linux", "", "", publicKey)
  }

  function At(lanIps: seq<string>): HeartbeatRequest {
    HeartbeatRequest(lanIps, 7000, None, None)
  }

  // ---- Building a run ----

  ghost predicate Reaches(steps: seq<Step>, s: Store) {
    ProperRun(EMPTY, steps) && Run(EMPTY, steps) == s
  }

  lemma {:induction false} RunSnoc(s: Store, steps: seq<Step>, step: Step)
    ensures Run(s, steps + [step]) == Apply(Run(s, steps), step)
    ensures ProperRun(s, steps + [step]) <==> ProperRun(s, steps) && Proper(Run(s, steps), step)
    decreases |steps|
  {
    hide Apply, Proper;
    if steps == [] {
      assert steps + [step] == [step];
      assert [step][1..] == [];
    } else {
      RunSnoc(Apply(s, steps[0]), steps[1..], step);
      assert (steps + [step])[1..] == steps[1..] + [step];
    }
  }

  lemma Goes(steps: seq<Step>, s: Store, step: Step) returns (longer: seq<Step>)
    requires Reaches(steps, s) && Proper(s, step)
    ensures longer == steps + [step] && Reaches(longer, Apply(s, step))
  {
    hide Apply, Proper, Run, ProperRun;
    RunSnoc(EMPTY, steps, step);
    longer := steps + [step];
  }

  lemma Starts() returns (steps: seq<Step>)
    ensures steps == [] && Reaches(steps, EMPTY)
  {
    steps := [];
  }

  lemma RegisterFresh(s: Store, request: RegisterRequest, id: Uuid)
    requires Trim(request.name) != "" && id !in s.devices
    requires forall d :: !HasKey(s.devices, d, USER, request.publicKey)
    requires forall t <- s.deletedKeys :: !KeyMatches(t, USER, request.publicKey)
    ensures var step := Register(USER, request, id, None, 0);
            Proper(s, step) && Apply(s, step) == s.(devices := s.devices[id := NewDevice(USER, request, 0)])
  {
    hide Trim, Normalize;
    assert KeysWithout(s.deletedKeys, USER, id, request.publicKey) == s.deletedKeys;
  }

  function PresenceAt(request: HeartbeatRequest): Presence {
    Presence(USER, true, request.lanIps, "", request.listenPort, "unknown", 0, 60, 1, None)
  }

  lemma FirstBeat(s: Store, request: HeartbeatRequest, id: Uuid)
    requires Owns(s.devices, USER, id) && !s.devices[id].disabled && id !in s.presence && s.deletedPresented == {}
    requires request.natType == None && request.display == None
    ensures var step := Beat(USER, id, request, "", 0);
            && Proper(s, step)
            && Apply(s, step) == s.(presence := s.presence[id := PresenceAt(request)],
                                    events := s.events + [PresenceChanged(USER, id, true, 1)])
  {
    hide PresentedKeys;
  }

  lemma Letters()
    ensures Trim("pc") == "pc" && Trim("") == "" && Trim("1") == "1" && Trim("2") == "2" && Trim("3") == "3"
    ensures Normalize("1") != ""
  {
    assert "pc"[..1] == "p";
  }

  lemma TwoRegistered() returns (steps: seq<Step>, s: Store)
    ensures Reaches(steps, s) && steps == [Register(USER, Pc("1"), A, None, 0), Register(USER, Pc("2"), B, None, 0)]
    ensures s == EMPTY.(devices := map[A := NewDevice(USER, Pc("1"), 0), B := NewDevice(USER, Pc("2"), 0)])
  {
    Letters();
    hide Trim, Apply, Proper, Run, ProperRun, Reaches;
    steps := Starts();
    RegisterFresh(EMPTY, Pc("1"), A);
    steps := Goes(steps, EMPTY, Register(USER, Pc("1"), A, None, 0));
    s := EMPTY.(devices := map[A := NewDevice(USER, Pc("1"), 0)]);
    RegisterFresh(s, Pc("2"), B);
    steps := Goes(steps, s, Register(USER, Pc("2"), B, None, 0));
    s := s.(devices := s.devices[B := NewDevice(USER, Pc("2"), 0)]);
  }

  // ---- Reauthorizing ----

  lemma Doubling(s: Store)
    requires Owns(s.devices, USER, A) && Owns(s.devices, USER, B) && s.devices[A].publicKey == "1"
    ensures var step := Reauthorize(USER, B, "1", 0);
            Proper(s, step) && !Keys(Apply(s, step))
  {
    Letters();
    hide Trim;
    var after := Apply(s, Reauthorize(USER, B, "1", 0));
    assert HasKey(after.devices, B, after.devices[A].userId, after.devices[A].publicKey);
  }

  /** Reauthorizing a device with the key of another gives two devices one key. */
  lemma ReauthorizingDuplicatesAKey() returns (steps: seq<Step>)
    ensures ProperRun(EMPTY, steps) && !Keys(Run(EMPTY, steps))
  {
    var s;
    steps, s := TwoRegistered();
    hide Apply, Proper, Run, ProperRun, Keys;
    Doubling(s);
    steps := Goes(steps, s, Reauthorize(USER, B, "1", 0));
  }

  // ---- Sharing ----

  lemma Overlaps()
    ensures LanIpsOverlap(["1"], ["1", "2"]) && LanIpsOverlap(["1", "2"], ["2"]) && !LanIpsOverlap(["1"], ["2"])
  {
    Letters();
    hide Trim;
    var left, both, right: seq<string> := ["1"], ["1", "2"], ["2"];
    assert left[0] == "1" && both[0] == "1" && both[1] == "2" && right[0] == "2";
  }

  lemma SharingOfTwo(s: Store, a: Uuid, b: Uuid, x: string, y: string, xs: seq<string>, ys: seq<string>)
    requires a in s.devices && b in s.devices && a in s.presence && b in s.presence && a != b
    requires s.devices[a] == NewDevice(USER, Pc(x), 0) && s.devices[b] == NewDevice(USER, Pc(y), 0)
    requires s.presence[a] == PresenceAt(At(xs)) && s.presence[b] == PresenceAt(At(ys))
    requires Trim(x) != Trim(y)
    ensures SharesWith(s, a, b) <==> LanIpsOverlap(xs, ys)
  {
    Letters();
    hide Trim, Normalize, LanIpsOverlap, HasLanIp;
  }

  lemma SharingOfThree(s: Store)
    requires s.devices == map[A := NewDevice(USER, Pc("1"), 0), B := NewDevice(USER, Pc("2"), 0),
                              C := NewDevice(USER, Pc("3"), 0)]
    requires s.presence == map[A := PresenceAt(At(["1"])), B := PresenceAt(At(["1", "2"])),
                               C := PresenceAt(At(["2"]))]
    ensures SharesWith(s, A, B) && SharesWith(s, B, C) && !SharesWith(s, A, C)
  {
    Letters();
    Overlaps();
    hide Trim, Normalize, LanIpsOverlap, SharesWith, NewDevice, PresenceAt;
    SharingOfTwo(s, A, B, "1", "2", ["1"], ["1", "2"]);
    SharingOfTwo(s, B, C, "2", "3", ["1", "2"], ["2"]);
    SharingOfTwo(s, A, C, "1", "3", ["1"], ["2"]);
  }

  /** Three devices with keys of their own: the first is like the second and the second like the third, and no more. */
  lemma SharingIsNotTransitive() returns (steps: seq<Step>)
    ensures ProperRun(EMPTY, steps) && NoReauthorization(steps)
    ensures var s := Run(EMPTY, steps);
            && A in s.devices && B in s.devices && C in s.devices
            && SharesWith(s, A, B) && SharesWith(s, B, C) && !SharesWith(s, A, C)
  {
    var s;
    steps, s := TwoRegistered();
    Letters();
    hide Trim, Normalize, Apply, Proper, Run, ProperRun, SharesWith;
    RegisterFresh(s, Pc("3"), C);
    steps := Goes(steps, s, Register(USER, Pc("3"), C, None, 0));
    s := s.(devices := s.devices[C := NewDevice(USER, Pc("3"), 0)]);
    FirstBeat(s, At(["1"]), A);
    steps := Goes(steps, s, Beat(USER, A, At(["1"]), "", 0));
    s := Apply(s, Beat(USER, A, At(["1"]), "", 0));
    FirstBeat(s, At(["1", "2"]), B);
    steps := Goes(steps, s, Beat(USER, B, At(["1", "2"]), "", 0));
    s := Apply(s, Beat(USER, B, At(["1", "2"]), "", 0));
    FirstBeat(s, At(["2"]), C);
    steps := Goes(steps, s, Beat(USER, C, At(["2"]), "", 0));
    s := Apply(s, Beat(USER, C, At(["2"]), "", 0));
    SharingOfThree(s);
  }

  // ---- Evicting ----

  /** Of two devices with keys of their own, one without presence, a deletion takes the other alone. */
  lemma DeletesAlone(s: Store, id: Uuid, other: Uuid)
    requires s.devices.Keys == {id, other} && id != other
    requires forall d <- s.devices :: s.devices[d].userId == USER
    requires Trim(s.devices[id].publicKey) != Trim(s.devices[other].publicKey) && other !in s.presence
    ensures ScopeOf(s, USER, id, 0).PresentedDevice? && DeletedIds(s, USER, id, 0) == {id}
  {
    hide Trim, Normalize, SamePlace, IsOnlineAt;
    assert SharesWith(s, id, id) && !SharesWith(s, id, other);
  }

  /** A is online at an address; B has no presence and is named by a topology. */
  ghost predicate IsNamed(s: Store) {
    && s.devices == map[A := NewDevice(USER, Pc("1"), 0), B := NewDevice(USER, Pc("2"), 0)]
    && s.presence == map[A := PresenceAt(At(["1"]))]
    && s.topologies == map[USER := Topology(Some(B), Layout(None, None, None, None), 1, 0)]
  }

  lemma NamedByATopology() returns (steps: seq<Step>, s: Store)
    ensures Reaches(steps, s) && IsNamed(s)
  {
    steps, s := TwoRegistered();
    hide Trim, Normalize, Apply, Proper, Run, ProperRun, Reaches;
    FirstBeat(s, At(["1"]), A);
    steps := Goes(steps, s, Beat(USER, A, At(["1"]), "", 0));
    s := Apply(s, Beat(USER, A, At(["1"]), "", 0));
    var layout := Layout(None, None, None, None);
    Naming(s, layout);
    steps := Goes(steps, s, PutTopology(USER, Some(B), layout, 0));
    s := Apply(s, PutTopology(USER, Some(B), layout, 0));
  }

  lemma DeletesA(s: Store)
    requires IsNamed(s)
    ensures Owns(s.devices, USER, A) && ScopeOf(s, USER, A, 0).PresentedDevice? && DeletedIds(s, USER, A, 0) == {A}
  {
    Letters();
    hide Trim, ScopeOf, DeletedIds;
    DeletesAlone(s, A, B);
  }

  /** After A is deleted, B is as it was, and still named. */
  lemma WithoutA(s: Store)
    requires IsNamed(s) && DeletedIds(s, USER, A, 0) == {A}
    ensures var after := DeleteDevice(s, USER, A, 0, [A]).store;
            && B in after.devices && after.devices[B] == NewDevice(USER, Pc("2"), 0)
            && USER in after.topologies && after.topologies[USER].master == Some(B)
  {
    hide DeletedIds;
    DeletionKeepsTheRest(s, USER, A, 0, [A]);
    hide DeleteDevice;
  }

  /** And the address that A was at is remembered. */
  lemma AddressOfA(s: Store) returns (k: PresentedKey)
    requires IsNamed(s) && ScopeOf(s, USER, A, 0).PresentedDevice? && DeletedIds(s, USER, A, 0) == {A}
    requires Normalize("1") != ""
    ensures k in DeleteDevice(s, USER, A, 0, [A]).store.deletedPresented
    ensures k in PresentedKeys(USER, NewDevice(USER, Pc("2"), 0), ["1"], "", 7000)
  {
    hide Normalize, Trim, DeletedIds, ScopeOf, DeleteDevice;
    k := LanKey(USER, s.devices[A], "1");
    Shows(s.devices[A], s.devices[B]);
    hide LanKey, PresentedKeys;
    DeletionRemembers(s, USER, A, 0, [A], A, k);
  }

  lemma DeletedAtItsAddress(s: Store) returns (k: PresentedKey)
    requires IsNamed(s)
    ensures var step := Delete(USER, A, 0, [A]);
            var after := Apply(s, step);
            && Proper(s, step) && k in after.deletedPresented
            && B in after.devices && after.devices[B] == NewDevice(USER, Pc("2"), 0)
            && k in PresentedKeys(USER, after.devices[B], ["1"], "", 7000)
            && USER in after.topologies && after.topologies[USER].master == Some(B)
  {
    hide Trim, Normalize, Apply, Proper, ScopeOf, DeletedIds, PresentedKeys, DeleteDevice;
    Letters();
    DeletesA(s);
    Deleting(s, A, [A]);
    WithoutA(s);
    k := AddressOfA(s);
    hide IsNamed;
  }

  /** A device is deleted at an address; another, which a topology names, moves to that address. */
  lemma EvictingLeavesATopologyDangling() returns (steps: seq<Step>)
    ensures ProperRun(EMPTY, steps) && !References(Run(EMPTY, steps))
  {
    var s;
    steps, s := NamedByATopology();
    hide Apply, Proper, Run, ProperRun, PresentedKeys, IsNamed;
    var k := DeletedAtItsAddress(s);
    steps := Goes(steps, s, Delete(USER, A, 0, [A]));
    s := Apply(s, Delete(USER, A, 0, [A]));
    Moving(s, k);
    steps := Goes(steps, s, Beat(USER, B, At(["1"]), "", 0));
    s := Apply(s, Beat(USER, B, At(["1"]), "", 0));
    assert !OwnsAll(s.devices, USER, s.topologies[USER].master, s.topologies[USER].layout);
  }

  lemma Naming(s: Store, layout: Layout)
    requires Owns(s.devices, USER, B) && layout == Layout(None, None, None, None) && USER !in s.topologies
    ensures var step := PutTopology(USER, Some(B), layout, 0);
            && Proper(s, step)
            && Apply(s, step) == s.(topologies := s.topologies[USER := Topology(Some(B), layout, 1, 0)],
                                    events := s.events + [TopologyChanged(USER, 1)])
  {
  }

  lemma Deleting(s: Store, id: Uuid, order: seq<Uuid>)
    requires Owns(s.devices, USER, id) && DeletedIds(s, USER, id, 0) == {id} && order == [id]
    ensures Proper(s, Delete(USER, id, 0, order))
    ensures Apply(s, Delete(USER, id, 0, order)) == DeleteDevice(s, USER, id, 0, order).store
  {
    hide DeletedIds, DeleteDevice;
  }

  lemma Shows(gone: Device, d: Device)
    requires gone.name == d.name == "pc" && gone.osType == d.osType == "linux" && Normalize("1") != ""
    ensures LanKey(USER, gone, "1") in PresentedKeys(USER, gone, ["1"], "", 7000)
    ensures LanKey(USER, gone, "1") in PresentedKeys(USER, d, ["1"], "", 7000)
  {
    hide Normalize, Trim;
    assert ["1"][0] == "1";
    SharedAddressShowsTheSame(USER, gone, PresenceAt(At(["1"])), d, ["1"], "", 7000, "1", "1");
  }

  lemma Moving(s: Store, k: PresentedKey)
    requires Owns(s.devices, USER, B) && !s.devices[B].disabled && k in s.deletedPresented
    requires k in PresentedKeys(USER, s.devices[B], ["1"], "", 7000)
    ensures var step := Beat(USER, B, At(["1"]), "", 0);
            && Proper(s, step) && B !in Apply(s, step).devices && Apply(s, step).topologies == s.topologies
  {
    hide PresentedKeys;
    RememberedIsRefused(s, USER, B, At(["1"]), "", 0, k);
  }

  // ---- Rolling back ----

  const PAIR := ProfileId(USER, A, B)

  function Put(config: string): Step {
    PutProfile(USER, A, B, None, config, 0)
  }

  /** A profile with two versions, between two devices. */
  ghost predicate HasTwoVersions(s: Store) {
    && s.devices == map[A := NewDevice(USER, Pc("1"), 0), B := NewDevice(USER, Pc("2"), 0)]
    && s.presence == map[] && s.deletedKeys == {} && s.profileRevision == 2
    && s.profiles == map[PAIR := Profile(PAIR, "second", 2, 2, 0)]
    && History(s, PAIR) == [Profile(PAIR, "first", 1, 1, 0)]
  }

  ghost predicate HasOneVersion(s: Store) {
    && s.devices == map[A := NewDevice(USER, Pc("1"), 0), B := NewDevice(USER, Pc("2"), 0)]
    && s.presence == map[] && s.deletedKeys == {} && s.profileRevision == 1
    && s.profiles == map[PAIR := Profile(PAIR, "first", 1, 1, 0)]
    && PAIR !in s.profileHistory
  }

  lemma FirstPut(s: Store)
    requires s == EMPTY.(devices := map[A := NewDevice(USER, Pc("1"), 0), B := NewDevice(USER, Pc("2"), 0)])
    ensures Proper(s, Put("first")) && HasOneVersion(Apply(s, Put("first")))
  {
  }

  lemma SecondPut(s: Store)
    requires HasOneVersion(s)
    ensures Proper(s, Put("second")) && HasTwoVersions(Apply(s, Put("second")))
  {
  }

  lemma TwoVersions() returns (steps: seq<Step>, s: Store)
    ensures Reaches(steps, s) && HasTwoVersions(s) && NoReauthorization(steps)
  {
    steps, s := TwoRegistered();
    hide Run, ProperRun, Reaches, Apply, Proper, HasOneVersion, HasTwoVersions;
    FirstPut(s);
    steps := Goes(steps, s, Put("first"));
    s := Apply(s, Put("first"));
    SecondPut(s);
    steps := Goes(steps, s, Put("second"));
    s := Apply(s, Put("second"));
  }

  lemma DeletesB(s: Store)
    requires HasTwoVersions(s)
    ensures Owns(s.devices, USER, B) && DeletedIds(s, USER, B, 0) == {B} && PAIR in s.profiles
  {
    Letters();
    hide Trim, ScopeOf, DeletedIds, History;
    DeletesAlone(s, B, A);
  }

  lemma WithoutB(s: Store)
    requires HasTwoVersions(s) && DeletedIds(s, USER, B, 0) == {B}
    ensures var deleted := DeleteDevice(s, USER, B, 0, [B]).store;
            && deleted.devices == map[A := NewDevice(USER, Pc("1"), 0)]
            && DeletedKey(USER, Some(B), "2") in deleted.deletedKeys
            && PAIR !in deleted.profiles && deleted.profileRevision == 2
  {
    hide DeletedIds, ScopeOf, OfflineEvents, PresentedKeysOfDeleted;
  }

  lemma BackAgain(s: Store)
    requires s.devices == map[A := NewDevice(USER, Pc("1"), 0)] && DeletedKey(USER, Some(B), "2") in s.deletedKeys
    requires Keys(s)
    ensures IsHolder(s.devices, USER, "2", None)
    ensures var after := RegisterDevice(s, USER, Pc("2"), B, None, 0).store;
            && Owns(after.devices, USER, A) && Owns(after.devices, USER, B)
            && after.profiles == s.profiles && after.profileRevision == s.profileRevision
  {
    Letters();
    hide Trim;
    DeletedKeyReturns(s, USER, Pc("2"), B, None, 0, DeletedKey(USER, Some(B), "2"));
    RegisterLeavesProfiles(s, Pc("2"), B);
    var id, device := RegisterShape(s, USER, Pc("2"), B, None, 0);
    hide RegisterDevice, Keys;
  }

  lemma Registering(s: Store, request: RegisterRequest, id: Uuid)
    requires IsHolder(s.devices, USER, request.publicKey, None)
    ensures Proper(s, Register(USER, request, id, None, 0))
    ensures Apply(s, Register(USER, request, id, None, 0)) == RegisterDevice(s, USER, request, id, None, 0).store
  {
    hide RegisterDevice;
  }

  /** B is deleted and registers again: the profile is gone and its devices are there. */
  lemma DeletedAndBack(s: Store) returns (delete: Step, back: Step)
    requires HasTwoVersions(s) && Keys(s)
    ensures Proper(s, delete) && DropsNow(s, delete, PAIR) && Proper(Apply(s, delete), back)
    ensures delete.Delete? && back.Register?
    ensures var after := Apply(Apply(s, delete), back);
            && PAIR !in after.profiles && after.profileRevision == 2
            && Owns(after.devices, USER, A) && Owns(after.devices, USER, B)
  {
    delete, back := Delete(USER, B, 0, [B]), Register(USER, Pc("2"), B, None, 0);
    hide DeletedIds, ScopeOf, DeleteDevice, Keys, RegisterDevice, HasTwoVersions, Apply, Proper;
    DeletesB(s);
    Deleting(s, B, [B]);
    WithoutB(s);
    DeleteKeepsKeys(s, USER, B, 0, [B]);
    BackAgain(Apply(s, delete));
    Registering(Apply(s, delete), Pc("2"), B);
  }

  /**
   A profile is stored twice, one of its devices is deleted and comes back, and the profile is stored twice
   again: rolling it back to version 1 stores "first" and not "third".
   */
  lemma RollingBackRevivesADeletedProfile() returns (steps: seq<Step>)
    ensures ProperRun(EMPTY, steps) && NoReauthorization(steps)
    ensures var s := Run(EMPTY, steps);
            var once := UpsertProfile(s, USER, A, B, None, "third", 0).store;
            var twice := UpsertProfile(once, USER, A, B, None, "fourth", 0).store;
            var outcome := RollbackProfile(twice, USER, PAIR, 1, 0);
            && PAIR in once.profiles
            && once.profiles[PAIR].version == 1 && once.profiles[PAIR].config == "third"
            && outcome.reply.Success? && outcome.reply.value.config == "first"
  {
    var s;
    steps, s := TwoVersions();
    hide Apply, Proper, UpsertProfile, RollbackProfile, DropsNow;
    KeysStayUnique(steps);
    assert Layered(s, PAIR) && Revisions(s) by { TwoVersionsAreLayered(s); }
    var delete, back := DeletedAndBack(s);
    steps := Goes(steps, s, delete);
    steps := Goes(steps, Apply(s, delete), back);
    RunOfTwo(s, delete, back);
    hide Run, ProperRun, Keys;
    DeletedVersionComesBack(s, delete, [back], USER, A, B, "third", "fourth", 0);
  }

  lemma TwoVersionsAreLayered(s: Store)
    requires HasTwoVersions(s)
    ensures Layered(s, PAIR) && Revisions(s)
  {
    hide History;
    var history := History(s, PAIR);
    assert history[1..] == [] && history[0..] == history;
  }

  lemma RunOfTwo(s: Store, a: Step, b: Step)
    ensures Run(s, [a] + [b]) == Apply(Apply(s, a), b)
  {
    hide Apply;
    RunSnoc(s, [a], b);
    assert [a][1..] == [];
    assert Run(s, [a]) == Run(Apply(s, a), []);
  }

  lemma RegisterLeavesProfiles(s: Store, request: RegisterRequest, id: Uuid)
    ensures var after := RegisterDevice(s, USER, request, id, None, 0).store;
            after.profiles == s.profiles && after.profileRevision == s.profileRevision
  {
    hide Trim, DecideKey, KeysWithout, PresentedWithout;
  }
}
