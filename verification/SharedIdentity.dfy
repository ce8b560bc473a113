/**
 When sharing a presented identity closes: records a and b shared with one record
 share with each other exactly if that record can be recognised in one way only.
 */
module SharedIdentity {
  import opened Bytes
  import opened GroupedDeletion
  import opened KeyLifecycle
  import opened LiveReferences
  import opened PresenceVersions
  import opened ServerData
  import opened StoreSteps
  import opened Text
  import opened Wrappers

  // ---- What can be recognised ----

  /** The record shows at most one LAN address that is not blank. */
  predicate OneAddress(presence: Option<Presence>) {
    presence.Some? ==>
      forall x <- presence.value.lanIps, y <- presence.value.lanIps ::
        Trim(x) != "" && Trim(y) != "" ==> Trim(x) == Trim(y)
  }

  /** The record shows where it is, by a LAN address or, without one, by a public endpoint. */
  predicate HasPlace(presence: Option<Presence>) {
    presence.Some? && (HasLanIp(presence.value.lanIps) || Trim(presence.value.publicIp) != "")
  }

  /** One address, one endpoint or one key to be recognised by. */
  predicate OneWay(device: Device, presence: Option<Presence>) {
    OneAddress(presence) && (Trim(device.publicKey) != "" ==> !HasPlace(presence))
  }

  /** No two devices have keys that differ in white space at their ends only. */
  ghost predicate KeysToldApart(s: Store) {
    forall a <- s.devices, b <- s.devices ::
      a != b && Trim(s.devices[a].publicKey) != "" ==> Trim(s.devices[a].publicKey) != Trim(s.devices[b].publicKey)
  }

  ghost predicate IsRecord(s: Store, b: Uuid, device: Device, presence: Option<Presence>) {
    b in s.devices && s.devices[b] == device && Find(s.presence, b) == presence
  }

  /** Whatever shares an identity with `b` shares it with all else that does. */
  ghost predicate ClosesThrough(s: Store, b: Uuid)
    requires b in s.devices
  {
    forall a <- s.devices, c <- s.devices :: SharesWith(s, a, b) && SharesWith(s, b, c) ==> SharesWith(s, a, c)
  }

  // ---- One way is enough ----

  lemma PlacesClose(a: Presence, b: Presence, c: Presence)
    requires OneAddress(Some(b)) && SamePlace(a, b) && SamePlace(b, c)
    ensures SamePlace(a, c)
  {
    hide Trim;
    if LanIpsOverlap(a.lanIps, b.lanIps) && LanIpsOverlap(b.lanIps, c.lanIps) {
      var x :| x in a.lanIps && Trim(x) != "" && exists y <- b.lanIps :: Trim(x) == Trim(y);
      var y :| y in b.lanIps && Trim(x) == Trim(y);
      var z :| z in b.lanIps && Trim(z) != "" && exists w <- c.lanIps :: Trim(z) == Trim(w);
      var w :| w in c.lanIps && Trim(z) == Trim(w);
      assert Trim(x) == Trim(w);
    }
  }

  lemma OneAddressCloses(s: Store, b: Uuid)
    requires KeysToldApart(s) && b in s.devices && OneAddress(Find(s.presence, b))
    ensures ClosesThrough(s, b)
  {
    hide Trim, Normalize, SamePlace, OneAddress;
    forall a, c | a in s.devices && c in s.devices && SharesWith(s, a, b) && SharesWith(s, b, c)
      ensures SharesWith(s, a, c)
    {
      if a != b && b != c {
        PlacesClose(s.presence[a], s.presence[b], s.presence[c]);
      }
    }
  }

  lemma OneWayCloses(s: Store, b: Uuid)
    requires b in s.devices && OneWay(s.devices[b], Find(s.presence, b))
    ensures ClosesThrough(s, b)
  {
    hide Trim, Normalize, SamePlace, OneAddress;
    forall a, c | a in s.devices && c in s.devices && SharesWith(s, a, b) && SharesWith(s, b, c)
      ensures SharesWith(s, a, c)
    {
      if a != b && b != c {
        PlaceNeedsAPlace(s, a, b);
        PlaceNeedsAPlace(s, c, b);
        if Trim(s.devices[b].publicKey) == "" {
          PlacesClose(s.presence[a], s.presence[b], s.presence[c]);
        }
      }
    }
  }

  lemma PlaceNeedsAPlace(s: Store, a: Uuid, b: Uuid)
    requires a in s.devices && b in s.devices && a != b
    ensures (SharesWith(s, a, b) || SharesWith(s, b, a)) && !HasPlace(Find(s.presence, b)) ==>
              Trim(s.devices[a].publicKey) == Trim(s.devices[b].publicKey) != ""
  {
    hide Trim, Normalize;
  }

  // ---- What every run keeps ----

  ghost predicate AllNamed(devices: map<Uuid, Device>) {
    forall d <- devices :: Trim(devices[d].name) != ""
  }

  /** Unique keys, presences of live devices, and names that are not blank. */
  ghost predicate Plausible(s: Store) {
    Keys(s) && PresenceIsOwned(s.devices, s.presence) && AllNamed(s.devices)
  }

  lemma RegisterKeepsNames(
    s: Store, userId: Uuid, request: RegisterRequest, requested: Uuid, found: Option<Uuid>, now: u64)
    requires AllNamed(s.devices)
    ensures AllNamed(RegisterDevice(s, userId, request, requested, found, now).store.devices)
  {
    hide Trim, Normalize, DecideKey, KeysWithout, PresentedWithout;
  }

  lemma UpdateKeepsNames(s: Store, userId: Uuid, id: Uuid, request: UpdateRequest, now: u64)
    requires AllNamed(s.devices)
    ensures AllNamed(UpdateDevice(s, userId, id, request, now).store.devices)
  {
    hide Trim;
  }

  lemma StepKeepsNames(s: Store, step: Step)
    requires AllNamed(s.devices)
    ensures AllNamed(Apply(s, step).devices)
  {
    hide Trim, RegisterDevice, UpdateDevice, DeletedIds, ScopeOf, OfflineEvents, ClearedTopology, IsEvicted,
      SamePresentation, OwnsAll, ProfileVersion;
    match step
    case Register(userId, request, requested, found, now) =>
      RegisterKeepsNames(s, userId, request, requested, found, now);
    case Update(userId, id, request, now) => UpdateKeepsNames(s, userId, id, request, now);
    case _ =>
  }

  lemma {:induction false} RunIsPlausible(s: Store, steps: seq<Step>)
    requires Plausible(s) && ProperRun(s, steps) && AlwaysTakesFreeKeys(s, steps)
    ensures Plausible(Run(s, steps))
    decreases |steps|
  {
    hide Keys, PresenceIsOwned, AllNamed, Apply, Proper, TakesFreeKey;
    if steps != [] {
      StepKeepsKeysExactly(s, steps[0]);
      StepKeepsPresence(s, steps[0]);
      StepKeepsNames(s, steps[0]);
      RunIsPlausible(Apply(s, steps[0]), steps[1..]);
    }
  }

  // ---- Two ways are too many ----

  /** A space at its end does not change what is left of a key. */
  lemma TrimIgnoresSpace(s: string)
    ensures Trim(s + " ") == Trim(s)
  {
    assert IsBlank("") && IsBlank(" ");
    BlanksAroundDoNotMatter("", s, " ");
    assert "" + s + " " == s + " ";
  }

  lemma OneLetterKeys()
    ensures Trim("1") == "1" && Trim("2") == "2" && Trim("3") == "3"
  {
  }

  /** Two keys that are not blank and differ from `key` and from each other. */
  lemma OtherKeys(key: string) returns (k: string, l: string)
    ensures Trim(k) != "" && Trim(l) != "" && Trim(k) != Trim(l) && Trim(k) != Trim(key) && Trim(l) != Trim(key)
  {
    OneLetterKeys();
    hide Trim;
    k := if Trim(key) == "1" then "2" else "1";
    l := if Trim(key) == "3" then "2" else "3";
  }

  /** Three records of one user, `b` among them. */
  datatype Trio = Trio(a: Uuid, b: Uuid, c: Uuid, store: Store)

  function Placed(id: Uuid, presence: Option<Presence>): map<Uuid, Presence> {
    if presence.Some? then map[id := presence.value] else map[]
  }

  function TrioOf(
    b: Uuid, device: Device, presence: Option<Presence>, keyA: string, presenceA: Option<Presence>,
    keyC: string, presenceC: Option<Presence>): Trio
  {
    var a := if b == Uuid(0) then Uuid(1) else Uuid(0);
    var c := if b == Uuid(2) then Uuid(3) else Uuid(2);
    Trio(a, b, c,
         EMPTY.(devices := map[a := device.(publicKey := keyA), b := device, c := device.(publicKey := keyC)],
                presence := Placed(a, presenceA) + Placed(b, presence) + Placed(c, presenceC)))
  }

  predicate OwnedBy(presence: Option<Presence>, userId: Uuid) {
    presence.Some? ==> presence.value.userId == userId
  }

  /** `s` holds just these three records of one user. */
  ghost predicate HoldsThree(
    s: Store, t: Trio, device: Device, presence: Option<Presence>, keyA: string, presenceA: Option<Presence>,
    keyC: string, presenceC: Option<Presence>)
  {
    && t.a != t.b && t.b != t.c && t.a != t.c
    && s.devices.Keys == {t.a, t.b, t.c} && s.deletedKeys == {} && s.presence.Keys <= s.devices.Keys
    && IsRecord(s, t.a, device.(publicKey := keyA), presenceA)
    && IsRecord(s, t.b, device, presence)
    && IsRecord(s, t.c, device.(publicKey := keyC), presenceC)
  }

  lemma TrioHoldsThree(
    b: Uuid, device: Device, presence: Option<Presence>, keyA: string, presenceA: Option<Presence>,
    keyC: string, presenceC: Option<Presence>)
    ensures var t := TrioOf(b, device, presence, keyA, presenceA, keyC, presenceC);
            t.b == b && HoldsThree(t.store, t, device, presence, keyA, presenceA, keyC, presenceC)
  {
  }

  lemma ThreeArePlausible(
    s: Store, t: Trio, device: Device, presence: Option<Presence>, keyA: string, presenceA: Option<Presence>,
    keyC: string, presenceC: Option<Presence>)
    requires HoldsThree(s, t, device, presence, keyA, presenceA, keyC, presenceC)
    requires Trim(device.name) != "" && keyA != device.publicKey && keyC != device.publicKey && keyA != keyC
    requires OwnedBy(presence, device.userId) && OwnedBy(presenceA, device.userId) && OwnedBy(presenceC, device.userId)
    ensures Plausible(s)
  {
    hide Trim;
    forall d | d in s.presence ensures Owns(s.devices, s.presence[d].userId, d) {
      assert d == t.a || d == t.b || d == t.c;
    }
  }

  lemma ThreeKeysToldApart(
    s: Store, t: Trio, device: Device, presence: Option<Presence>, keyA: string, presenceA: Option<Presence>,
    keyC: string, presenceC: Option<Presence>)
    requires HoldsThree(s, t, device, presence, keyA, presenceA, keyC, presenceC)
    requires Trim(keyA) != Trim(device.publicKey) && Trim(keyC) != Trim(device.publicKey) && Trim(keyA) != Trim(keyC)
    ensures KeysToldApart(s)
  {
    hide Trim;
  }

  /** Two addresses of `b` are enough for two records that share one of them each. */
  lemma TwoAddressesDoNotClose(b: Uuid, device: Device, presence: Presence, x: string, y: string) returns (s: Store)
    requires Trim(device.name) != "" && presence.userId == device.userId
    requires x in presence.lanIps && y in presence.lanIps && Trim(x) != "" && Trim(y) != "" && Trim(x) != Trim(y)
    ensures Plausible(s) && KeysToldApart(s) && IsRecord(s, b, device, Some(presence)) && !ClosesThrough(s, b)
  {
    var k, l := OtherKeys(device.publicKey);
    hide Trim, Normalize;
    var left, right := presence.(lanIps := [x]), presence.(lanIps := [y]);
    var t := TrioOf(b, device, Some(presence), k, Some(left), l, Some(right));
    s := t.store;
    TrioHoldsThree(b, device, Some(presence), k, Some(left), l, Some(right));
    hide TrioOf;
    ThreeArePlausible(s, t, device, Some(presence), k, Some(left), l, Some(right));
    ThreeKeysToldApart(s, t, device, Some(presence), k, Some(left), l, Some(right));
    hide Plausible, KeysToldApart;
    SingleAddressPlaces(presence, x, y);
    hide SamePlace;
    assert SharesWith(s, t.a, b) && SharesWith(s, b, t.c) && !SharesWith(s, t.a, t.c);
  }

  lemma SingleAddressPlaces(p: Presence, x: string, y: string)
    requires x in p.lanIps && y in p.lanIps && Trim(x) != "" && Trim(y) != "" && Trim(x) != Trim(y)
    ensures SamePlace(p.(lanIps := [x]), p) && SamePlace(p, p.(lanIps := [y]))
    ensures !SamePlace(p.(lanIps := [x]), p.(lanIps := [y]))
  {
    hide Trim;
    assert [x][0] == x && [y][0] == y;
    assert LanIpsOverlap([x], p.lanIps) && LanIpsOverlap(p.lanIps, [y]);
  }

  /** `a` shares the key of `b` and `c` its place, and no more. */
  lemma KeyAndPlaceShare(
    s: Store, t: Trio, device: Device, presence: Presence, near: string, other: string)
    requires HoldsThree(s, t, device, Some(presence), near, None, other, Some(presence))
    requires Trim(near) == Trim(device.publicKey) != "" && Trim(other) != Trim(near) && HasPlace(Some(presence))
    ensures SharesWith(s, t.a, t.b) && SharesWith(s, t.b, t.c) && !SharesWith(s, t.a, t.c)
  {
    hide Trim, Normalize, SamePlace;
    PlaceIsItsOwn(presence);
    hide HasPlace;
  }

  lemma PlaceIsItsOwn(p: Presence)
    requires HasPlace(Some(p))
    ensures SamePlace(p, p)
  {
    hide Trim;
  }

  /** A key and a place are enough for a record that shares the key and one that shares the place. */
  lemma KeyAndPlaceDoNotClose(b: Uuid, device: Device, presence: Presence) returns (s: Store)
    requires Trim(device.name) != "" && presence.userId == device.userId
    requires Trim(device.publicKey) != "" && HasPlace(Some(presence))
    ensures Plausible(s) && IsRecord(s, b, device, Some(presence)) && !ClosesThrough(s, b)
  {
    hide Trim, Normalize, HasPlace, SharesWith, TrioOf, Plausible;
    var k, l := OtherKeys(device.publicKey);
    var near := device.publicKey + " ";
    TrimIgnoresSpace(device.publicKey);
    assert |near| != |device.publicKey|;
    var t := TrioOf(b, device, Some(presence), near, None, l, Some(presence));
    s := t.store;
    TrioHoldsThree(b, device, Some(presence), near, None, l, Some(presence));
    ThreeArePlausible(s, t, device, Some(presence), near, None, l, Some(presence));
    KeyAndPlaceShare(s, t, device, presence, near, l);
  }

  // ---- Exactly ----

  /**
   With keys that are told apart, sharing closes through a record in every plausible store if and only if the
   record shows at most one LAN address.
   */
  lemma SharingClosesExactly(b: Uuid, device: Device, presence: Option<Presence>)
    requires Trim(device.name) != "" && OwnedBy(presence, device.userId)
    ensures (forall s :: Plausible(s) && KeysToldApart(s) && IsRecord(s, b, device, presence) ==> ClosesThrough(s, b))
       <==> OneAddress(presence)
  {
    hide Trim, Plausible, KeysToldApart, ClosesThrough;
    if OneAddress(presence) {
      forall s | Plausible(s) && KeysToldApart(s) && IsRecord(s, b, device, presence) ensures ClosesThrough(s, b) {
        OneAddressCloses(s, b);
      }
    } else {
      var x, y :| x in presence.value.lanIps && y in presence.value.lanIps
                  && Trim(x) != "" && Trim(y) != "" && Trim(x) != Trim(y);
      var s := TwoAddressesDoNotClose(b, device, presence.value, x, y);
    }
  }

  /** With any keys, if and only if the record can be recognised in one way only. */
  lemma SharingClosesWithAnyKeysExactly(b: Uuid, device: Device, presence: Option<Presence>)
    requires Trim(device.name) != "" && OwnedBy(presence, device.userId)
    ensures (forall s :: Plausible(s) && IsRecord(s, b, device, presence) ==> ClosesThrough(s, b))
       <==> OneWay(device, presence)
  {
    hide Trim, Plausible, KeysToldApart, ClosesThrough, HasPlace;
    if OneWay(device, presence) {
      forall s | Plausible(s) && IsRecord(s, b, device, presence) ensures ClosesThrough(s, b) {
        OneWayCloses(s, b);
      }
    } else if !OneAddress(presence) {
      var x, y :| x in presence.value.lanIps && y in presence.value.lanIps
                  && Trim(x) != "" && Trim(y) != "" && Trim(x) != Trim(y);
      var s := TwoAddressesDoNotClose(b, device, presence.value, x, y);
    } else {
      assert presence.Some? by { PlacedIsPresent(presence); }
      var s := KeyAndPlaceDoNotClose(b, device, presence.value);
    }
  }

  lemma PlacedIsPresent(presence: Option<Presence>)
    ensures HasPlace(presence) ==> presence.Some?
  {
  }

  // ---- What it means for a deletion ----

  /** The user's records that share an identity with `id`. */
  function Group(s: Store, userId: Uuid, id: Uuid): set<Uuid>
    requires id in s.devices
  {
    set c | c in s.devices && s.devices[c].userId == userId && SharesWith(s, id, c)
  }

  lemma GroupOfSharer(s: Store, userId: Uuid, a: Uuid, b: Uuid)
    requires a in s.devices && b in s.devices && SharesWith(s, a, b) && ClosesThrough(s, a) && ClosesThrough(s, b)
    ensures Group(s, userId, a) == Group(s, userId, b)
  {
    SharingIsSymmetric(s, a, b);
    hide SharesWith;
  }

  /**
   Where sharing closes, it does not matter which record of a machine is deleted: all that are online
   take the whole group, and so do all that are offline, unless one of the group is online.
   */
  lemma DeletionWhereSharingCloses(s: Store, userId: Uuid, a: Uuid, b: Uuid, now: u64)
    requires Owns(s.devices, userId, a) && Owns(s.devices, userId, b) && SharesWith(s, a, b)
    requires ClosesThrough(s, a) && ClosesThrough(s, b)
    ensures OnlineIn(s.presence, a, now) == OnlineIn(s.presence, b, now) ==>
              && ScopeOf(s, userId, a, now) == ScopeOf(s, userId, b, now)
              && (ScopeOf(s, userId, a, now).PresentedDevice? ==>
                    DeletedIds(s, userId, a, now) == DeletedIds(s, userId, b, now) == Group(s, userId, a))
    ensures OnlineIn(s.presence, a, now) && !OnlineIn(s.presence, b, now) ==>
              DeletedIds(s, userId, a, now) == Group(s, userId, a) && DeletedIds(s, userId, b, now) == {b}
  {
    SharingIsSymmetric(s, a, b);
    GroupOfSharer(s, userId, a, b);
    hide SharesWith, IsOnlineAt;
    assert HasOnlineSibling(s, userId, a, now) ==>
        exists c <- s.devices :: s.devices[c].userId == userId && OnlineIn(s.presence, c, now) && SharesWith(s, b, c);
    assert HasOnlineSibling(s, userId, b, now) ==>
        exists c <- s.devices :: s.devices[c].userId == userId && OnlineIn(s.presence, c, now) && SharesWith(s, a, c);
  }

  /** The record can be recognised in one way only, or by one address among keys that are told apart. */
  ghost predicate IsToldApart(s: Store, d: Uuid)
    requires d in s.devices
  {
    || (KeysToldApart(s) && OneAddress(Find(s.presence, d)))
    || OneWay(s.devices[d], Find(s.presence, d))
  }

  lemma ToldApartCloses(s: Store, d: Uuid)
    requires d in s.devices && IsToldApart(s, d)
    ensures ClosesThrough(s, d)
  {
    hide KeysToldApart, OneAddress, OneWay, ClosesThrough;
    if OneWay(s.devices[d], Find(s.presence, d)) {
      OneWayCloses(s, d);
    } else {
      OneAddressCloses(s, d);
    }
  }

  /** So it is for records of one machine that show no more than one address. */
  lemma DeletionIgnoresTheMember(s: Store, userId: Uuid, a: Uuid, b: Uuid, now: u64)
    requires Owns(s.devices, userId, a) && Owns(s.devices, userId, b) && SharesWith(s, a, b)
    requires IsToldApart(s, a) && IsToldApart(s, b)
    ensures OnlineIn(s.presence, a, now) == OnlineIn(s.presence, b, now) ==>
              && ScopeOf(s, userId, a, now) == ScopeOf(s, userId, b, now)
              && (ScopeOf(s, userId, a, now).PresentedDevice? ==>
                    DeletedIds(s, userId, a, now) == DeletedIds(s, userId, b, now) == Group(s, userId, a))
    ensures OnlineIn(s.presence, a, now) && !OnlineIn(s.presence, b, now) ==>
              DeletedIds(s, userId, a, now) == Group(s, userId, a) && DeletedIds(s, userId, b, now) == {b}
  {
    hide IsToldApart, ClosesThrough, SharesWith, ScopeOf, DeletedIds, Group, OnlineIn;
    ToldApartCloses(s, a);
    ToldApartCloses(s, b);
    DeletionWhereSharingCloses(s, userId, a, b, now);
  }
}
