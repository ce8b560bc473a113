/**
 The peers of the desktop and the text keys by which devices are taken to be the same
 machine (crates/kmsync/src/desktop_state.rs), and what equal keys mean.
 */
module PeerKeys {
  import opened Bytes
  import opened LanAddresses
  import opened Sequences
  import opened Text
  import opened Wrappers

  datatype Device = Device(id: string, name: string, osType: string, publicKey: string, disabled: bool)

  datatype Presence = Presence(
    online: bool,
    lanIps: seq<string>,
    publicIp: string,
    listenPort: u16,
    lastSeenAt: u64,
    expiresAt: u64)

  /** `relayRxOnline` is absent when the relay status is not known. */
  datatype PeerItem = PeerItem(device: Device, presence: Option<Presence>, relayRxOnline: Option<bool>)

  function Joined(ips: seq<string>): string {
    if ips == [] then "" else if |ips| == 1 then ips[0] else ips[0] + "," + Joined(ips[1..])
  }

  function Decimal(n: nat): string {
    var digit := [('0' as int + n % 10) as char];
    if n < 10 then digit else Decimal(n / 10) + digit
  }

  /** Devices with the same key are taken to be the same machine. */
  function DedupKey(item: PeerItem): string {
    var named := "name:" + Normalize(item.device.name) + "|os:" + Normalize(item.device.osType);
    var withoutPresence :=
      if Trim(item.device.publicKey) != "" then "key:" + Trim(item.device.publicKey) else "id:" + item.device.id;
    match item.presence
    case None => withoutPresence
    case Some(p) =>
      var ips := Deduped(Sorted(p.lanIps));
      if ips != [] then named + "|lan:" + Joined(ips)
      else if Trim(p.publicIp) != "" then named + "|public:" + p.publicIp + ":" + Decimal(p.listenPort)
      else withoutPresence
  }

  /** A device keeps its key when its LAN addresses are listed in another order or repeated. */
  lemma KeyIgnoresAddressOrder(item: PeerItem, lanIps: seq<string>)
    requires item.presence.Some? && SameElements(item.presence.value.lanIps, lanIps)
    ensures DedupKey(item) == DedupKey(item.(presence := Some(item.presence.value.(lanIps := lanIps))))
  {
    AddressesMatchExactly(item.presence.value.lanIps, lanIps);
    hide Sorted, Deduped, Joined, Trim, Normalize, Decimal;
  }

  predicate HasAddress(item: PeerItem) {
    item.presence.Some? && (item.presence.value.lanIps != [] || Trim(item.presence.value.publicIp) != "")
  }

  lemma NoAddressesLeft(ips: seq<string>)
    ensures Deduped(Sorted(ips)) == [] <==> ips == []
  {
    AddressesMatchExactly(ips, []);
    assert Deduped(Sorted([])) == [];
    assert ips != [] ==> ips[0] in ips;
  }

  /**
   Devices that present no address are the same machine exactly when they share a public key or, without
   keys, an id; and they are never taken for one that does present an address.
   */
  lemma KeysWithoutAddressMatchExactly(x: PeerItem, y: PeerItem)
    requires !HasAddress(x)
    ensures DedupKey(x) == DedupKey(y)
       <==> && !HasAddress(y)
            && Trim(x.device.publicKey) == Trim(y.device.publicKey)
            && (Trim(x.device.publicKey) == "" ==> x.device.id == y.device.id)
  {
    if x.presence.Some? { NoAddressesLeft(x.presence.value.lanIps); }
    if y.presence.Some? { NoAddressesLeft(y.presence.value.lanIps); }
    hide Sorted, Deduped, Joined, Trim, Normalize, Decimal;
    CommonPrefix("key:", Trim(x.device.publicKey), Trim(y.device.publicKey));
    CommonPrefix("id:", x.device.id, y.device.id);
    assert DedupKey(x)[0] == if Trim(x.device.publicKey) != "" then 'k' else 'i';
    assert DedupKey(y)[0] == if HasAddress(y) then 'n' else if Trim(y.device.publicKey) != "" then 'k' else 'i';
  }

  // ---- Taking a key apart ----

  predicate NoComma(ips: seq<string>) {
    forall ip <- ips :: ',' !in ip
  }

  lemma {:induction false} JoinedIsInjective(a: seq<string>, b: seq<string>)
    requires a != [] && b != [] && NoComma(a) && NoComma(b) && Joined(a) == Joined(b)
    ensures a == b
  {
    assert a[0] in a && b[0] in b;
    assert a == [a[0]] + a[1..] && b == [b[0]] + b[1..];
    if |a| > 1 {
      assert Joined(a) == a[0] + [','] + Joined(a[1..]) && Joined(a)[|a[0]|] == ',';
    }
    if |b| > 1 {
      assert Joined(b) == b[0] + [','] + Joined(b[1..]) && Joined(b)[|b[0]|] == ',';
    }
    if |a| > 1 && |b| > 1 {
      SplitAtFirst(',', a[0], Joined(a[1..]), b[0], Joined(b[1..]));
      JoinedIsInjective(a[1..], b[1..]);
    }
  }

  lemma {:induction false} DecimalHasNoColon(n: nat)
    ensures Decimal(n) != "" && ':' !in Decimal(n)
  {
    if n >= 10 {
      DecimalHasNoColon(n / 10);
    }
  }

  lemma {:induction false} DecimalIsInjective(m: nat, n: nat)
    requires Decimal(m) == Decimal(n)
    ensures m == n
  {
    DecimalHasNoColon(m / 10);
    DecimalHasNoColon(n / 10);
    var s, t := Decimal(m), Decimal(n);
    assert s[|s| - 1] as int == '0' as int + m % 10 && t[|t| - 1] as int == '0' as int + n % 10;
    if m >= 10 && n >= 10 {
      assert s[..|s| - 1] == Decimal(m / 10) && t[..|t| - 1] == Decimal(n / 10);
      DecimalIsInjective(m / 10, n / 10);
    }
  }

  // ---- What equal keys mean ----

  /** The separators of a key occur in none of its parts. */
  predicate IsPlain(item: PeerItem) {
    HasAddress(item) ==>
      && '|' !in Normalize(item.device.name) && '|' !in Normalize(item.device.osType)
      && NoComma(item.presence.value.lanIps)
  }

  /** One name and system, and one set of LAN addresses or, without any, one public endpoint. */
  ghost predicate SameMachine(x: PeerItem, y: PeerItem)
    requires HasAddress(x) && HasAddress(y)
  {
    var p, q := x.presence.value, y.presence.value;
    && Normalize(x.device.name) == Normalize(y.device.name)
    && Normalize(x.device.osType) == Normalize(y.device.osType)
    && SameElements(p.lanIps, q.lanIps)
    && (p.lanIps == [] ==> p.publicIp == q.publicIp && p.listenPort == q.listenPort)
  }

  /** The last part of the key of a device with an address. */
  function Place(p: Presence): string {
    if p.lanIps != [] then "lan:" + Joined(Deduped(Sorted(p.lanIps)))
    else "public:" + p.publicIp + ":" + Decimal(p.listenPort)
  }

  lemma Regroup(a: string, n: string, bar: string, b: string, o: string, c: string, p: string)
    ensures a + n + (bar + b) + o + (bar + c) + p == a + (n + bar + (b + (o + bar + (c + p))))
  {
  }

  lemma Literals()
    ensures "|" + "os:" == "|os:" && "|" + "lan:" == "|lan:" && "|" + "public:" == "|public:"
  {
  }

  /** The key of a device with an address, as it is put together. */
  lemma KeyText(item: PeerItem)
    requires HasAddress(item)
    ensures var p := item.presence.value;
            DedupKey(item)
              == "name:" + Normalize(item.device.name) + "|os:" + Normalize(item.device.osType)
                 + (if p.lanIps != [] then "|lan:" else "|public:")
                 + (if p.lanIps != [] then Joined(Deduped(Sorted(p.lanIps)))
                    else p.publicIp + ":" + Decimal(p.listenPort))
  {
    var p := item.presence.value;
    NoAddressesLeft(p.lanIps);
    hide Sorted, Deduped, Joined, Trim, Normalize, Decimal;
    var named := "name:" + Normalize(item.device.name) + "|os:" + Normalize(item.device.osType) + "|public:";
    assert named + p.publicIp + ":" + Decimal(p.listenPort) == named + (p.publicIp + ":" + Decimal(p.listenPort));
  }

  lemma KeyParts(item: PeerItem)
    requires HasAddress(item)
    ensures DedupKey(item)
         == "name:" + (Normalize(item.device.name) + "|"
                       + ("os:" + (Normalize(item.device.osType) + "|" + Place(item.presence.value))))
  {
    var p := item.presence.value;
    var kind := if p.lanIps != [] then "lan:" else "public:";
    var rest := if p.lanIps != [] then Joined(Deduped(Sorted(p.lanIps))) else p.publicIp + ":" + Decimal(p.listenPort);
    KeyText(item);
    Literals();
    Regroup("name:", Normalize(item.device.name), "|", "os:", Normalize(item.device.osType), kind, rest);
    PlaceText(p);
    hide DedupKey, Place, Sorted, Deduped, Joined, Normalize, Decimal;
  }

  lemma PlaceText(p: Presence)
    ensures Place(p) == if p.lanIps != [] then "lan:" + Joined(Deduped(Sorted(p.lanIps)))
                        else "public:" + (p.publicIp + ":" + Decimal(p.listenPort))
  {
    hide Sorted, Deduped, Joined, Decimal;
    assert "public:" + p.publicIp + ":" + Decimal(p.listenPort)
        == "public:" + (p.publicIp + ":" + Decimal(p.listenPort));
  }

  lemma PlacesMatchExactly(p: Presence, q: Presence)
    requires NoComma(p.lanIps) && NoComma(q.lanIps)
    ensures Place(p) == Place(q)
       <==> && SameElements(p.lanIps, q.lanIps)
            && (p.lanIps == [] ==> p.publicIp == q.publicIp && p.listenPort == q.listenPort)
  {
    AddressesMatchExactly(p.lanIps, q.lanIps);
    NoAddressesLeft(p.lanIps);
    NoAddressesLeft(q.lanIps);
    DedupedKeepsCommasOut(p.lanIps);
    DedupedKeepsCommasOut(q.lanIps);
    DecimalHasNoColon(p.listenPort);
    DecimalHasNoColon(q.listenPort);
    var a, b := Deduped(Sorted(p.lanIps)), Deduped(Sorted(q.lanIps));
    hide Sorted, Deduped, Joined, Decimal;
    assert (p.lanIps == [] && SameElements(p.lanIps, q.lanIps)) ==> q.lanIps == [] by {
      assert q.lanIps != [] ==> q.lanIps[0] in q.lanIps;
    }
    assert (q.lanIps == [] && SameElements(p.lanIps, q.lanIps)) ==> p.lanIps == [] by {
      assert p.lanIps != [] ==> p.lanIps[0] in p.lanIps;
    }
    if Place(p) == Place(q) {
      assert Place(p)[0] == if p.lanIps != [] then 'l' else 'p';
      assert Place(q)[0] == if q.lanIps != [] then 'l' else 'p';
      if p.lanIps != [] {
        CommonPrefix("lan:", Joined(a), Joined(b));
        JoinedIsInjective(a, b);
      } else {
        var d, e := Decimal(p.listenPort), Decimal(q.listenPort);
        assert Place(p) == "public:" + (p.publicIp + [':'] + d) && Place(q) == "public:" + (q.publicIp + [':'] + e);
        CommonPrefix("public:", p.publicIp + [':'] + d, q.publicIp + [':'] + e);
        SplitAtLast(':', p.publicIp, d, q.publicIp, e);
        DecimalIsInjective(p.listenPort, q.listenPort);
      }
    }
  }

  lemma DedupedKeepsCommasOut(ips: seq<string>)
    requires NoComma(ips)
    ensures NoComma(Deduped(Sorted(ips)))
  {
    SortedSorts(ips);
    DedupedIsStrict(Sorted(ips));
    hide Sorted, Deduped;
  }

  /**
   As long as the separators of a key occur in none of its parts, equal keys mean the same name, system and
   addresses or endpoint, or for devices that present none, the same public key or id.
   */
  lemma KeysMatchExactly(x: PeerItem, y: PeerItem)
    requires IsPlain(x) && IsPlain(y)
    ensures DedupKey(x) == DedupKey(y)
       <==> if HasAddress(x) then HasAddress(y) && SameMachine(x, y)
            else && !HasAddress(y)
                 && Trim(x.device.publicKey) == Trim(y.device.publicKey)
                 && (Trim(x.device.publicKey) == "" ==> x.device.id == y.device.id)
  {
    if !HasAddress(x) {
      KeysWithoutAddressMatchExactly(x, y);
    } else if !HasAddress(y) {
      KeysWithoutAddressMatchExactly(y, x);
    } else {
      KeyParts(x);
      KeyParts(y);
      PlacesMatchExactly(x.presence.value, y.presence.value);
      hide DedupKey, Place, Trim, Normalize;
      PartsMatchExactly(
        Normalize(x.device.name), Normalize(x.device.osType), Place(x.presence.value),
        Normalize(y.device.name), Normalize(y.device.osType), Place(y.presence.value));
    }
  }

  lemma PartsMatchExactly(n: string, o: string, p: string, m: string, t: string, q: string)
    requires '|' !in n && '|' !in o && '|' !in m && '|' !in t
    ensures "name:" + (n + "|" + ("os:" + (o + "|" + p))) == "name:" + (m + "|" + ("os:" + (t + "|" + q)))
       <==> n == m && o == t && p == q
  {
    var x, y := "os:" + (o + "|" + p), "os:" + (t + "|" + q);
    CommonPrefix("name:", n + "|" + x, m + "|" + y);
    if n + "|" + x == m + "|" + y {
      SplitAtFirst('|', n, x, m, y);
      CommonPrefix("os:", o + "|" + p, t + "|" + q);
      SplitAtFirst('|', o, p, t, q);
    }
  }

  // ---- When separators mislead ----

  /** The text between the commas. */
  function SplitAtCommas(s: string): (parts: seq<string>)
    ensures parts != []
  {
    if s == "" then [""]
    else
      var rest := SplitAtCommas(s[1..]);
      if s[0] == ',' then [""] + rest else [[s[0]] + rest[0]] + rest[1..]
  }

  lemma FirstGrows(c: char, first: string, tail: seq<string>)
    ensures Joined([[c] + first] + tail) == [c] + Joined([first] + tail)
  {
    assert ([[c] + first] + tail)[1..] == tail && ([first] + tail)[1..] == tail;
    hide Joined;
    assert [c] + (first + "," + Joined(tail)) == [c] + first + "," + Joined(tail);
  }

  lemma {:induction false} JoinedOfSplit(s: string)
    ensures NoComma(SplitAtCommas(s)) && Joined(SplitAtCommas(s)) == s
  {
    if s != "" {
      var rest := SplitAtCommas(s[1..]);
      JoinedOfSplit(s[1..]);
      assert s == [s[0]] + s[1..];
      if s[0] == ',' {
        assert ([""] + rest)[1..] == rest;
        assert Joined([""] + rest) == "" + "," + Joined(rest);
      } else {
        assert rest == [rest[0]] + rest[1..] && rest[0] in rest;
        FirstGrows(s[0], rest[0], rest[1..]);
      }
    }
  }

  lemma SplitOfJoined(parts: seq<string>)
    requires parts != [] && NoComma(parts)
    ensures SplitAtCommas(Joined(parts)) == parts
  {
    JoinedOfSplit(Joined(parts));
    JoinedIsInjective(SplitAtCommas(Joined(parts)), parts);
  }

  /** The address list as it goes into the key. */
  function Addresses(ips: seq<string>): seq<string> {
    Deduped(Sorted(ips))
  }

  /** What the address list looks like in the key is another list, sorted and without repeats. */
  predicate Misleads(ips: seq<string>) {
    var parts := SplitAtCommas(Joined(Addresses(ips)));
    IsStrict(parts) && parts != Addresses(ips)
  }

  lemma StrictIsItsOwnList(parts: seq<string>)
    requires IsStrict(parts)
    ensures Addresses(parts) == parts
  {
    SortedSorts(parts);
    DedupedIsStrict(Sorted(parts));
    StrictIsUnique(Addresses(parts), parts);
  }

  /** `other` is a different list of addresses without commas that looks the same in a key. */
  ghost predicate LooksLike(ips: seq<string>, other: seq<string>) {
    other != [] && NoComma(other) && !SameElements(ips, other) && Joined(Addresses(ips)) == Joined(Addresses(other))
  }

  lemma LookalikeMisleads(ips: seq<string>, other: seq<string>)
    requires LooksLike(ips, other)
    ensures Misleads(ips)
  {
    NoAddressesLeft(other);
    DedupedKeepsCommasOut(other);
    SortedSorts(other);
    DedupedIsStrict(Sorted(other));
    SplitOfJoined(Addresses(other));
    AddressesMatchExactly(ips, other);
    hide Sorted, Deduped, Joined, SplitAtCommas, IsStrict, NoComma, SameElements;
  }

  lemma MisleadingHasLookalike(ips: seq<string>)
    requires Misleads(ips)
    ensures LooksLike(ips, SplitAtCommas(Joined(Addresses(ips))))
  {
    var text := Joined(Addresses(ips));
    JoinedOfSplit(text);
    StrictIsItsOwnList(SplitAtCommas(text));
    AddressesMatchExactly(ips, SplitAtCommas(text));
    hide Sorted, Deduped, Joined, SplitAtCommas, IsStrict, NoComma, SameElements;
  }

  /** `y` is a device without separators in its parts that has the key of `x` and is somewhere else. */
  ghost predicate IsTakenFor(x: PeerItem, y: PeerItem) {
    HasAddress(x) && HasAddress(y) && IsPlain(y) && DedupKey(x) == DedupKey(y) && !SameMachine(x, y)
  }

  /**
   A device whose name and system hold no bar is taken for another, plain one exactly when its address list
   misleads: split at all its commas it is sorted, without repeats and not the list itself.
   */
  lemma TakenForAnotherExactly(x: PeerItem)
    requires HasAddress(x) && x.presence.value.lanIps != []
    requires '|' !in Normalize(x.device.name) && '|' !in Normalize(x.device.osType)
    ensures (exists y :: IsTakenFor(x, y)) <==> Misleads(x.presence.value.lanIps)
  {
    var ips := x.presence.value.lanIps;
    hide IsTakenFor, Misleads, HasAddress, DedupKey;
    if Misleads(ips) {
      LookalikeIsTakenFor(x, SplitAtCommas(Joined(Addresses(ips))));
    }
    if y :| IsTakenFor(x, y) {
      TakenForLookalike(x, y);
    }
  }

  lemma LookalikeIsTakenFor(x: PeerItem, other: seq<string>)
    requires HasAddress(x) && x.presence.value.lanIps != []
    requires '|' !in Normalize(x.device.name) && '|' !in Normalize(x.device.osType)
    requires Misleads(x.presence.value.lanIps) && other == SplitAtCommas(Joined(Addresses(x.presence.value.lanIps)))
    ensures IsTakenFor(x, x.(presence := Some(x.presence.value.(lanIps := other))))
  {
    var y := x.(presence := Some(x.presence.value.(lanIps := other)));
    MisleadingHasLookalike(x.presence.value.lanIps);
    hide Sorted, Deduped, Joined, SplitAtCommas, NoComma, SameElements, DedupKey, Normalize, Trim, Misleads;
    KeyParts(x);
    KeyParts(y);
  }

  lemma TakenForLookalike(x: PeerItem, y: PeerItem)
    requires IsTakenFor(x, y) && x.presence.value.lanIps != []
    requires '|' !in Normalize(x.device.name) && '|' !in Normalize(x.device.osType)
    ensures Misleads(x.presence.value.lanIps)
  {
    var p, q := x.presence.value, y.presence.value;
    hide Sorted, Deduped, Joined, NoComma, SameElements, DedupKey, Normalize, Trim, Decimal, Misleads;
    KeyParts(x);
    KeyParts(y);
    PartsMatchExactly(Normalize(x.device.name), Normalize(x.device.osType), Place(p),
                      Normalize(y.device.name), Normalize(y.device.osType), Place(q));
    assert Place(p)[0] == 'l';
    assert Place(q)[0] == if q.lanIps != [] then 'l' else 'p';
    CommonPrefix("lan:", Joined(Addresses(p.lanIps)), Joined(Addresses(q.lanIps)));
    LookalikeMisleads(p.lanIps, q.lanIps);
  }

  /** A bar in a name moves the border between name and system. */
  lemma BarsRunTogether(device: Device, p: Presence, relay: Option<bool>)
    requires HasAddress(PeerItem(device, Some(p), relay))
    ensures var x := PeerItem(device.(name := "a|os:b", osType := "c"), Some(p), relay);
            var y := PeerItem(device.(name := "a", osType := "b|os:c"), Some(p), relay);
            DedupKey(x) == DedupKey(y) && HasAddress(x) && HasAddress(y) && !SameMachine(x, y)
  {
    var x := PeerItem(device.(name := "a|os:b", osType := "c"), Some(p), relay);
    var y := PeerItem(device.(name := "a", osType := "b|os:c"), Some(p), relay);
    PlainTexts();
    hide Sorted, Deduped, Joined, Decimal, Trim, Normalize, DedupKey, Place, SameElements;
    KeyParts(x);
    KeyParts(y);
    assert "a|os:b" + "|" + ("os:" + ("c" + "|" + Place(p))) == "a" + "|" + ("os:" + ("b|os:c" + "|" + Place(p)));
    assert "a|os:b" != "a";
  }

  lemma PlainTexts()
    ensures Normalize("a|os:b") == "a|os:b" && Normalize("c") == "c"
    ensures Normalize("a") == "a" && Normalize("b|os:c") == "b|os:c"
  {
    assert Trim("a|os:b") == "a|os:b" && Trim("c") == "c" && Trim("a") == "a" && Trim("b|os:c") == "b|os:c";
  }

  /** A comma in an address makes one address look like two. */
  lemma CommasRunTogether(device: Device, p: Presence, relay: Option<bool>)
    ensures var one := PeerItem(device, Some(p.(lanIps := ["1,2"])), relay);
            var two := PeerItem(device, Some(p.(lanIps := ["1", "2"])), relay);
            DedupKey(one) == DedupKey(two) && HasAddress(one) && HasAddress(two) && !SameMachine(one, two)
  {
    assert "1"[0] == '1' && "2"[0] == '2';
    assert ["1", "2"][..1] == ["1"] && ["1"][..0] == [] && ["1", "2"][1..] == ["2"];
    assert Sorted([]) == [];
    assert Sorted(["1"]) == ["1"];
    assert ["1"][1..] == [];
    assert !LexLess("2", "1");
    assert InsertSorted([], "2") == ["2"];
    assert Sorted(["1", "2"]) == ["1"] + InsertSorted([], "2");
    assert Deduped(["2"]) == ["2"];
    assert Deduped(["1", "2"]) == ["1"] + ["2"];
    assert Joined(["1", "2"]) == "1,2";
    assert ["1,2"][..0] == [];
    assert Sorted(["1,2"]) == ["1,2"];
    hide Sorted, Deduped, Joined, Normalize, Trim;
    assert "1" in ["1", "2"] && "1" !in ["1,2"];
  }
}
