/**
 The peer list of the desktop (crates/kmsync/src/desktop_state.rs): devices that
 present themselves alike are shown once, and layout slots follow the one shown.
 */
module PeerIndex {
  import opened Bytes
  import opened PeerKeys
  import opened PresenceClock
  import opened Text
  import opened Wrappers

  predicate IsOnline(item: PeerItem, now: u64) {
    item.presence.Some?
    && var p := item.presence.value;
       StillOnline(p.online, p.lastSeenAt, p.expiresAt, now)
  }

  predicate RelayOnline(item: PeerItem) {
    item.relayRxOnline == Some(true)
  }

  predicate IsAvailable(item: PeerItem, now: u64) {
    IsOnline(item, now) || RelayOnline(item)
  }

  function LastSeen(item: PeerItem): u64 {
    if item.presence.Some? then item.presence.value.lastSeenAt else 0
  }

  // ---- The order of candidates ----

  /** The order on (online, relay, last seen, id) tuples. */
  predicate IsBetter(a: PeerItem, b: PeerItem, now: u64) {
    var aOnline, bOnline := IsOnline(a, now), IsOnline(b, now);
    if aOnline != bOnline then aOnline
    else if RelayOnline(a) != RelayOnline(b) then RelayOnline(a)
    else if LastSeen(a) != LastSeen(b) then LastSeen(a) > LastSeen(b)
    else LexLess(b.device.id, a.device.id)
  }

  lemma BetterIsTransitive(a: PeerItem, b: PeerItem, c: PeerItem, now: u64)
    ensures IsBetter(a, b, now) && IsBetter(b, c, now) ==> IsBetter(a, c, now)
  {
    if LexLess(c.device.id, b.device.id) && LexLess(b.device.id, a.device.id) {
      LexTransitive(c.device.id, b.device.id, a.device.id);
    }
  }

  lemma BetterIsTotal(a: PeerItem, b: PeerItem, now: u64)
    ensures !IsBetter(a, a, now)
    ensures a.device.id != b.device.id ==> IsBetter(a, b, now) || IsBetter(b, a, now)
  {
    LexIrreflexive(a.device.id);
    LexTotal(a.device.id, b.device.id);
  }

  // ---- Selection ----

  predicate IsPeer(item: PeerItem, current: Option<string>) {
    Some(item.device.id) != current && !item.device.disabled
  }

  /** A peer that no peer with its key beats. */
  predicate IsWinner(items: seq<PeerItem>, current: Option<string>, now: u64, w: PeerItem) {
    w in items && IsPeer(w, current)
    && forall x <- items :: IsPeer(x, current) && DedupKey(x) == DedupKey(w) ==> !IsBetter(x, w, now)
  }

  datatype Entry = Entry(key: string, item: PeerItem)

  /** One winner for every key that a peer has. */
  predicate IsSelection(items: seq<PeerItem>, current: Option<string>, now: u64, selected: seq<Entry>) {
    && (forall e <- selected :: e.key == DedupKey(e.item) && IsWinner(items, current, now, e.item))
    && (forall i, j :: 0 <= i < j < |selected| ==> selected[i].key != selected[j].key)
    && (forall x <- items :: IsPeer(x, current) ==> exists e <- selected :: e.key == DedupKey(x))
  }

  predicate DistinctIds(items: seq<PeerItem>) {
    forall x <- items, y <- items :: x.device.id == y.device.id ==> x == y
  }

  /** The first entry with this key. */
  method FindKey(selected: seq<Entry>, key: string) returns (at: Option<nat>)
    ensures at.Some? ==> at.value < |selected| && selected[at.value].key == key
    ensures at.None? ==> forall e <- selected :: e.key != key
  {
    for i := 0 to |selected|
      invariant forall e <- selected[..i] :: e.key != key
    {
      if selected[i].key == key {
        return Some(i);
      }
    }
    return None;
  }

  lemma StillWinner(items: seq<PeerItem>, item: PeerItem, current: Option<string>, now: u64, w: PeerItem)
    requires IsWinner(items, current, now, w)
    requires DedupKey(item) != DedupKey(w) || !IsBetter(item, w, now)
    ensures IsWinner(items + [item], current, now, w)
  {
    hide DedupKey, IsPeer, IsBetter;
  }

  lemma FirstOfKeyWins(items: seq<PeerItem>, item: PeerItem, current: Option<string>, now: u64)
    requires IsPeer(item, current)
    requires forall x <- items :: IsPeer(x, current) ==> DedupKey(x) != DedupKey(item)
    ensures IsWinner(items + [item], current, now, item)
  {
    hide DedupKey, IsPeer, IsBetter;
    BetterIsTotal(item, item, now);
    assert (items + [item])[|items|] == item;
  }

  lemma AddNewKey(items: seq<PeerItem>, item: PeerItem, current: Option<string>, now: u64, selected: seq<Entry>)
    requires IsSelection(items, current, now, selected) && IsPeer(item, current)
    requires forall e <- selected :: e.key != DedupKey(item)
    ensures IsSelection(items + [item], current, now, selected + [Entry(DedupKey(item), item)])
  {
    hide DedupKey, IsPeer, IsBetter, IsWinner;
    var all, after := items + [item], selected + [Entry(DedupKey(item), item)];
    forall x | x in items && IsPeer(x, current) ensures DedupKey(x) != DedupKey(item) {
      var e :| e in selected && e.key == DedupKey(x);
    }
    FirstOfKeyWins(items, item, current, now);
    forall e | e in selected ensures IsWinner(all, current, now, e.item) {
      StillWinner(items, item, current, now, e.item);
    }
    assert after[|selected|] in after && forall e <- selected :: e in after;
  }

  lemma NewWinner(items: seq<PeerItem>, item: PeerItem, current: Option<string>, now: u64, w: PeerItem)
    requires IsWinner(items, current, now, w) && DedupKey(item) == DedupKey(w)
    requires IsPeer(item, current) && IsBetter(item, w, now)
    ensures IsWinner(items + [item], current, now, item)
  {
    BetterIsTotal(item, item, now);
    hide DedupKey, IsPeer, IsBetter;
    forall x | x in items + [item] && IsPeer(x, current) && DedupKey(x) == DedupKey(item)
      ensures !IsBetter(x, item, now)
    {
      BetterIsTransitive(x, item, w, now);
    }
  }

  lemma ReplaceOrKeep(
    items: seq<PeerItem>, item: PeerItem, current: Option<string>, now: u64, selected: seq<Entry>, at: nat)
    requires IsSelection(items, current, now, selected) && IsPeer(item, current)
    requires at < |selected| && selected[at].key == DedupKey(item)
    ensures IsSelection(items + [item], current, now,
                        if IsBetter(item, selected[at].item, now) then selected[at := Entry(DedupKey(item), item)]
                        else selected)
  {
    hide DedupKey, IsPeer, IsBetter, IsWinner;
    var all, held := items + [item], selected[at].item;
    assert selected[at] in selected;
    var better := IsBetter(item, held, now);
    var after := if better then selected[at := Entry(DedupKey(item), item)] else selected;
    if better {
      NewWinner(items, item, current, now, held);
    }
    forall i | 0 <= i < |after|
      ensures after[i].key == DedupKey(after[i].item) && IsWinner(all, current, now, after[i].item)
    {
      if i != at || !better {
        assert selected[i] in selected;
        StillWinner(items, item, current, now, selected[i].item);
      }
    }
    forall x | x in all && IsPeer(x, current) ensures exists e <- after :: e.key == DedupKey(x) {
      assert exists e <- selected :: e.key == DedupKey(x);
      var e :| e in selected && e.key == DedupKey(x);
      var i :| 0 <= i < |selected| && selected[i] == e;
      assert after[i] in after && after[i].key == selected[i].key;
    }
  }

  lemma SkipOther(items: seq<PeerItem>, item: PeerItem, current: Option<string>, now: u64, selected: seq<Entry>)
    requires IsSelection(items, current, now, selected) && !IsPeer(item, current)
    ensures IsSelection(items + [item], current, now, selected)
  {
    hide DedupKey, IsPeer, IsBetter;
  }

  // ---- What is shown ----

  /** The presence was reported as online and has not run out; without an expiry it lasts a minute. */
  predicate ShowsOnline(item: PeerItem, now: u64) {
    match item.presence
    case None => false
    case Some(p) => p.online && now <= if p.expiresAt == 0 then SaturatingAdd(p.lastSeenAt, 60) else p.expiresAt
  }

  predicate ShowsRelay(item: PeerItem) {
    match item.relayRxOnline
    case None => false
    case Some(online) => online
  }

  function SeenAt(item: PeerItem): u64 {
    match item.presence
    case None => 0
    case Some(p) => p.lastSeenAt
  }

  /** `w` is shown rather than `x`: what `x` has, `w` has too, or has something that counts for more. */
  predicate IsPreferred(w: PeerItem, x: PeerItem, now: u64) {
    && (ShowsOnline(x, now) ==> ShowsOnline(w, now))
    && (ShowsOnline(x, now) == ShowsOnline(w, now) ==>
          && (ShowsRelay(x) ==> ShowsRelay(w))
          && (ShowsRelay(x) == ShowsRelay(w) ==>
                && SeenAt(x) <= SeenAt(w)
                && (SeenAt(x) == SeenAt(w) ==> !LexLess(w.device.id, x.device.id))))
  }

  /** Enabled, and not the device that shows the list. */
  predicate IsOther(item: PeerItem, current: Option<string>) {
    !item.device.disabled && (current.Some? ==> item.device.id != current.value)
  }

  /** The record of a machine that is preferred to all its others. */
  predicate IsShown(items: seq<PeerItem>, current: Option<string>, now: u64, w: PeerItem) {
    w in items && IsOther(w, current)
    && forall x <- items :: IsOther(x, current) && DedupKey(x) == DedupKey(w) ==> IsPreferred(w, x, now)
  }

  /** Every other machine is shown once. */
  predicate ShowsPreferred(items: seq<PeerItem>, current: Option<string>, now: u64, selected: seq<Entry>) {
    && (forall e <- selected :: e.key == DedupKey(e.item) && IsShown(items, current, now, e.item))
    && (forall i, j :: 0 <= i < j < |selected| ==> selected[i].key != selected[j].key)
    && (forall x <- items :: IsOther(x, current) ==> exists e <- selected :: e.key == DedupKey(x))
  }

  /** A winner is online if any record of its machine is, then reachable by relay, then seen last. */
  lemma WinnerIsPreferred(items: seq<PeerItem>, current: Option<string>, now: u64, w: PeerItem, x: PeerItem)
    requires IsWinner(items, current, now, w) && x in items && IsOther(x, current) && DedupKey(x) == DedupKey(w)
    ensures IsOther(w, current) && IsPreferred(w, x, now)
  {
    hide DedupKey, LexLess;
  }

  lemma WinnerIsShown(items: seq<PeerItem>, current: Option<string>, now: u64, w: PeerItem)
    requires IsWinner(items, current, now, w)
    ensures IsShown(items, current, now, w)
  {
    hide DedupKey, IsPreferred, IsBetter;
    forall x | x in items && IsOther(x, current) && DedupKey(x) == DedupKey(w) ensures IsPreferred(w, x, now) {
      WinnerIsPreferred(items, current, now, w, x);
    }
  }

  lemma SelectionShowsPreferred(items: seq<PeerItem>, current: Option<string>, now: u64, selected: seq<Entry>)
    requires IsSelection(items, current, now, selected)
    ensures ShowsPreferred(items, current, now, selected)
  {
    hide DedupKey, IsWinner, IsShown;
    forall e | e in selected ensures IsShown(items, current, now, e.item) {
      WinnerIsShown(items, current, now, e.item);
    }
  }

  /** The first loop of `build_peer_state_index`. */
  method SelectPeers(current: Option<string>, items: seq<PeerItem>, now: u64) returns (selected: seq<Entry>)
    ensures IsSelection(items, current, now, selected)
    ensures ShowsPreferred(items, current, now, selected)
  {
    hide DedupKey, IsPeer, IsBetter;
    selected := [];
    assert items[..0] == [];
    for n := 0 to |items|
      invariant IsSelection(items[..n], current, now, selected)
    {
      var item := items[n];
      assert items[..n + 1] == items[..n] + [item];
      if IsPeer(item, current) {
        var key := DedupKey(item);
        var at := FindKey(selected, key);
        if at.Some? {
          ReplaceOrKeep(items[..n], item, current, now, selected, at.value);
          hide IsSelection;
          if IsBetter(item, selected[at.value].item, now) {
            selected := selected[at.value := Entry(key, item)];
          }
        } else {
          AddNewKey(items[..n], item, current, now, selected);
          hide IsSelection;
          selected := selected + [Entry(key, item)];
        }
      } else {
        SkipOther(items[..n], item, current, now, selected);
      }
    }
    assert items[..|items|] == items;
    hide IsSelection, ShowsPreferred;
    SelectionShowsPreferred(items, current, now, selected);
  }

  /** With distinct ids, a key has only one winner: it is strictly better than every other peer of its key. */
  lemma WinnerIsGreatest(items: seq<PeerItem>, current: Option<string>, now: u64, w: PeerItem, x: PeerItem)
    requires DistinctIds(items) && IsWinner(items, current, now, w)
    requires x in items && IsPeer(x, current) && DedupKey(x) == DedupKey(w) && x != w
    ensures IsBetter(w, x, now) && !IsWinner(items, current, now, x)
  {
    hide DedupKey;
    BetterIsTotal(w, x, now);
  }

  /** Selection in either order of the devices shows the same peers. */
  lemma SelectionIgnoresOrder(
    a: seq<PeerItem>, b: seq<PeerItem>, current: Option<string>, now: u64, forA: seq<Entry>, forB: seq<Entry>)
    requires multiset(a) == multiset(b) && DistinctIds(a)
    requires IsSelection(a, current, now, forA) && IsSelection(b, current, now, forB)
    ensures multiset(forA) == multiset(forB)
  {
    hide DedupKey, IsPeer, IsBetter;
    forall x ensures x in a <==> x in b {
      assert x in multiset(a) <==> x in multiset(b);
    }
    SelectedInOther(a, b, current, now, forA, forB);
    SelectedInOther(b, a, current, now, forB, forA);
    hide IsWinner;
    NoRepeats(forA);
    NoRepeats(forB);
    forall e ensures multiset(forA)[e] == multiset(forB)[e] {
      assert e in forA <==> e in multiset(forA);
      assert e in forB <==> e in multiset(forB);
    }
  }

  lemma SelectedInOther(
    a: seq<PeerItem>, b: seq<PeerItem>, current: Option<string>, now: u64, forA: seq<Entry>, forB: seq<Entry>)
    requires (forall x :: x in a <==> x in b) && DistinctIds(a)
    requires IsSelection(a, current, now, forA) && IsSelection(b, current, now, forB)
    ensures forall e <- forA :: e in forB
  {
    hide DedupKey, IsPeer, IsBetter;
    forall e | e in forA ensures e in forB {
      assert e.item in b;
      var f :| f in forB && f.key == DedupKey(e.item);
      assert IsWinner(a, current, now, f.item);
      if f.item != e.item {
        WinnerIsGreatest(a, current, now, e.item, f.item);
      }
    }
  }

  lemma {:induction false} NoRepeats(entries: seq<Entry>)
    requires forall i, j :: 0 <= i < j < |entries| ==> entries[i].key != entries[j].key
    ensures forall e :: multiset(entries)[e] <= 1
  {
    if entries != [] {
      var before, last := entries[..|entries| - 1], entries[|entries| - 1];
      NoRepeats(before);
      assert entries == before + [last];
      assert last !in before;
    }
  }

  // ---- Canonical ids ----

  /** Each id stands for the winner of its key, if it is the winner or the winner can be reached. */
  predicate IsCanonical(
    items: seq<PeerItem>, current: Option<string>, now: u64, selected: seq<Entry>, canonical: map<string, string>)
  {
    && (forall x <- items, e <- selected ::
          IsPeer(x, current) && e.key == DedupKey(x) ==>
            if x.device.id == e.item.device.id || IsAvailable(e.item, now)
            then x.device.id in canonical && canonical[x.device.id] == e.item.device.id
            else x.device.id !in canonical)
    && (forall id <- canonical :: exists x <- items :: IsPeer(x, current) && x.device.id == id)
  }

  lemma SameId(seen: seq<PeerItem>, item: PeerItem, x: PeerItem)
    requires DistinctIds(seen + [item]) && x in seen && x.device.id == item.device.id
    ensures x == item
  {
    assert x in seen + [item] && item in seen + [item];
  }

  lemma CanonicalStep(
    seen: seq<PeerItem>, item: PeerItem, current: Option<string>, now: u64, selected: seq<Entry>, at: nat,
    canonical: map<string, string>)
    requires IsCanonical(seen, current, now, selected, canonical) && IsPeer(item, current)
    requires DistinctIds(seen + [item])
    requires forall i, j :: 0 <= i < j < |selected| ==> selected[i].key != selected[j].key
    requires at < |selected| && selected[at].key == DedupKey(item)
    ensures IsCanonical(seen + [item], current, now, selected,
                        if item.device.id == selected[at].item.device.id || IsAvailable(selected[at].item, now)
                        then canonical[item.device.id := selected[at].item.device.id]
                        else canonical)
  {
    hide DedupKey, IsPeer, IsAvailable, DistinctIds;
    var winner := selected[at].item;
    var moves := item.device.id == winner.device.id || IsAvailable(winner, now);
    var after := if moves then canonical[item.device.id := winner.device.id] else canonical;
    forall e | e in selected && e.key == DedupKey(item) ensures e == selected[at] {
    }
    forall x | x in seen && x.device.id == item.device.id ensures x == item {
      SameId(seen, item, x);
    }
    assert !moves ==> item.device.id !in canonical;
    forall id | id in after ensures exists x <- seen + [item] :: IsPeer(x, current) && x.device.id == id {
      if id in canonical {
        var x :| x in seen && IsPeer(x, current) && x.device.id == id;
        assert x in seen + [item];
      } else {
        assert item in seen + [item];
      }
    }
  }

  lemma CanonicalSkip(
    seen: seq<PeerItem>, item: PeerItem, current: Option<string>, now: u64, selected: seq<Entry>,
    canonical: map<string, string>)
    requires IsCanonical(seen, current, now, selected, canonical) && !IsPeer(item, current)
    ensures IsCanonical(seen + [item], current, now, selected, canonical)
  {
    hide DedupKey, IsPeer, IsAvailable;
    forall id | id in canonical ensures exists x <- seen + [item] :: IsPeer(x, current) && x.device.id == id {
      var x :| x in seen && IsPeer(x, current) && x.device.id == id;
      assert x in seen + [item];
    }
  }

  /** The second loop of `build_peer_state_index`. */
  method CanonicalIds(current: Option<string>, items: seq<PeerItem>, now: u64, selected: seq<Entry>)
    returns (canonical: map<string, string>)
    requires DistinctIds(items) && IsSelection(items, current, now, selected)
    ensures IsCanonical(items, current, now, selected, canonical)
  {
    hide DedupKey, IsPeer, IsBetter, IsAvailable, IsWinner;
    canonical := map[];
    assert IsCanonical(items[..0], current, now, selected, canonical);
    hide IsCanonical;
    for n := 0 to |items|
      invariant IsCanonical(items[..n], current, now, selected, canonical)
    {
      var item := items[n];
      assert items[..n + 1] == items[..n] + [item];
      if IsPeer(item, current) {
        var at := FindKey(selected, DedupKey(item));
        assert at.Some?;
        var winner := selected[at.value].item;
        CanonicalStep(items[..n], item, current, now, selected, at.value, canonical);
        if item.device.id == winner.device.id || IsAvailable(winner, now) {
          canonical := canonical[item.device.id := winner.device.id];
        }
      } else {
        CanonicalSkip(items[..n], item, current, now, selected, canonical);
      }
    }
    assert items[..|items|] == items;
  }

  /** `build_peer_state_index`: the devices shown, and the device that each id stands for. */
  method BuildPeerStateIndex(current: Option<string>, items: seq<PeerItem>, now: u64)
    returns (selected: seq<Entry>, canonical: map<string, string>)
    requires DistinctIds(items)
    ensures IsSelection(items, current, now, selected) && ShowsPreferred(items, current, now, selected)
    ensures IsCanonical(items, current, now, selected, canonical)
  {
    selected := SelectPeers(current, items, now);
    canonical := CanonicalIds(current, items, now, selected);
  }

  // ---- Layouts ----

  datatype Layout = Layout(left: Option<string>, right: Option<string>, top: Option<string>, bottom: Option<string>)

  function CanonicalTarget(
    target: Option<string>, current: Option<string>, canonical: map<string, string>): Option<string>
  {
    if target.None? || target == current || target.value !in canonical then target
    else Some(canonical[target.value])
  }

  function CanonicalLayout(layout: Layout, current: Option<string>, canonical: map<string, string>): Layout {
    Layout(
      CanonicalTarget(layout.left, current, canonical),
      CanonicalTarget(layout.right, current, canonical),
      CanonicalTarget(layout.top, current, canonical),
      CanonicalTarget(layout.bottom, current, canonical))
  }

  method CanonicalizeTargets(layout: Layout, current: Option<string>, canonical: map<string, string>)
    returns (r: Layout)
    ensures r == CanonicalLayout(layout, current, canonical)
    ensures r.left == CanonicalTarget(layout.left, current, canonical)
    ensures r.right == CanonicalTarget(layout.right, current, canonical)
    ensures r.top == CanonicalTarget(layout.top, current, canonical)
    ensures r.bottom == CanonicalTarget(layout.bottom, current, canonical)
  {
    r := layout;
    r := r.(left := CanonicalTarget(r.left, current, canonical));
    r := r.(right := CanonicalTarget(r.right, current, canonical));
    r := r.(top := CanonicalTarget(r.top, current, canonical));
    r := r.(bottom := CanonicalTarget(r.bottom, current, canonical));
  }

  ghost predicate IsIndex(
    items: seq<PeerItem>, current: Option<string>, now: u64, selected: seq<Entry>, canonical: map<string, string>)
  {
    && DistinctIds(items)
    && IsSelection(items, current, now, selected)
    && IsCanonical(items, current, now, selected, canonical)
  }

  /** A slot holding a peer moves to the winner of that peer's own key, and only if the winner can be reached. */
  lemma TargetFollowsWinner(
    items: seq<PeerItem>, current: Option<string>, now: u64, selected: seq<Entry>, canonical: map<string, string>,
    x: PeerItem, w: PeerItem)
    requires IsIndex(items, current, now, selected, canonical)
    requires x in items && IsPeer(x, current)
    requires IsWinner(items, current, now, w) && DedupKey(w) == DedupKey(x)
    ensures CanonicalTarget(Some(x.device.id), current, canonical)
         == Some(if IsAvailable(w, now) then w.device.id else x.device.id)
  {
    hide DedupKey, IsAvailable, IsBetter;
    var e :| e in selected && e.key == DedupKey(x);
    if e.item != w {
      assert IsWinner(items, current, now, e.item);
      hide IsPeer;
      WinnerIsGreatest(items, current, now, w, e.item);
    }
  }

  /** A slot that holds one of the other machines moves if the record shown of it is online or reachable by relay. */
  lemma SlotMovesExactly(
    items: seq<PeerItem>, current: Option<string>, now: u64, selected: seq<Entry>, canonical: map<string, string>,
    x: PeerItem, w: PeerItem)
    requires IsIndex(items, current, now, selected, canonical)
    requires x in items && IsOther(x, current)
    requires IsWinner(items, current, now, w) && DedupKey(w) == DedupKey(x)
    ensures CanonicalTarget(Some(x.device.id), current, canonical)
         == Some(if ShowsOnline(w, now) || ShowsRelay(w) then w.device.id else x.device.id)
  {
    hide DedupKey, IsBetter, IsWinner, IsIndex, CanonicalTarget;
    TargetFollowsWinner(items, current, now, selected, canonical, x, w);
  }

  /** A slot that holds no peer (an unknown, disabled or own id) stays as it is. */
  lemma OtherTargetsStay(
    items: seq<PeerItem>, current: Option<string>, now: u64, selected: seq<Entry>, canonical: map<string, string>,
    target: Option<string>)
    requires IsIndex(items, current, now, selected, canonical)
    requires forall x <- items :: IsPeer(x, current) ==> Some(x.device.id) != target
    ensures CanonicalTarget(target, current, canonical) == target
  {
    hide DedupKey, IsAvailable, IsWinner, IsPeer;
  }

  lemma WinnerOf(
    items: seq<PeerItem>, current: Option<string>, now: u64, selected: seq<Entry>, x: PeerItem)
    returns (w: PeerItem)
    requires IsSelection(items, current, now, selected) && x in items && IsPeer(x, current)
    ensures IsWinner(items, current, now, w) && DedupKey(w) == DedupKey(x)
  {
    hide DedupKey, IsWinner;
    var e :| e in selected && e.key == DedupKey(x);
    w := e.item;
  }

  lemma CanonicalTargetIsStable(
    items: seq<PeerItem>, current: Option<string>, now: u64, selected: seq<Entry>, canonical: map<string, string>,
    target: Option<string>)
    requires IsIndex(items, current, now, selected, canonical)
    ensures CanonicalTarget(CanonicalTarget(target, current, canonical), current, canonical)
         == CanonicalTarget(target, current, canonical)
  {
    hide DedupKey, IsAvailable, IsBetter, IsCanonical, IsSelection, DistinctIds;
    if x :| x in items && IsPeer(x, current) && Some(x.device.id) == target {
      var w := WinnerOf(items, current, now, selected, x);
      TargetFollowsWinner(items, current, now, selected, canonical, x, w);
      TargetFollowsWinner(items, current, now, selected, canonical, w, w);
    } else {
      OtherTargetsStay(items, current, now, selected, canonical, target);
    }
  }

  lemma CanonicalLayoutIsStable(
    layout: Layout, items: seq<PeerItem>, current: Option<string>, now: u64, selected: seq<Entry>,
    canonical: map<string, string>)
    requires IsIndex(items, current, now, selected, canonical)
    ensures CanonicalLayout(CanonicalLayout(layout, current, canonical), current, canonical)
         == CanonicalLayout(layout, current, canonical)
  {
    hide IsIndex, CanonicalTarget;
    CanonicalTargetIsStable(items, current, now, selected, canonical, layout.left);
    CanonicalTargetIsStable(items, current, now, selected, canonical, layout.right);
    CanonicalTargetIsStable(items, current, now, selected, canonical, layout.top);
    CanonicalTargetIsStable(items, current, now, selected, canonical, layout.bottom);
  }

  /** Two slots of different peers come to hold one device exactly when the peers share a reachable winner. */
  lemma SlotsMergeExactly(
    items: seq<PeerItem>, current: Option<string>, now: u64, selected: seq<Entry>, canonical: map<string, string>,
    x: PeerItem, y: PeerItem, w: PeerItem)
    requires IsIndex(items, current, now, selected, canonical)
    requires x in items && y in items && IsPeer(x, current) && IsPeer(y, current) && x != y
    requires IsWinner(items, current, now, w) && DedupKey(w) == DedupKey(x)
    ensures CanonicalTarget(Some(x.device.id), current, canonical)
         == CanonicalTarget(Some(y.device.id), current, canonical)
       <==> DedupKey(y) == DedupKey(x) && IsAvailable(w, now)
  {
    hide DedupKey, IsAvailable, IsBetter, IsCanonical, IsSelection, CanonicalTarget;
    var v := WinnerOf(items, current, now, selected, y);
    TargetFollowsWinner(items, current, now, selected, canonical, x, w);
    TargetFollowsWinner(items, current, now, selected, canonical, y, v);
    if DedupKey(x) == DedupKey(y) {
      TargetFollowsWinner(items, current, now, selected, canonical, y, w);
    }
  }
}
