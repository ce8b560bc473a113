/**
 The address list in a peer's key (crates/kmsync/src/desktop_state.rs): sorted and
 freed of repeats, it depends on the set of addresses alone.
 */
module LanAddresses {
  import opened Text

  function InsertSorted(sorted: seq<string>, s: string): seq<string> {
    if sorted == [] || LexLess(s, sorted[0]) then [s] + sorted else [sorted[0]] + InsertSorted(sorted[1..], s)
  }

  function Sorted(ips: seq<string>): seq<string> {
    if ips == [] then [] else InsertSorted(Sorted(ips[..|ips| - 1]), ips[|ips| - 1])
  }

  /** `Vec::dedup`: drops repeats of the element before. */
  function Deduped(ips: seq<string>): seq<string> {
    if |ips| <= 1 then ips
    else if ips[0] == ips[1] then Deduped(ips[1..])
    else [ips[0]] + Deduped(ips[1..])
  }

  predicate IsSorted(s: seq<string>) {
    s == [] || ((forall x <- s[1..] :: !LexLess(x, s[0])) && IsSorted(s[1..]))
  }

  predicate IsStrict(s: seq<string>) {
    s == [] || ((forall x <- s[1..] :: LexLess(s[0], x)) && IsStrict(s[1..]))
  }

  ghost predicate SameElements(a: seq<string>, b: seq<string>) {
    forall x :: x in a <==> x in b
  }

  lemma LexAsymmetric(a: string, b: string)
    ensures !(LexLess(a, b) && LexLess(b, a))
  {
    LexIrreflexive(a);
    if LexLess(a, b) && LexLess(b, a) {
      LexTransitive(a, b, a);
    }
  }

  lemma {:induction false} InsertKeepsSorted(sorted: seq<string>, s: string)
    requires IsSorted(sorted)
    ensures IsSorted(InsertSorted(sorted, s)) && SameElements(InsertSorted(sorted, s), sorted + [s])
  {
    hide LexLess;
    if sorted == [] {
    } else if LexLess(s, sorted[0]) {
      forall x | x in sorted ensures !LexLess(x, s) {
        LexAsymmetric(sorted[0], s);
        if LexLess(x, s) {
          LexTransitive(x, s, sorted[0]);
        }
      }
      assert ([s] + sorted)[1..] == sorted;
    } else {
      InsertKeepsSorted(sorted[1..], s);
      var rest := InsertSorted(sorted[1..], s);
      assert ([sorted[0]] + rest)[1..] == rest;
      assert sorted == [sorted[0]] + sorted[1..];
    }
  }

  lemma {:induction false} SortedSorts(ips: seq<string>)
    ensures IsSorted(Sorted(ips)) && SameElements(Sorted(ips), ips)
  {
    hide LexLess;
    if ips != [] {
      SortedSorts(ips[..|ips| - 1]);
      InsertKeepsSorted(Sorted(ips[..|ips| - 1]), ips[|ips| - 1]);
      assert ips == ips[..|ips| - 1] + [ips[|ips| - 1]];
    }
  }

  lemma {:induction false} DedupedIsStrict(s: seq<string>)
    requires IsSorted(s)
    ensures IsStrict(Deduped(s)) && SameElements(Deduped(s), s)
  {
    hide LexLess;
    if |s| > 1 {
      var first, rest := s[0], s[1..];
      assert s == [first] + rest;
      DedupedIsStrict(rest);
      if first != rest[0] {
        forall x | x in rest ensures LexLess(first, x) {
          LexTotal(first, x);
          LexTotal(first, rest[0]);
          assert x == rest[0] || x in rest[1..];
        }
        assert ([first] + Deduped(rest))[1..] == Deduped(rest);
      }
    }
  }

  lemma StrictHeads(a: seq<string>, b: seq<string>)
    requires IsStrict(a) && IsStrict(b) && SameElements(a, b) && a != [] && b != []
    ensures a[0] == b[0] && SameElements(a[1..], b[1..])
  {
    hide LexLess;
    LexAsymmetric(a[0], b[0]);
    assert a[0] in b && b[0] in a;
    assert a == [a[0]] + a[1..] && b == [b[0]] + b[1..];
    LexIrreflexive(a[0]);
    forall x ensures x in a[1..] <==> x in b[1..] {
      assert x in a <==> x in b;
    }
  }

  lemma {:induction false} StrictIsUnique(a: seq<string>, b: seq<string>)
    requires IsStrict(a) && IsStrict(b) && SameElements(a, b)
    ensures a == b
  {
    hide LexLess;
    assert (a != [] ==> a[0] in a) && (b != [] ==> b[0] in b);
    if a != [] {
      StrictHeads(a, b);
      StrictIsUnique(a[1..], b[1..]);
      assert a == [a[0]] + a[1..] && b == [b[0]] + b[1..];
    }
  }

  /** Two address lists give one key part exactly when they hold the same addresses, in whatever order and number. */
  lemma AddressesMatchExactly(a: seq<string>, b: seq<string>)
    ensures Deduped(Sorted(a)) == Deduped(Sorted(b)) <==> SameElements(a, b)
  {
    SortedSorts(a);
    SortedSorts(b);
    DedupedIsStrict(Sorted(a));
    DedupedIsStrict(Sorted(b));
    hide Sorted, Deduped, IsSorted, LexLess;
    if SameElements(a, b) {
      StrictIsUnique(Deduped(Sorted(a)), Deduped(Sorted(b)));
    }
  }
}
