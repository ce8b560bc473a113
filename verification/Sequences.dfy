/** Taking sequences apart at a separator or behind a known beginning. */
module Sequences {
  lemma CommonPrefix<T>(prefix: seq<T>, a: seq<T>, b: seq<T>)
    ensures prefix + a == prefix + b <==> a == b
  {
    assert (prefix + a)[|prefix|..] == a && (prefix + b)[|prefix|..] == b;
  }

  lemma PartsAround<T>(c: T, a: seq<T>, r: seq<T>, s: seq<T>)
    requires s == a + [c] + r
    ensures s[|a|] == c && a == s[..|a|] && r == s[|a| + 1..]
    ensures c !in a ==> forall i :: 0 <= i < |a| ==> s[i] != c
    ensures c !in r ==> forall i :: |a| < i < |s| ==> s[i] != c
  {
    assert forall i :: 0 <= i < |a| ==> s[i] == a[i];
    assert forall i :: |a| < i < |s| ==> s[i] == r[i - |a| - 1];
  }

  lemma SplitAtFirst<T>(c: T, a: seq<T>, r: seq<T>, b: seq<T>, t: seq<T>)
    requires c !in a && c !in b && a + [c] + r == b + [c] + t
    ensures a == b && r == t
  {
    var s := a + [c] + r;
    PartsAround(c, a, r, s);
    PartsAround(c, b, t, s);
    assert |a| == |b|;
  }

  lemma SplitAtLast<T>(c: T, a: seq<T>, r: seq<T>, b: seq<T>, t: seq<T>)
    requires c !in r && c !in t && a + [c] + r == b + [c] + t
    ensures a == b && r == t
  {
    var s := a + [c] + r;
    PartsAround(c, a, r, s);
    PartsAround(c, b, t, s);
    assert |a| == |b|;
  }

  /** Parts of equal length are told apart by length alone. */
  lemma SplitAtLength<T>(a: seq<T>, r: seq<T>, b: seq<T>, t: seq<T>)
    requires |a| == |b| && a + r == b + t
    ensures a == b && r == t
  {
    assert a == (a + r)[..|a|] && b == (b + t)[..|b|];
    assert r == (a + r)[|a|..] && t == (b + t)[|b|..];
  }
}
