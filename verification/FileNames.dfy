/** Sanitising of clipboard file names (crates/kmsync-core/src/protocol.rs). */
module FileNames {
  import opened Frames
  import opened Text

  predicate EndsInText(s: string) {
    s != [] && !IsWhitespace(s[|s| - 1])
  }

  lemma {:induction false} TrimStartKeepsEnd(s: string)
    ensures |TrimStart(s)| <= |s| && TrimStart(s) == s[|s| - |TrimStart(s)|..]
    ensures TrimStart(s) != [] ==> !IsWhitespace(TrimStart(s)[0])
    ensures EndsInText(s) ==> EndsInText(TrimStart(s))
  {
    hide IsWhitespace;
    if s != [] && IsWhitespace(s[0]) {
      var rest := s[1..];
      TrimStartKeepsEnd(rest);
      var n := |rest| - |TrimStart(rest)|;
      assert TrimStart(s) == TrimStart(rest);
      hide TrimStart;
      assert rest[n..] == s[n + 1..];
      assert rest != [] ==> rest[|rest| - 1] == s[|s| - 1];
    }
  }

  lemma {:induction false} TrimEndKeepsStart(s: string)
    ensures |TrimEnd(s)| <= |s| && TrimEnd(s) == s[..|TrimEnd(s)|]
    ensures TrimEnd(s) == [] || EndsInText(TrimEnd(s))
    ensures EndsInText(s) ==> TrimEnd(s) == s
  {
    hide IsWhitespace;
    if s != [] && IsWhitespace(s[|s| - 1]) {
      TrimEndKeepsStart(s[..|s| - 1]);
    }
  }

  predicate IsTrimmed(s: string) {
    s == [] || (!IsWhitespace(s[0]) && EndsInText(s))
  }

  lemma SliceOfSuffix(s: string, t: string, k: nat)
    requires |t| <= |s| && t == s[|s| - |t|..] && k <= |t|
    ensures t[..k] == s[|s| - |t|..|s| - |t| + k]
  {
  }

  lemma TrimOfTrimmed(s: string)
    requires IsTrimmed(s)
    ensures Trim(s) == s
  {
    hide IsWhitespace;
    assert TrimStart(s) == s;
  }

  lemma TrimGivesTrimmed(s: string)
    ensures IsTrimmed(Trim(s)) && |Trim(s)| <= |TrimStart(s)| <= |s|
    ensures var i := |s| - |TrimStart(s)|; Trim(s) == s[i..i + |Trim(s)|]
    ensures EndsInText(s) ==> Trim(s) == TrimStart(s) && Trim(s) != []
    ensures IsTrimmed(s) ==> Trim(s) == s
  {
    var t := TrimStart(s);
    assert Trim(s) == TrimEnd(t);
    if IsTrimmed(s) {
      TrimOfTrimmed(s);
    }
    hide IsWhitespace, Trim, TrimStart, TrimEnd;
    TrimStartKeepsEnd(s);
    TrimEndKeepsStart(t);
    assert Trim(s) != [] ==> Trim(s)[0] == t[0];
    hide IsTrimmed;
    SliceOfSuffix(s, t, |Trim(s)|);
  }

  /** A name made by sanitising: not empty, no separator, no white space at the end. */
  predicate IsBaseName(s: string) {
    EndsInText(s) && forall c <- s :: !IsSeparator(c)
  }

  lemma UnnamedIsBaseName()
    ensures IsBaseName("unnamed")
  {
    assert "unnamed"[6] == 'd';
  }

  /** The end of a text is a base name if it holds no separator. */
  lemma SuffixIsBaseName(t: string, n: nat)
    requires EndsInText(t) && n < |t| && forall c <- t[n..] :: !IsSeparator(c)
    ensures IsBaseName(t[n..])
  {
    hide IsWhitespace, IsSeparator;
  }

  lemma SanitizeGivesBaseName(name: string)
    ensures IsBaseName(SanitizeName(name))
  {
    var t := Trim(name);
    var base := AfterLastSeparator(t);
    TrimGivesTrimmed(name);
    UnnamedIsBaseName();
    hide Trim, AfterLastSeparator, IsWhitespace, IsSeparator, IsBaseName;
    if base != [] {
      SuffixIsBaseName(t, |t| - |base|);
    }
  }

  lemma SanitizeOfBaseName(s: string)
    requires IsBaseName(s)
    ensures SanitizeName(s) == TrimStart(s) && IsBaseName(SanitizeName(s)) && IsTrimmed(SanitizeName(s))
  {
    TrimGivesTrimmed(s);
    TrimStartKeepsEnd(s);
    hide Trim, TrimStart, AfterLastSeparator;
    assert forall c <- Trim(s) :: c in s;
  }

  /** Sanitising a base name twice is the same as sanitising it once. */
  lemma SanitizeFixesBaseName(name: string)
    requires IsBaseName(name)
    ensures SanitizeName(SanitizeName(name)) == SanitizeName(name)
  {
    var once := SanitizeName(name);
    SanitizeOfBaseName(name);
    SanitizeOfBaseName(once);
    TrimGivesTrimmed(once);
    hide SanitizeName, Trim, TrimStart;
  }

  /** Sanitising twice is a fixed point, for every name. */
  lemma SanitizeTwiceIsFixed(name: string)
    ensures var twice := SanitizeName(SanitizeName(name)); SanitizeName(twice) == twice
  {
    hide SanitizeName;
    SanitizeGivesBaseName(name);
    SanitizeFixesBaseName(SanitizeName(name));
  }

  predicate IsSpaceAfterSeparator(s: string, i: nat)
    requires 0 < i < |s|
  {
    IsSeparator(s[i - 1]) && IsWhitespace(s[i])
  }

  /** What follows the last separator begins with white space. */
  predicate SpaceAfterLastSeparator(s: string) {
    exists i :: 0 < i < |s| && IsSpaceAfterSeparator(s, i) && forall j :: i <= j < |s| ==> !IsSeparator(s[j])
  }

  lemma LastSeparatorStep(s: string)
    requires s != []
    ensures |AfterLastSeparator(s)|
         == if IsSeparator(s[|s| - 1]) then 0 else |AfterLastSeparator(s[..|s| - 1])| + 1
  {
    hide IsSeparator;
  }

  lemma {:induction false} LastSeparatorPlace(s: string)
    ensures var n := |s| - |AfterLastSeparator(s)|;
            n > 0 ==> IsSeparator(s[n - 1])
  {
    hide IsSeparator, AfterLastSeparator;
    if s != [] {
      LastSeparatorStep(s);
      LastSeparatorPlace(s[..|s| - 1]);
    }
  }

  /** `n` is where the last separator ends, if there is one. */
  lemma SpaceAtExactly(t: string, n: nat)
    requires n <= |t| && (n > 0 ==> IsSeparator(t[n - 1])) && forall j :: n <= j < |t| ==> !IsSeparator(t[j])
    requires t != [] ==> !IsWhitespace(t[0])
    ensures n < |t| && IsWhitespace(t[n]) <==> SpaceAfterLastSeparator(t)
  {
    hide IsSeparator, IsWhitespace;
    if SpaceAfterLastSeparator(t) {
      var i :| 0 < i < |t| && IsSpaceAfterSeparator(t, i) && forall j :: i <= j < |t| ==> !IsSeparator(t[j]);
      assert n == i;
    }
    if n < |t| && IsWhitespace(t[n]) {
      assert IsSpaceAfterSeparator(t, n);
    }
  }

  /** A suffix of `t` that begins at `n`, character by character. */
  lemma SuffixCharacters(t: string, n: nat)
    requires n <= |t| && forall c <- t[n..] :: !IsSeparator(c)
    ensures forall j :: n <= j < |t| ==> !IsSeparator(t[j])
  {
    hide IsSeparator;
    forall j | n <= j < |t| ensures !IsSeparator(t[j]) {
      assert t[n..][j - n] in t[n..];
    }
  }

  lemma BaseBeginsWithSpaceExactly(t: string)
    requires IsTrimmed(t)
    ensures var base := AfterLastSeparator(t);
            base != [] && IsWhitespace(base[0]) <==> SpaceAfterLastSeparator(t)
  {
    hide AfterLastSeparator, IsSeparator, IsWhitespace, SpaceAfterLastSeparator;
    LastSeparatorPlace(t);
    var n := |t| - |AfterLastSeparator(t)|;
    SuffixCharacters(t, n);
    SpaceAtExactly(t, n);
  }

  /** Sanitising once is a fixed point exactly when no white space follows the last separator of the trimmed name. */
  lemma SanitizeOnceFixedExactly(name: string)
    ensures SanitizeName(SanitizeName(name)) == SanitizeName(name) <==> !SpaceAfterLastSeparator(Trim(name))
  {
    TrimGivesTrimmed(name);
    BaseBeginsWithSpaceExactly(Trim(name));
    FixedByFirstCharacter(name);
    hide SpaceAfterLastSeparator, Trim;
    assert "unnamed"[0] == 'u';
  }

  lemma FixedByFirstCharacter(name: string)
    ensures var once := SanitizeName(name);
            |once| > 0 && (SanitizeName(once) == once <==> !IsWhitespace(once[0]))
  {
    var once := SanitizeName(name);
    SanitizeGivesBaseName(name);
    SanitizeOfBaseName(once);
    TrimStartKeepsEnd(once);
    if !IsWhitespace(once[0]) {
      assert TrimStart(once) == once;
    }
    hide SanitizeName, TrimStart;
  }

  /** "a/ b" needs a second pass: it becomes " b", and that becomes "b". */
  lemma SanitizeIsNotIdempotent()
    ensures SanitizeName("a/ b") == " b" && SanitizeName(" b") != " b"
  {
    var name := "a/ b";
    LastSeparatorExample();
    TrimGivesTrimmed(name);
    assert EndsInText(name) by { assert name[3] == 'b'; }
    assert IsTrimmed(name) by { assert name[0] == 'a'; }
    FixedByFirstCharacter(name);
    hide Trim, AfterLastSeparator;
    assert SanitizeName(name) == " b";
    hide SanitizeName;
    assert IsWhitespace(SanitizeName(name)[0]) by { assert " b"[0] == ' '; }
  }

  lemma LastSeparatorExample()
    ensures AfterLastSeparator("a/ b") == " b"
  {
    var s := "a/ b";
    assert s[..3][..2] == "a/";
    assert AfterLastSeparator(s[..3][..2]) == [];
    assert AfterLastSeparator(s[..3]) == [] + [' '];
    assert AfterLastSeparator(s) == [' '] + ['b'];
  }

  /** Sanitising makes a name no longer, except that a name without a base becomes "unnamed". */
  lemma SanitizedLength(name: string)
    ensures |Utf8(SanitizeName(name))| <= |Utf8(name)| || SanitizeName(name) == "unnamed"
  {
    hide Utf8;
    TrimGivesTrimmed(name);
    var base := AfterLastSeparator(Trim(name));
    var end := |name| - |TrimStart(name)| + |Trim(name)|;
    hide Trim, TrimStart, AfterLastSeparator;
    if base != [] {
      assert base == Trim(name)[|Trim(name)| - |base|..];
      assert base == name[end - |base|..end];
      Utf8OfSlice(name, end - |base|, end);
    }
  }

  lemma BaseNameLength(name: string)
    requires IsBaseName(name)
    ensures |Utf8(SanitizeName(name))| <= |Utf8(name)|
  {
    hide *;
    SanitizeOfBaseName(name);
    TrimStartKeepsEnd(name);
    var i := |name| - |TrimStart(name)|;
    Utf8OfSlice(name, i, |name|);
    assert SanitizeName(name) == name[i..|name|];
  }
}
