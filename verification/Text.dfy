/**
 Strings. A Dafny `char` is a Unicode scalar value, so `string` is what a Rust
 `str` holds; its bytes are given by the UTF-8 codec of section 3 of RFC 3629.
 */
module Text {
  import opened Bytes
  import opened Wrappers

  function EncodeChar(c: char): (r: Bytes)
    ensures 1 <= |r| <= 4
  {
    var n := c as int;
    if n < 0x80 then [n]
    else if n < 0x800 then [0xC0 + n / 0x40, 0x80 + n % 0x40]
    else if n < 0x1_0000 then [0xE0 + n / 0x1000, 0x80 + n / 0x40 % 0x40, 0x80 + n % 0x40]
    else [0xF0 + n / 0x4_0000, 0x80 + n / 0x1000 % 0x40, 0x80 + n / 0x40 % 0x40, 0x80 + n % 0x40]
  }

  function Utf8(text: string): (r: Bytes)
    ensures |text| <= |r|
  {
    if text == [] then [] else EncodeChar(text[0]) + Utf8(text[1..])
  }

  predicate IsContinuation(b: byte) {
    0x80 <= b < 0xC0
  }

  predicate IsScalar(n: int) {
    0 <= n < 0xD800 || 0xE000 <= n <= 0x10_FFFF
  }

  /** The first character of `s` and the bytes it takes; rejects overlong forms and surrogates. */
  function DecodeChar(s: Bytes): (r: Option<(char, nat)>)
    ensures r.Some? ==> 1 <= r.value.1 <= |s|
  {
    if |s| == 0 then None
    else if s[0] < 0x80 then Some((s[0] as char, 1))
    else if 0xC0 <= s[0] < 0xE0 then
      if |s| < 2 || !IsContinuation(s[1]) then None
      else
        var n: int := (s[0] as int - 0xC0) * 0x40 + (s[1] as int - 0x80);
        if n < 0x80 then None else Some((n as char, 2))
    else if 0xE0 <= s[0] < 0xF0 then
      if |s| < 3 || !IsContinuation(s[1]) || !IsContinuation(s[2]) then None
      else
        var n: int := (s[0] as int - 0xE0) * 0x1000 + (s[1] as int - 0x80) * 0x40 + (s[2] as int - 0x80);
        if n < 0x800 || !IsScalar(n) then None else Some((n as char, 3))
    else if 0xF0 <= s[0] < 0xF8 then
      if |s| < 4 || !IsContinuation(s[1]) || !IsContinuation(s[2]) || !IsContinuation(s[3]) then None
      else
        var n: int := (s[0] as int - 0xF0) * 0x4_0000 + (s[1] as int - 0x80) * 0x1000
                      + (s[2] as int - 0x80) * 0x40 + (s[3] as int - 0x80);
        if n < 0x1_0000 || !IsScalar(n) then None else Some((n as char, 4))
    else None
  }

  /** `core::str::from_utf8`. */
  function FromUtf8(s: Bytes): Option<string>
  {
    if s == [] then Some([])
    else
      match DecodeChar(s)
      case None => None
      case Some((c, used)) =>
        match FromUtf8(s[used..])
        case None => None
        case Some(rest) => Some([c] + rest)
  }

  lemma SixBitGroups(n: nat)
    ensures n == n / 0x40 * 0x40 + n % 0x40
    ensures n / 0x40 == n / 0x1000 * 0x40 + n / 0x40 % 0x40
    ensures n / 0x1000 == n / 0x4_0000 * 0x40 + n / 0x1000 % 0x40
  {
    assert n / 0x1000 == n / 0x40 / 0x40;
    assert n / 0x4_0000 == n / 0x1000 / 0x40;
  }

  lemma DecodeOfEncodeChar(c: char, rest: Bytes)
    ensures DecodeChar(EncodeChar(c) + rest) == Some((c, |EncodeChar(c)|))
  {
    var n, e := c as int, EncodeChar(c);
    var s := e + rest;
    SixBitGroups(n);
    assert s[0] == e[0];
    if n < 0x80 {
    } else if n < 0x800 {
      assert s[1] == e[1];
    } else if n < 0x1_0000 {
      assert s[1] == e[1] && s[2] == e[2];
    } else {
      assert s[1] == e[1] && s[2] == e[2] && s[3] == e[3];
    }
  }

  lemma SixBitDigits(a: nat, b: nat, c: nat, d: nat)
    requires b < 0x40 && c < 0x40 && d < 0x40
    ensures var n := a * 0x4_0000 + b * 0x1000 + c * 0x40 + d;
            n / 0x4_0000 == a && n / 0x1000 % 0x40 == b && n / 0x40 % 0x40 == c && n % 0x40 == d
    ensures var n := b * 0x1000 + c * 0x40 + d;
            n / 0x1000 == b && n / 0x40 % 0x40 == c && n % 0x40 == d
    ensures var n := c * 0x40 + d;
            n / 0x40 == c && n % 0x40 == d
  {
    SixBitGroups(a * 0x4_0000 + b * 0x1000 + c * 0x40 + d);
    SixBitGroups(b * 0x1000 + c * 0x40 + d);
  }

  lemma EncodeTwo(a: nat, b: nat)
    requires a < 0x20 && b < 0x40 && a * 0x40 + b >= 0x80
    ensures EncodeChar((a * 0x40 + b) as char) == [0xC0 + a, 0x80 + b]
  {
    SixBitDigits(0, 0, a, b);
  }

  lemma EncodeThree(a: nat, b: nat, c: nat)
    requires a < 0x10 && b < 0x40 && c < 0x40
    requires var n := a * 0x1000 + b * 0x40 + c; n >= 0x800 && IsScalar(n)
    ensures EncodeChar((a * 0x1000 + b * 0x40 + c) as char) == [0xE0 + a, 0x80 + b, 0x80 + c]
  {
    SixBitDigits(0, a, b, c);
  }

  lemma EncodeFour(a: nat, b: nat, c: nat, d: nat)
    requires a < 8 && b < 0x40 && c < 0x40 && d < 0x40
    requires var n := a * 0x4_0000 + b * 0x1000 + c * 0x40 + d; n >= 0x1_0000 && IsScalar(n)
    ensures EncodeChar((a * 0x4_0000 + b * 0x1000 + c * 0x40 + d) as char)
         == [0xF0 + a, 0x80 + b, 0x80 + c, 0x80 + d]
  {
    SixBitDigits(a, b, c, d);
  }

  lemma EncodeOfDecodeChar(s: Bytes)
    requires DecodeChar(s).Some?
    ensures EncodeChar(DecodeChar(s).value.0) == s[..DecodeChar(s).value.1]
  {
    if s[0] < 0x80 {
    } else if s[0] < 0xE0 {
      EncodeTwo(s[0] - 0xC0, s[1] - 0x80);
      hide EncodeChar;
    } else if s[0] < 0xF0 {
      EncodeThree(s[0] - 0xE0, s[1] - 0x80, s[2] - 0x80);
      hide EncodeChar;
    } else {
      EncodeFour(s[0] as int - 0xF0, s[1] - 0x80, s[2] - 0x80, s[3] - 0x80);
      hide EncodeChar;
    }
  }

  lemma {:induction false} FromUtf8OfUtf8(text: string)
    ensures FromUtf8(Utf8(text)) == Some(text)
  {
    hide EncodeChar, DecodeChar;
    if text != [] {
      var first, rest: Bytes := EncodeChar(text[0]), Utf8(text[1..]);
      DecodeOfEncodeChar(text[0], rest);
      assert (first + rest)[|first|..] == rest;
      FromUtf8OfUtf8(text[1..]);
      assert Utf8(text) == first + rest;
      assert text == [text[0]] + text[1..];
    }
  }

  lemma {:induction false} Utf8OfFromUtf8(s: Bytes)
    requires FromUtf8(s).Some?
    ensures Utf8(FromUtf8(s).value) == s
  {
    hide EncodeChar, DecodeChar;
    if s != [] {
      EncodeOfDecodeChar(s);
      var used := DecodeChar(s).value.1;
      Utf8OfFromUtf8(s[used..]);
      var text := FromUtf8(s).value;
      assert text[1..] == FromUtf8(s[used..]).value;
      assert s == s[..used] + s[used..];
    }
  }

  lemma Utf8OfCons(c: char, rest: string)
    ensures Utf8([c] + rest) == EncodeChar(c) + Utf8(rest)
  {
    hide EncodeChar;
    assert ([c] + rest)[1..] == rest;
  }

  lemma {:induction false} Utf8OfConcat(a: string, b: string)
    ensures Utf8(a + b) == Utf8(a) + Utf8(b)
  {
    hide EncodeChar;
    assert Utf8([]) == [];
    hide Utf8;
    if a == [] {
      assert a + b == b;
    } else {
      var c, rest := a[0], a[1..];
      Utf8OfConcat(rest, b);
      Utf8OfCons(c, rest);
      Utf8OfCons(c, rest + b);
      assert a == [c] + rest && a + b == [c] + (rest + b);
    }
  }

  lemma Utf8OfSlice(s: string, i: nat, j: nat)
    requires i <= j <= |s|
    ensures |Utf8(s[i..j])| <= |Utf8(s)|
  {
    hide Utf8;
    assert s == s[..i] + (s[i..j] + s[j..]);
    Utf8OfConcat(s[..i], s[i..j] + s[j..]);
    Utf8OfConcat(s[i..j], s[j..]);
  }

  lemma {:induction false} Utf8NotLonger(text: string)
    ensures |Utf8(text)| <= 4 * |text|
  {
    hide EncodeChar;
    if text != [] {
      Utf8NotLonger(text[1..]);
    }
  }

  // ---- Trimming and case ----

  /** The characters with the Unicode property White_Space. */
  predicate IsWhitespace(c: char) {
    var n := c as int;
    9 <= n <= 13 || n == 0x20 || n == 0x85 || n == 0xA0 || n == 0x1680 || 0x2000 <= n <= 0x200A
    || n == 0x2028 || n == 0x2029 || n == 0x202F || n == 0x205F || n == 0x3000
  }

  function TrimStart(s: string): string
  {
    if s != [] && IsWhitespace(s[0]) then TrimStart(s[1..]) else s
  }

  function TrimEnd(s: string): string
  {
    if s != [] && IsWhitespace(s[|s| - 1]) then TrimEnd(s[..|s| - 1]) else s
  }

  /** Rust's `str::trim`. */
  function Trim(s: string): string
  {
    TrimEnd(TrimStart(s))
  }

  function LowerChar(c: char): char
  {
    if 'A' <= c <= 'Z' then c + ' ' else c
  }

  /** Rust's `str::to_ascii_lowercase`. */
  function AsciiLower(s: string): (r: string)
    ensures |r| == |s|
  {
    seq(|s|, i requires 0 <= i < |s| => LowerChar(s[i]))
  }

  /** `value.trim().to_ascii_lowercase()`. */
  function Normalize(s: string): string
  {
    AsciiLower(Trim(s))
  }

  /** The order Rust gives to strings: lexicographic on code points. */
  predicate LexLess(a: string, b: string)
  {
    b != [] && (a == [] || a[0] < b[0] || (a[0] == b[0] && LexLess(a[1..], b[1..])))
  }

  lemma {:induction false} LexIrreflexive(a: string)
    ensures !LexLess(a, a)
  {
    if a != [] {
      LexIrreflexive(a[1..]);
    }
  }

  lemma {:induction false} LexTotal(a: string, b: string)
    ensures LexLess(a, b) || LexLess(b, a) || a == b
  {
    if a != [] && b != [] && a[0] == b[0] {
      LexTotal(a[1..], b[1..]);
      assert a == [a[0]] + a[1..] && b == [b[0]] + b[1..];
    }
  }

  lemma {:induction false} LexTransitive(a: string, b: string, c: string)
    requires LexLess(a, b) && LexLess(b, c)
    ensures LexLess(a, c)
  {
    if a != [] && a[0] == b[0] == c[0] {
      LexTransitive(a[1..], b[1..], c[1..]);
    }
  }

  // ---- What trimming, case and order mean ----

  /** The 25 white-space characters of Unicode. */
  lemma WhitespaceExactly(c: char)
    ensures IsWhitespace(c)
       <==> c as int in [0x09, 0x0A, 0x0B, 0x0C, 0x0D, 0x20, 0x85, 0xA0, 0x1680, 0x2000, 0x2001, 0x2002, 0x2003, 0x2004,
                         0x2005, 0x2006, 0x2007, 0x2008, 0x2009, 0x200A, 0x2028, 0x2029, 0x202F, 0x205F, 0x3000]
  {
  }

  predicate IsBlank(s: string) {
    forall c <- s :: IsWhitespace(c)
  }

  lemma {:induction false} TrimStartTakes(s: string) returns (head: string)
    ensures s == head + TrimStart(s) && IsBlank(head)
    ensures TrimStart(s) != [] ==> !IsWhitespace(TrimStart(s)[0])
  {
    hide IsWhitespace;
    if s != [] && IsWhitespace(s[0]) {
      var rest := TrimStartTakes(s[1..]);
      head := [s[0]] + rest;
      assert s == [s[0]] + s[1..];
    } else {
      head := [];
    }
  }

  lemma {:induction false} TrimEndTakes(s: string) returns (tail: string)
    ensures s == TrimEnd(s) + tail && IsBlank(tail)
    ensures TrimEnd(s) != [] ==> !IsWhitespace(TrimEnd(s)[|TrimEnd(s)| - 1]) && TrimEnd(s)[0] == s[0]
  {
    hide IsWhitespace;
    if s != [] && IsWhitespace(s[|s| - 1]) {
      var rest := TrimEndTakes(s[..|s| - 1]);
      tail := rest + [s[|s| - 1]];
      assert s == s[..|s| - 1] + [s[|s| - 1]];
    } else {
      tail := [];
    }
  }

  /** Trimming takes the white space at both ends, all of it and nothing else. */
  lemma TrimTakes(s: string) returns (head: string, tail: string)
    ensures s == head + Trim(s) + tail && IsBlank(head) && IsBlank(tail)
    ensures Trim(s) != [] ==> !IsWhitespace(Trim(s)[0]) && !IsWhitespace(Trim(s)[|Trim(s)| - 1])
  {
    hide IsWhitespace, TrimStart, TrimEnd, IsBlank;
    head := TrimStartTakes(s);
    tail := TrimEndTakes(TrimStart(s));
    assert head + TrimEnd(TrimStart(s)) + tail == head + (TrimEnd(TrimStart(s)) + tail);
  }

  lemma {:induction false} TrimStartOfBlank(head: string, s: string)
    requires IsBlank(head)
    ensures TrimStart(head + s) == TrimStart(s)
  {
    hide IsWhitespace;
    if head == [] {
      assert head + s == s;
    } else {
      assert (head + s)[1..] == head[1..] + s;
      assert head[0] in head;
      TrimStartOfBlank(head[1..], s);
    }
  }

  lemma {:induction false} TrimEndOfBlank(s: string, tail: string)
    requires IsBlank(tail)
    ensures TrimEnd(s + tail) == TrimEnd(s)
  {
    hide IsWhitespace;
    if tail == [] {
      assert s + tail == s;
    } else {
      assert (s + tail)[..|s + tail| - 1] == s + tail[..|tail| - 1];
      assert tail[|tail| - 1] in tail;
      TrimEndOfBlank(s, tail[..|tail| - 1]);
    }
  }

  lemma {:induction false} TrimStartOfLonger(s: string, tail: string)
    requires TrimStart(s) != []
    ensures TrimStart(s + tail) == TrimStart(s) + tail
  {
    hide IsWhitespace;
    if IsWhitespace(s[0]) {
      assert (s + tail)[1..] == s[1..] + tail;
      TrimStartOfLonger(s[1..], tail);
    }
  }

  /** Blanks around a text do not matter once it is trimmed or normalised. */
  lemma BlanksAroundDoNotMatter(head: string, s: string, tail: string)
    requires IsBlank(head) && IsBlank(tail)
    ensures Trim(head + s + tail) == Trim(s) && Normalize(head + s + tail) == Normalize(s)
  {
    assert head + s + tail == head + (s + tail);
    TrimStartOfBlank(head, s + tail);
    if TrimStart(s) == [] {
      var blank := TrimStartTakes(s);
      assert s == blank;
      TrimStartOfBlank(s, tail);
      TrimStartOfBlank(tail, []);
      assert tail + [] == tail;
    } else {
      TrimStartOfLonger(s, tail);
      TrimEndOfBlank(TrimStart(s), tail);
    }
    hide IsWhitespace, TrimStart, TrimEnd;
  }

  /** Of the characters only the 26 letters of ASCII change. */
  lemma LowerExactly(s: string, i: nat)
    requires i < |s|
    ensures var upper, lower := "ABCDEFGHIJKLMNOPQRSTUVWXYZ", "abcdefghijklmnopqrstuvwxyz";
            if s[i] in upper then exists k :: 0 <= k < 26 && upper[k] == s[i] && lower[k] == AsciiLower(s)[i]
            else AsciiLower(s)[i] == s[i]
  {
    var upper, lower := "ABCDEFGHIJKLMNOPQRSTUVWXYZ", "abcdefghijklmnopqrstuvwxyz";
    assert forall k :: 0 <= k < 26 ==> upper[k] == (65 + k) as char && lower[k] == (97 + k) as char;
    if 'A' <= s[i] <= 'Z' {
      var k := s[i] as int - 65;
      assert upper[k] == s[i];
    }
  }

  /** `a` comes first: where the two first differ it has the lower character, or it ends there. */
  predicate ComesFirst(a: string, b: string, n: nat) {
    n <= |a| && n < |b| && a[..n] == b[..n] && (n < |a| ==> a[n] < b[n])
  }

  lemma ComesFirstStep(a: string, b: string, n: nat)
    requires a != [] && b != [] && a[0] == b[0]
    ensures ComesFirst(a[1..], b[1..], n) <==> ComesFirst(a, b, n + 1)
    ensures !ComesFirst(a, b, 0)
  {
    if n < |a| && n < |b| {
      assert a[..n + 1] == [a[0]] + a[1..][..n] && b[..n + 1] == [b[0]] + b[1..][..n];
      assert a[1..][..n] == a[..n + 1][1..] && b[1..][..n] == b[..n + 1][1..];
    }
  }

  lemma ComesFirstAgrees(a: string, b: string, n: nat)
    ensures ComesFirst(a, b, n) && n > 0 ==> a != [] && b != [] && a[0] == b[0]
  {
    if ComesFirst(a, b, n) && n > 0 {
      assert a[..n][0] == b[..n][0];
    }
  }

  lemma {:induction false} LexLessExactly(a: string, b: string)
    ensures LexLess(a, b) <==> exists n: nat :: ComesFirst(a, b, n)
  {
    if a != [] && b != [] && a[0] == b[0] {
      LexLessExactly(a[1..], b[1..]);
      ComesFirstStep(a, b, 0);
      if n: nat :| ComesFirst(a[1..], b[1..], n) {
        ComesFirstStep(a, b, n);
      }
      if n: nat :| ComesFirst(a, b, n) {
        ComesFirstStep(a, b, n - 1);
      }
    } else {
      assert b != [] && LexLess(a, b) ==> ComesFirst(a, b, 0);
      forall n: nat {
        ComesFirstAgrees(a, b, n);
      }
    }
  }
}
