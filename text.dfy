/** The .NET string operations the chat core relies on, over `seq<char>`:
    `char.IsWhiteSpace`, `string.IsNullOrWhiteSpace`, `string.Trim`,
    `string.ToLower` (as ASCII folding) and ordinal `string.Contains`. */
module Text {

  /** `char.IsWhiteSpace`: the characters of the Unicode White_Space property. */
  predicate IsWhiteSpace(c: char) {
    ('\t' <= c <= '\r') || c == ' ' || c == '\U{85}' || c == '\U{A0}' || c == '\U{1680}'
    || ('\U{2000}' <= c <= '\U{200A}') || c == '\U{2028}' || c == '\U{2029}'
    || c == '\U{202F}' || c == '\U{205F}' || c == '\U{3000}'
  }

  /** Every character of `s` is white space (true of the empty string). */
  predicate AllWhiteSpace(s: string) {
    forall i | 0 <= i < |s| :: IsWhiteSpace(s[i])
  }

  // ---------------------------------------------------------------- Trim

  /** Drops the leading white space. */
  function TrimStart(s: string): string {
    if s != [] && IsWhiteSpace(s[0]) then TrimStart(s[1..]) else s
  }

  /** Drops the trailing white space. */
  function TrimEnd(s: string): string {
    if s != [] && IsWhiteSpace(s[|s| - 1]) then TrimEnd(s[..|s| - 1]) else s
  }

  /** `TrimStart` removes a white-space prefix, and what remains does not start with white space. */
  lemma {:induction false} TrimStartSpec(s: string)
    ensures |TrimStart(s)| <= |s| && TrimStart(s) == s[|s| - |TrimStart(s)|..]
    ensures AllWhiteSpace(s[..|s| - |TrimStart(s)|])
    ensures TrimStart(s) != [] ==> !IsWhiteSpace(TrimStart(s)[0])
  {
    if s != [] && IsWhiteSpace(s[0]) {
      TrimStartSpec(s[1..]);
      var r := TrimStart(s[1..]);
      assert s[1..][..|s| - 1 - |r|] == s[1..|s| - |r|];
    }
  }

  /** `TrimEnd` removes a white-space suffix, and what remains does not end with white space. */
  lemma {:induction false} TrimEndSpec(s: string)
    ensures |TrimEnd(s)| <= |s| && TrimEnd(s) == s[..|TrimEnd(s)|]
    ensures AllWhiteSpace(s[|TrimEnd(s)|..])
    ensures TrimEnd(s) != [] ==> !IsWhiteSpace(TrimEnd(s)[|TrimEnd(s)| - 1])
  {
    if s != [] && IsWhiteSpace(s[|s| - 1]) {
      TrimEndSpec(s[..|s| - 1]);
      var r := TrimEnd(s[..|s| - 1]);
      assert s[|r|..] == s[..|s| - 1][|r|..] + [s[|s| - 1]];
    }
  }

  /** `string.Trim()`: the slice of `s` left after removing white space at both ends. */
  function Trim(s: string): string {
    TrimEnd(TrimStart(s))
  }

  /** `Trim` keeps a contiguous slice of its input, cut only at white space, and
      the slice neither starts nor ends with white space. */
  lemma TrimIsSlice(s: string)
    ensures exists a, b ::
              0 <= a <= b <= |s| && Trim(s) == s[a..b] && AllWhiteSpace(s[..a]) && AllWhiteSpace(s[b..])
    ensures Trim(s) != [] ==> !IsWhiteSpace(Trim(s)[0]) && !IsWhiteSpace(Trim(s)[|Trim(s)| - 1])
  {
    var t := TrimStart(s);
    TrimStartSpec(s);
    TrimEndSpec(t);
    var a := |s| - |t|;
    var b := a + |TrimEnd(t)|;
    assert t[|TrimEnd(t)|..] == s[b..];
    assert Trim(s) == s[a..b];
  }

  /** A trimmed string is empty exactly when the input was all white space. */
  lemma TrimEmptyIffAllWhiteSpace(s: string)
    ensures Trim(s) == [] <==> AllWhiteSpace(s)
  {
    var t := TrimStart(s);
    TrimStartSpec(s);
    TrimEndSpec(t);
    var a := |s| - |t|;
    assert s == s[..a] + t;
    if Trim(s) == [] {
      assert t[|TrimEnd(t)|..] == t;
    }
    assert t != [] ==> t[0] == s[a];
  }

  /** Trimming twice is trimming once. */
  lemma TrimIdempotent(s: string)
    ensures Trim(Trim(s)) == Trim(s)
  {
    var r := Trim(s);
    TrimIsSlice(s);
    TrimStartSpec(r);
    TrimEndSpec(r);
    if r != [] {
      assert TrimStart(r) == r;
      assert TrimEnd(r) == r;
    }
  }

  // ------------------------------------------------------------- ToLower

  /** Lower-cases one character: ASCII 'A'..'Z' map to 'a'..'z', all else is kept. */
  function ToLowerChar(c: char): char {
    if 'A' <= c <= 'Z' then (c as int + 32) as char else c
  }

  /** `string.ToLower()`, character by character. */
  function ToLower(s: string): (r: string)
    ensures |r| == |s|
  {
    seq(|s|, i requires 0 <= i < |s| => ToLowerChar(s[i]))
  }

  /** The lower-case alphabet, in order. */
  const LowerLetters: string := "abcdefghijklmnopqrstuvwxyz"

  /** An upper-case letter lower-cases to the letter at the same place in the alphabet. */
  lemma LetterImage(c: char)
    requires 'A' <= c <= 'Z'
    ensures |LowerLetters| == 26 && ToLowerChar(c) == LowerLetters[c as int - 'A' as int]
  {
  }

  /** Lower-casing turns each upper-case letter into its lower-case letter, leaves
      no upper-case letter behind and changes nothing else. */
  lemma ToLowerSpec(s: string)
    ensures forall i | 0 <= i < |s| && 'A' <= s[i] <= 'Z' ::
              |LowerLetters| == 26 && ToLower(s)[i] == LowerLetters[s[i] as int - 'A' as int]
    ensures forall i | 0 <= i < |s| :: !('A' <= ToLower(s)[i] <= 'Z')
    ensures forall i | 0 <= i < |s| && !('A' <= s[i] <= 'Z') :: ToLower(s)[i] == s[i]
  {
    forall i | 0 <= i < |s| && 'A' <= s[i] <= 'Z'
      ensures |LowerLetters| == 26 && ToLower(s)[i] == LowerLetters[s[i] as int - 'A' as int]
    {
      LetterImage(s[i]);
    }
  }

  predicate IsAsciiLetter(c: char) {
    'A' <= c <= 'Z' || 'a' <= c <= 'z'
  }

  /** The place of a letter in the alphabet, counting from 0, whatever its case. */
  function AlphabetIndex(c: char): int
    requires IsAsciiLetter(c)
  {
    if 'A' <= c <= 'Z' then c as int - 'A' as int else c as int - 'a' as int
  }

  /** `c` and `d` are the same character, or the same letter in either case. */
  predicate SameIgnoringCase(c: char, d: char) {
    c == d || (IsAsciiLetter(c) && IsAsciiLetter(d) && AlphabetIndex(c) == AlphabetIndex(d))
  }

  /** Two strings lower-case alike exactly when they differ only in letter case. */
  lemma ToLowerEqIff(a: string, b: string)
    ensures ToLower(a) == ToLower(b) <==> |a| == |b| && forall i | 0 <= i < |a| :: SameIgnoringCase(a[i], b[i])
  {
    if |a| == |b| {
      forall i | 0 <= i < |a|
        ensures ToLower(a)[i] == ToLower(b)[i] <==> SameIgnoringCase(a[i], b[i])
      {
      }
      if forall i | 0 <= i < |a| :: SameIgnoringCase(a[i], b[i]) {
        assert ToLower(a) == ToLower(b);
      }
    }
  }

  /** Lower-casing an already lower-cased string changes nothing. */
  lemma ToLowerIdempotent(s: string)
    ensures ToLower(ToLower(s)) == ToLower(s)
  {
  }

  /** Lower-casing neither creates nor removes white space. */
  lemma ToLowerPreservesWhiteSpace(s: string)
    ensures AllWhiteSpace(ToLower(s)) <==> AllWhiteSpace(s)
  {
    forall i | 0 <= i < |s|
      ensures IsWhiteSpace(ToLower(s)[i]) <==> IsWhiteSpace(s[i])
    {
      assert ToLower(s)[i] == ToLowerChar(s[i]);
    }
  }

  // ------------------------------------------------------------ Contains

  /** `t` occurs in `s` starting at index `k`: the reference meaning of a substring. */
  ghost predicate OccursAt(s: string, t: string, k: int) {
    0 <= k && k + |t| <= |s| && s[k..k + |t|] == t
  }

  /** Compares `t[j..]` with the characters of `s` from `i + j` on, one at a time. */
  predicate MatchesAt(s: string, t: string, i: nat, j: nat)
    requires i + |t| <= |s| && j <= |t|
    decreases |t| - j
  {
    j == |t| || (s[i + j] == t[j] && MatchesAt(s, t, i, j + 1))
  }

  /** The ordinal search of `string.Contains`, trying each start position from `i` on. */
  predicate ContainsFrom(s: string, t: string, i: nat)
    decreases |s| - i
  {
    i + |t| <= |s| && (MatchesAt(s, t, i, 0) || ContainsFrom(s, t, i + 1))
  }

  /** `s.Contains(t)` with ordinal (character-by-character) comparison. */
  predicate Contains(s: string, t: string) {
    ContainsFrom(s, t, 0)
  }

  lemma {:induction false} MatchesAtIff(s: string, t: string, i: nat, j: nat)
    requires i + |t| <= |s| && j <= |t|
    ensures MatchesAt(s, t, i, j) <==> s[i + j..i + |t|] == t[j..]
    decreases |t| - j
  {
    if j < |t| {
      MatchesAtIff(s, t, i, j + 1);
      assert s[i + j..i + |t|] == [s[i + j]] + s[i + j + 1..i + |t|];
      assert t[j..] == [t[j]] + t[j + 1..];
    }
  }

  lemma {:induction false} ContainsFromIff(s: string, t: string, i: nat)
    ensures ContainsFrom(s, t, i) <==> exists k :: i <= k && OccursAt(s, t, k)
    decreases |s| - i
  {
    if i + |t| <= |s| {
      MatchesAtIff(s, t, i, 0);
      ContainsFromIff(s, t, i + 1);
      assert t[0..] == t;
      if MatchesAt(s, t, i, 0) {
        assert OccursAt(s, t, i);
      }
      if exists k :: i <= k && OccursAt(s, t, k) {
        var k :| i <= k && OccursAt(s, t, k);
        if k == i {
          assert MatchesAt(s, t, i, 0);
        } else {
          assert i + 1 <= k;
        }
      }
    } else {
      assert forall k :: i <= k ==> !OccursAt(s, t, k);
    }
  }

  /** The ordinal search agrees with the reference meaning: `Contains(s, t)`
      holds exactly when `t` occurs in `s` at some index. */
  lemma ContainsIff(s: string, t: string)
    ensures Contains(s, t) <==> exists k :: OccursAt(s, t, k)
  {
    ContainsFromIff(s, t, 0);
  }

  /** An occurrence at a known index is a containment. */
  lemma OccurrenceContained(s: string, t: string, k: int)
    requires 0 <= k && k + |t| <= |s| && s[k..k + |t|] == t
    ensures Contains(s, t)
  {
    ContainsIff(s, t);
    assert OccursAt(s, t, k);
  }

  /** A string that lacks one of `t`'s characters does not contain `t`. */
  lemma MissingCharNotContained(s: string, t: string, j: int)
    requires 0 <= j < |t| && t[j] !in s
    ensures !Contains(s, t)
  {
    ContainsIff(s, t);
  }

  /** Every string contains itself. */
  lemma ContainsSelf(s: string)
    ensures Contains(s, s)
  {
    ContainsIff(s, s);
    assert OccursAt(s, s, 0);
  }

  /** Substring containment is transitive: a string containing `t` contains
      everything `t` contains. */
  lemma ContainsTransitive(s: string, t: string, u: string)
    requires Contains(s, t) && Contains(t, u)
    ensures Contains(s, u)
  {
    ContainsIff(s, t);
    ContainsIff(t, u);
    ContainsIff(s, u);
    var k :| OccursAt(s, t, k);
    var m :| OccursAt(t, u, m);
    forall x | 0 <= x < |u|
      ensures s[k + m + x] == u[x]
    {
      assert s[k..k + |t|][m + x] == t[m + x];
      assert t[m..m + |u|][x] == u[x];
    }
    assert s[k + m..k + m + |u|] == u;
    assert OccursAt(s, u, k + m);
  }

  /** A string that contains a non-empty `t` has a character outside the white
      space when `t` has one. */
  lemma ContainsNonWhiteSpace(s: string, t: string)
    requires Contains(s, t) && !AllWhiteSpace(t)
    ensures !AllWhiteSpace(s)
  {
    ContainsIff(s, t);
    var k :| OccursAt(s, t, k);
    var j :| 0 <= j < |t| && !IsWhiteSpace(t[j]);
    assert s[k + j] == t[j];
  }
}
