/**
 The two Python string methods the advice resolver applies to its inputs,
 `str.strip()` (no argument) and `str.lower()`, restricted to ASCII.

 Python's versions are Unicode-aware; this module models only the ASCII
 whitespace characters and the ASCII letters A-Z.
 */
module Text {

  /** Python's `str.isspace` on ASCII: tab, line feed, vertical tab, form feed,
      carriage return, the separators U+001C..U+001F, and space. */
  predicate IsSpace(c: char) {
    9 <= c as int <= 13 || 28 <= c as int <= 32
  }

  predicate IsUpper(c: char) {
    'A' <= c <= 'Z'
  }

  predicate AllSpace(s: string) {
    forall i :: 0 <= i < |s| ==> IsSpace(s[i])
  }

  predicate NoUpper(s: string) {
    forall i :: 0 <= i < |s| ==> !IsUpper(s[i])
  }

  /** Neither the first nor the last character of `s` is whitespace. */
  predicate Trimmed(s: string) {
    |s| == 0 || (!IsSpace(s[0]) && !IsSpace(s[|s| - 1]))
  }

  /** `s` is `t` with some whitespace (possibly none) on either side. */
  ghost predicate SpacePadded(s: string, t: string) {
    exists i, j :: 0 <= i <= j <= |s| && s[i..j] == t && AllSpace(s[..i]) && AllSpace(s[j..])
  }

  /** Two characters are the same letter up to ASCII case, or simply equal. */
  predicate SameIgnoringCase(x: char, y: char) {
    || x == y
    || (IsUpper(x) && y as int == x as int + 32)
    || (IsUpper(y) && x as int == y as int + 32)
  }

  predicate EqualIgnoringCase(a: string, b: string) {
    |a| == |b| && forall i :: 0 <= i < |a| ==> SameIgnoringCase(a[i], b[i])
  }

  /** Drops leading whitespace (the first half of `str.strip`). */
  function TrimLeft(s: string): (r: string)
    ensures |r| <= |s| && r == s[|s| - |r|..]
    ensures AllSpace(s[..|s| - |r|])
    ensures r == [] || !IsSpace(r[0])
    decreases |s|
  {
    if |s| > 0 && IsSpace(s[0]) then TrimLeft(s[1..]) else s
  }

  /** Drops trailing whitespace (the second half of `str.strip`). */
  function TrimRight(s: string): (r: string)
    ensures |r| <= |s| && r == s[..|r|]
    ensures AllSpace(s[|r|..])
    ensures r == [] || !IsSpace(r[|r| - 1])
    decreases |s|
  {
    if |s| > 0 && IsSpace(s[|s| - 1]) then TrimRight(s[..|s| - 1]) else s
  }

  /** Python's `s.strip()`. */
  function Strip(s: string): (r: string)
    ensures Trimmed(r)
    ensures SpacePadded(s, r)
  {
    var l := TrimLeft(s);
    var r := TrimRight(l);
    var i := |s| - |l|;
    assert s[i..i + |r|] == r;
    assert s[i + |r|..] == l[|r|..];
    r
  }

  /** Python's `c.lower()` for one character. */
  function LowerChar(c: char): (d: char)
    ensures !IsUpper(d)
    ensures SameIgnoringCase(c, d)
    ensures IsSpace(d) <==> IsSpace(c)
    ensures !IsUpper(c) ==> d == c
  {
    if IsUpper(c) then (c as int + 32) as char else c
  }

  /** Python's `s.lower()`. */
  function Lower(s: string): (r: string)
    ensures |r| == |s|
    ensures NoUpper(r)
    ensures EqualIgnoringCase(s, r)
  {
    seq(|s|, i requires 0 <= i < |s| => LowerChar(s[i]))
  }

  /** Every string has exactly one trimmed core inside its whitespace padding:
      two paddings that both leave a trimmed middle leave the same middle. */
  lemma TrimmedCoreUnique(s: string, i1: nat, j1: nat, i2: nat, j2: nat)
    requires i1 <= j1 <= |s| && i2 <= j2 <= |s|
    requires AllSpace(s[..i1]) && AllSpace(s[j1..]) && Trimmed(s[i1..j1])
    requires AllSpace(s[..i2]) && AllSpace(s[j2..]) && Trimmed(s[i2..j2])
    ensures s[i1..j1] == s[i2..j2]
  {
    if i1 == j1 {
      AllSpaceOutsideEmptyCore(s, i1, i2, j2);
    } else if i2 == j2 {
      AllSpaceOutsideEmptyCore(s, i2, i1, j1);
    } else {
      assert i1 == i2;
      assert j1 == j2;
    }
  }

  /** Helper of TrimmedCoreUnique: when an empty core is surrounded by whitespace,
      the whole string is whitespace, so any trimmed core is empty too. */
  lemma AllSpaceOutsideEmptyCore(s: string, i: nat, i2: nat, j2: nat)
    requires i <= |s| && i2 <= j2 <= |s|
    requires AllSpace(s[..i]) && AllSpace(s[i..])
    requires Trimmed(s[i2..j2])
    ensures s[i..i] == s[i2..j2]
  {
  }

  /** `Strip` is characterised by its contract: the only trimmed string that
      `s` pads with whitespace is `Strip(s)`. */
  lemma StripUnique(s: string, t: string)
    requires SpacePadded(s, t) && Trimmed(t)
    ensures t == Strip(s)
  {
    var i1, j1 :| 0 <= i1 <= j1 <= |s| && s[i1..j1] == t && AllSpace(s[..i1]) && AllSpace(s[j1..]);
    var r := Strip(s);
    var i2, j2 :| 0 <= i2 <= j2 <= |s| && s[i2..j2] == r && AllSpace(s[..i2]) && AllSpace(s[j2..]);
    TrimmedCoreUnique(s, i1, j1, i2, j2);
  }

  /** A string without surrounding whitespace is left alone by `strip()`. */
  lemma StripTrimmed(s: string)
    requires Trimmed(s)
    ensures Strip(s) == s
  {
    assert s[0..|s|] == s && s[..0] == [] && s[|s|..] == [];
    StripUnique(s, s);
  }

  /** Extra whitespace on either side does not change what `strip()` returns. */
  lemma StripIgnoresPadding(p: string, s: string, q: string)
    requires AllSpace(p) && AllSpace(q)
    ensures Strip(p + s + q) == Strip(s)
  {
    var t := Strip(s);
    var i, j :| 0 <= i <= j <= |s| && s[i..j] == t && AllSpace(s[..i]) && AllSpace(s[j..]);
    var w := p + s + q;
    var i', j' := |p| + i, |p| + j;
    SliceOfPadded(p, s, q, i, j);
    AllSpaceConcat(p, s[..i]);
    AllSpaceConcat(s[j..], q);
    assert SpacePadded(w, t);
    StripUnique(w, t);
  }

  lemma SliceOfPadded(p: string, s: string, q: string, i: nat, j: nat)
    requires i <= j <= |s|
    ensures (p + s + q)[|p| + i..|p| + j] == s[i..j]
    ensures (p + s + q)[..|p| + i] == p + s[..i]
    ensures (p + s + q)[|p| + j..] == s[j..] + q
  {
    var w := p + s + q;
    assert w[|p| + i..|p| + j] == s[i..j] by {
      forall k | 0 <= k < j - i ensures w[|p| + i..|p| + j][k] == s[i..j][k] {
        assert w[|p| + i + k] == s[i + k];
      }
    }
    assert w[..|p| + i] == p + s[..i];
    assert w[|p| + j..] == s[j..] + q;
  }

  lemma AllSpaceConcat(a: string, b: string)
    requires AllSpace(a) && AllSpace(b)
    ensures AllSpace(a + b)
  {
  }

  /** `lower()` leaves a string without upper-case letters unchanged. */
  lemma LowerNoUpper(s: string)
    requires NoUpper(s)
    ensures Lower(s) == s
  {
  }

  /** Lower-casing commutes with taking a slice. */
  lemma LowerSlice(s: string, i: nat, j: nat)
    requires i <= j <= |s|
    ensures Lower(s)[i..j] == Lower(s[i..j])
  {
  }

  /** Lower-casing keeps whitespace padding and its trimmed middle. */
  lemma LowerKeepsPadding(s: string, t: string)
    requires SpacePadded(s, t) && Trimmed(t)
    ensures SpacePadded(Lower(s), Lower(t)) && Trimmed(Lower(t))
  {
    var i, j :| 0 <= i <= j <= |s| && s[i..j] == t && AllSpace(s[..i]) && AllSpace(s[j..]);
    var l := Lower(s);
    LowerSlice(s, i, j);
    LowerSlice(s, 0, i);
    LowerSlice(s, j, |s|);
    assert s[0..i] == s[..i] && s[j..|s|] == s[j..];
    assert l[0..i] == l[..i] && l[j..|s|] == l[j..];
    LowerKeepsSpace(s[..i]);
    LowerKeepsSpace(s[j..]);
    assert l[i..j] == Lower(t);
  }

  /** Lower-casing keeps every whitespace character, and every other
      character, where it was. */
  lemma LowerKeepsSpace(s: string)
    ensures AllSpace(s) ==> AllSpace(Lower(s))
    ensures Trimmed(s) ==> Trimmed(Lower(s))
  {
  }

  /** Lower-casing and stripping can be done in either order. */
  lemma LowerStripCommute(s: string)
    ensures Lower(Strip(s)) == Strip(Lower(s))
  {
    LowerKeepsPadding(s, Strip(s));
    StripUnique(Lower(s), Lower(Strip(s)));
  }

  /** `lower()` identifies exactly the strings that differ only in ASCII case. */
  lemma LowerEqualIff(a: string, b: string)
    ensures Lower(a) == Lower(b) <==> EqualIgnoringCase(a, b)
  {
    if EqualIgnoringCase(a, b) {
      assert forall i :: 0 <= i < |a| ==> Lower(a)[i] == Lower(b)[i];
    }
    if Lower(a) == Lower(b) {
      assert forall i :: 0 <= i < |a| ==> LowerChar(a[i]) == LowerChar(b[i]);
    }
  }
}
