/**
 * The few Python string operations the build tools rely on, over `string = seq<char>`:
 * whitespace, ASCII case mapping, `in`, `str.replace`, `str.strip`, `"".join` and `"\n".join`.
 */
module Text {

  /** Whitespace as Python's `str.isspace()`, `str.strip()` and the `\s` class of `re` see it on text. */
  predicate IsSpace(c: char) {
    || '\t' <= c <= '\r'
    || '\U{1C}' <= c <= ' '
    || c == '\U{85}' || c == '\U{A0}' || c == '\U{1680}'
    || '\U{2000}' <= c <= '\U{200A}'
    || c == '\U{2028}' || c == '\U{2029}' || c == '\U{202F}' || c == '\U{205F}' || c == '\U{3000}'
  }

  predicate AllSpace(s: string) {
    forall k :: 0 <= k < |s| ==> IsSpace(s[k])
  }

  // ---------------------------------------------------------------------------------------------
  // Case mapping (ASCII letters only)

  function UpperChar(c: char): char {
    if 'a' <= c <= 'z' then (c as int - 32) as char else c
  }

  function LowerChar(c: char): char {
    if 'A' <= c <= 'Z' then (c as int + 32) as char else c
  }

  /** `str.upper()` */
  function Upper(s: string): (r: string)
    ensures |r| == |s|
    ensures forall i :: 0 <= i < |s| ==> r[i] == UpperChar(s[i])
  {
    seq(|s|, i requires 0 <= i < |s| => UpperChar(s[i]))
  }

  /** `str.lower()` */
  function Lower(s: string): (r: string)
    ensures |r| == |s|
    ensures forall i :: 0 <= i < |s| ==> r[i] == LowerChar(s[i])
  {
    seq(|s|, i requires 0 <= i < |s| => LowerChar(s[i]))
  }

  /** Lower-casing twice is lower-casing once, and lower-case text has no upper-case ASCII letter. */
  lemma LowerIdempotent(s: string)
    ensures Lower(Lower(s)) == Lower(s)
    ensures forall i :: 0 <= i < |s| ==> !('A' <= Lower(s)[i] <= 'Z')
  {
  }

  // ---------------------------------------------------------------------------------------------
  // Substrings

  predicate OccursAt(s: string, t: string, i: nat) {
    i + |t| <= |s| && s[i..i + |t|] == t
  }

  /** Python's `t in s` on strings. */
  predicate Contains(s: string, t: string)
    decreases |s|
  {
    t <= s || (s != [] && Contains(s[1..], t))
  }

  lemma {:induction false} ContainsIffOccurs(s: string, t: string)
    ensures Contains(s, t) <==> exists i: nat :: OccursAt(s, t, i)
  {
    if Contains(s, t) {
      var i := ContainsOccurs(s, t);
    }
    if exists i: nat :: OccursAt(s, t, i) {
      var i: nat :| OccursAt(s, t, i);
      OccursContains(s, t, i);
    }
  }

  /** Where a contained word occurs. */
  lemma {:induction false} ContainsOccurs(s: string, t: string) returns (i: nat)
    requires Contains(s, t)
    ensures OccursAt(s, t, i)
    decreases |s|
  {
    if t <= s {
      i := 0;
      assert s[..|t|] == t;
    } else {
      var j := ContainsOccurs(s[1..], t);
      assert s[j + 1..j + 1 + |t|] == s[1..][j..j + |t|];
      i := j + 1;
    }
  }

  lemma {:induction false} OccursContains(s: string, t: string, i: nat)
    requires OccursAt(s, t, i)
    ensures Contains(s, t)
    decreases i
  {
    if i == 0 {
      assert s[..|t|] == t;
    } else {
      assert s[1..][i - 1..i - 1 + |t|] == s[i..i + |t|];
      OccursContains(s[1..], t, i - 1);
    }
  }

  /**
   * A word cannot straddle a character it does not contain, so it occurs in `x + y` exactly when
   * it occurs in `x` or in `y`, if `x` ends or `y` starts with such a character.
   */
  lemma ContainsAcross(x: string, y: string, w: string)
    requires (x != [] && x[|x| - 1] !in w) || (y != [] && y[0] !in w)
    ensures Contains(x + y, w) <==> Contains(x, w) || Contains(y, w)
  {
    if Contains(x + y, w) {
      var i := ContainsOccurs(x + y, w);
      Straddle(x, y, w, i);
      OccursParts(x, y, w, i);
    }
    if Contains(x, w) || Contains(y, w) {
      ContainsJoin(x, y, w);
    }
  }

  /** An occurrence in `x + y` that does not straddle the seam is an occurrence in one part. */
  lemma OccursParts(x: string, y: string, w: string, i: nat)
    requires OccursAt(x + y, w, i) && (i + |w| <= |x| || i >= |x|)
    ensures Contains(x, w) || Contains(y, w)
  {
    if i + |w| <= |x| {
      assert (x + y)[i..i + |w|] == x[i..i + |w|];
      OccursContains(x, w, i);
    } else {
      assert (x + y)[i..i + |w|] == y[i - |x|..i - |x| + |w|];
      OccursContains(y, w, i - |x|);
    }
  }

  /** A word occurring in one part occurs in the joined text. */
  lemma ContainsJoin(x: string, y: string, w: string)
    requires Contains(x, w) || Contains(y, w)
    ensures Contains(x + y, w)
  {
    if Contains(x, w) {
      var i := ContainsOccurs(x, w);
      assert (x + y)[i..i + |w|] == x[i..i + |w|];
      OccursContains(x + y, w, i);
    } else {
      var i := ContainsOccurs(y, w);
      assert (x + y)[|x| + i..|x| + i + |w|] == y[i..i + |w|];
      OccursContains(x + y, w, |x| + i);
    }
  }

  /** An occurring word is no longer than the text, and its first character occurs in the text. */
  lemma {:induction false} ContainsFacts(s: string, w: string)
    requires Contains(s, w)
    ensures |w| <= |s|
    ensures w != [] ==> w[0] in s
    decreases |s|
  {
    if !(w <= s) {
      ContainsFacts(s[1..], w);
    }
  }

  /** Every character of an occurring word occurs in the text. */
  lemma ContainsChar(s: string, w: string, k: nat)
    requires Contains(s, w) && k < |w|
    ensures w[k] in s
  {
    var i := ContainsOccurs(s, w);
    assert s[i + k] == s[i..i + |w|][k];
  }

  /** A word holding a character the text lacks does not occur in it. */
  lemma MissingChar(s: string, w: string, k: nat)
    requires k < |w| && w[k] !in s
    ensures !Contains(s, w)
  {
    if Contains(s, w) {
      ContainsChar(s, w, k);
    }
  }

  /** A word that starts a part of a text occurs in the text. */
  lemma ContainsMiddle(x: string, m: string, y: string, w: string)
    requires w <= m
    ensures Contains(x + m + y, w)
  {
    assert Contains(m, w);
    ContainsJoin(x, m, w);
    ContainsJoin(x + m, y, w);
  }

  /** A word occurs wherever a longer word that starts with it occurs. */
  lemma ContainsPrefixWord(s: string, w: string, v: string)
    requires Contains(s, w + v)
    ensures Contains(s, w)
  {
    var i := ContainsOccurs(s, w + v);
    assert s[i..i + |w|] == s[i..i + |w + v|][..|w|];
    OccursContains(s, w, i);
  }

  /** An occurrence that straddles the seam of `x + y` holds the characters on both sides of it. */
  lemma Straddle(x: string, y: string, w: string, i: nat)
    requires OccursAt(x + y, w, i)
    ensures i < |x| < i + |w| ==> x[|x| - 1] in w && y[0] in w
  {
    if i < |x| < i + |w| {
      assert x[|x| - 1] == (x + y)[i..i + |w|][|x| - 1 - i];
      assert y[0] == (x + y)[i..i + |w|][|x| - i];
    }
  }

  /** Every word occurring in a slice occurs in the whole. */
  lemma ContainsSlice(s: string, i: nat, j: nat, w: string)
    requires i <= j <= |s| && Contains(s[i..j], w)
    ensures Contains(s, w)
  {
    var k := ContainsOccurs(s[i..j], w);
    assert k + |w| <= j - i;
    forall m | 0 <= m < |w| ensures s[i + k..i + k + |w|][m] == w[m] {
      assert s[i..j][k..k + |w|][m] == s[i + k + m];
    }
    assert s[i + k..i + k + |w|] == w;
    OccursContains(s, w, i + k);
  }

  // ---------------------------------------------------------------------------------------------
  // str.replace

  /** Python's `s.replace(target, replacement)`: every occurrence, left to right, non-overlapping. */
  function ReplaceAll(s: string, target: string, replacement: string): string
    decreases |s|
  {
    if target == [] then
      (if s == [] then replacement else replacement + [s[0]] + ReplaceAll(s[1..], target, replacement))
    else if s == [] then []
    else if target <= s then replacement + ReplaceAll(s[|target|..], target, replacement)
    else [s[0]] + ReplaceAll(s[1..], target, replacement)
  }

  /** Python's `s.count(target)`: the occurrences `ReplaceAll` replaces. */
  function Occurrences(s: string, target: string): nat
    decreases |s|
  {
    if target == [] then |s| + 1
    else if s == [] then 0
    else if target <= s then 1 + Occurrences(s[|target|..], target)
    else Occurrences(s[1..], target)
  }

  /** Python's `s.replace(target, replacement, 1)`: the first occurrence only. */
  function ReplaceFirst(s: string, target: string, replacement: string): string
    decreases |s|
  {
    if target <= s then replacement + s[|target|..]
    else if s == [] then []
    else [s[0]] + ReplaceFirst(s[1..], target, replacement)
  }

  /** `str.replace(t, rep, 1)` for a one-character `t` passes over a prefix without that character. */
  lemma {:induction false} ReplaceFirstSkip(x: string, y: string, t: string, rep: string)
    requires |t| == 1 && t[0] !in x
    ensures ReplaceFirst(x + y, t, rep) == x + ReplaceFirst(y, t, rep)
    decreases |x|
  {
    if x == [] {
      assert x + y == y;
    } else {
      assert (x + y)[0] == x[0] && (x + y)[1..] == x[1..] + y;
      assert x[0] in x;
      assert !(t <= x + y);
      assert t[0] !in x[1..];
      ReplaceFirstSkip(x[1..], y, t, rep);
      var z := ReplaceFirst(y, t, rep);
      assert [x[0]] + (x[1..] + z) == x + z;
    }
  }

  /** `str.replace("{", "{" + t, 1)` inserts `t` after the first brace. */
  lemma ReplaceFirstAfter(x: string, r: string, t: string)
    requires '{' !in x
    ensures ReplaceFirst(x + ("{" + r), "{", "{" + t) == x + ("{" + (t + r))
  {
    ReplaceFirstSkip(x, "{" + r, "{", "{" + t);
    assert "{" <= "{" + r;
    assert ("{" + r)[1..] == r;
  }

  /** Each replaced occurrence changes the length by the difference of the two lengths. */
  lemma {:induction false} ReplaceAllLength(s: string, target: string, replacement: string)
    ensures |ReplaceAll(s, target, replacement)| == |s| + Occurrences(s, target) * (|replacement| - |target|)
    decreases |s|
  {
    var d := |replacement| - |target|;
    if target == [] {
      if s != [] {
        var rest := s[1..];
        ReplaceAllLength(rest, target, replacement);
        assert |ReplaceAll(s, target, replacement)| == |replacement| + 1 + |ReplaceAll(rest, target, replacement)|;
        assert Occurrences(s, target) == Occurrences(rest, target) + 1;
        MulSucc(Occurrences(rest, target), d);
      }
    } else if s == [] {
    } else if target <= s {
      var rest := s[|target|..];
      ReplaceAllLength(rest, target, replacement);
      assert |ReplaceAll(s, target, replacement)| == |replacement| + |ReplaceAll(rest, target, replacement)|;
      assert Occurrences(s, target) == Occurrences(rest, target) + 1;
      MulSucc(Occurrences(rest, target), d);
    } else {
      ReplaceAllLength(s[1..], target, replacement);
    }
  }

  lemma MulSucc(k: int, d: int)
    ensures (k + 1) * d == k * d + d
  {
  }

  /** Replacing a text by itself changes nothing. */
  lemma {:induction false} ReplaceAllBySelf(s: string, target: string)
    ensures ReplaceAll(s, target, target) == s
    decreases |s|
  {
    if target == [] {
      if s != [] {
        ReplaceAllBySelf(s[1..], target);
      }
    } else if s == [] {
    } else if target <= s {
      ReplaceAllBySelf(s[|target|..], target);
      assert s == target + s[|target|..];
    } else {
      ReplaceAllBySelf(s[1..], target);
      assert s == [s[0]] + s[1..];
    }
  }

  /** A non-empty target that does not occur is counted zero times and leaves the text unchanged. */
  lemma {:induction false} ReplaceAllAbsent(s: string, target: string, replacement: string)
    requires target != []
    ensures Contains(s, target) <==> Occurrences(s, target) > 0
    ensures !Contains(s, target) ==> ReplaceAll(s, target, replacement) == s
    decreases |s|
  {
    if s == [] {
    } else if target <= s {
    } else {
      ReplaceAllAbsent(s[1..], target, replacement);
      assert s == [s[0]] + s[1..];
    }
  }

  // ---------------------------------------------------------------------------------------------
  // str.strip

  /** The length of the whitespace run `s` starts with. */
  function LeadingSpaces(s: string): (n: nat)
    ensures n <= |s|
    decreases |s|
  {
    if s != [] && IsSpace(s[0]) then 1 + LeadingSpaces(s[1..]) else 0
  }

  /** The length of the whitespace run `s` ends with. */
  function TrailingSpaces(s: string): (n: nat)
    ensures n <= |s|
    decreases |s|
  {
    if s != [] && IsSpace(s[|s| - 1]) then 1 + TrailingSpaces(s[..|s| - 1]) else 0
  }

  /** The leading run is whitespace and is maximal. */
  lemma {:induction false} LeadingSpacesSpec(s: string)
    ensures forall k :: 0 <= k < LeadingSpaces(s) ==> IsSpace(s[k])
    ensures LeadingSpaces(s) < |s| ==> !IsSpace(s[LeadingSpaces(s)])
    decreases |s|
  {
    if s != [] && IsSpace(s[0]) {
      LeadingSpacesSpec(s[1..]);
    }
  }

  /** The trailing run is whitespace and is maximal. */
  lemma {:induction false} TrailingSpacesSpec(s: string)
    ensures forall k :: |s| - TrailingSpaces(s) <= k < |s| ==> IsSpace(s[k])
    ensures TrailingSpaces(s) < |s| ==> !IsSpace(s[|s| - 1 - TrailingSpaces(s)])
    decreases |s|
  {
    if s != [] && IsSpace(s[|s| - 1]) {
      TrailingSpacesSpec(s[..|s| - 1]);
    }
  }

  /** A whitespace run that stops inside `a` (or at a non-whitespace start of `b`) ignores `b`. */
  lemma {:induction false} LeadingSpacesAppend(a: string, b: string)
    requires LeadingSpaces(a) < |a| || (b != [] && !IsSpace(b[0]))
    ensures LeadingSpaces(a + b) == LeadingSpaces(a)
    decreases |a|
  {
    if a == [] {
    } else {
      assert (a + b)[0] == a[0];
      if IsSpace(a[0]) {
        assert (a + b)[1..] == a[1..] + b;
        LeadingSpacesAppend(a[1..], b);
      }
    }
  }

  /** Python's `str.strip()`. */
  function Strip(s: string): (r: string)
  {
    var t := s[LeadingSpaces(s)..];
    t[..|t| - TrailingSpaces(t)]
  }

  /**
   * `Strip` removes exactly the whitespace at both ends: the result is a slice of the input whose
   * surroundings are whitespace, and it neither starts nor ends with whitespace; it is empty
   * exactly when the input is all whitespace.
   */
  lemma StripSpec(s: string)
    ensures exists i, j :: 0 <= i <= j <= |s| && Strip(s) == s[i..j] && AllSpace(s[..i]) && AllSpace(s[j..])
    ensures Strip(s) == [] || (!IsSpace(Strip(s)[0]) && !IsSpace(Strip(s)[|Strip(s)| - 1]))
    ensures Strip(s) == [] <==> AllSpace(s)
  {
    var i := LeadingSpaces(s);
    var t := s[i..];
    var j := i + |t| - TrailingSpaces(t);
    LeadingSpacesSpec(s);
    TrailingSpacesSpec(t);
    assert Strip(s) == s[i..j];
    assert AllSpace(s[..i]);
    assert AllSpace(s[j..]) by {
      forall k | 0 <= k < |s[j..]| ensures IsSpace(s[j..][k]) {
        assert s[j..][k] == t[j - i + k];
      }
    }
    if Strip(s) == [] {
      assert i == |s|;
    }
  }

  // ---------------------------------------------------------------------------------------------
  // Joining

  /** `"".join(parts)` */
  function Concat(parts: seq<string>): string {
    if parts == [] then [] else Concat(parts[..|parts| - 1]) + parts[|parts| - 1]
  }

  lemma ConcatAppend(parts: seq<string>, more: seq<string>)
    ensures Concat(parts + more) == Concat(parts) + Concat(more)
    decreases |more|
  {
    if more == [] {
      assert parts + more == parts;
    } else {
      var init := more[..|more| - 1];
      assert (parts + more)[..|parts + more| - 1] == parts + init;
      ConcatAppend(parts, init);
    }
  }

  /** Appending one part appends its text. */
  lemma ConcatPush(parts: seq<string>, s: string)
    ensures Concat(parts + [s]) == Concat(parts) + s
  {
    assert (parts + [s])[..|parts|] == parts;
  }

  lemma SeqAssoc<T>(a: seq<T>, b: seq<T>, c: seq<T>)
    ensures a + (b + c) == (a + b) + c
  {
  }

  lemma SliceLeft<T>(a: seq<T>, b: seq<T>, i: nat, j: nat)
    requires i <= j <= |a|
    ensures (a + b)[i..j] == a[i..j]
  {
  }

  lemma SliceRight<T>(a: seq<T>, b: seq<T>)
    ensures (a + b)[|a|..|a| + |b|] == b
  {
  }

  /** Putting the first character back in front of the rest of a string and what follows it. */
  lemma HeadTail(a: string, c: string)
    requires a != []
    ensures [a[0]] + (a[1..] + c) == a + c
  {
    assert a == [a[0]] + a[1..];
  }

  /** Appending two parts one after another appends their text in order. */
  lemma ConcatPush2(parts: seq<string>, x: string, y: string)
    ensures Concat(parts + [x] + [y]) == Concat(parts) + x + y
  {
    ConcatPush(parts, x);
    ConcatPush(parts + [x], y);
  }

  /** Appending three parts one after another appends their joined text. */
  lemma ConcatPush3(parts: seq<string>, x: string, y: string, z: string)
    ensures Concat(parts + [x] + [y] + [z]) == Concat(parts) + (x + y + z)
  {
    ConcatPush(parts, x);
    ConcatPush(parts + [x], y);
    ConcatPush(parts + [x] + [y], z);
  }

  /** `sep.join(lines)` */
  function JoinWith(lines: seq<string>, sep: string): string
    decreases |lines|
  {
    if lines == [] then []
    else if |lines| == 1 then lines[0]
    else lines[0] + sep + JoinWith(lines[1..], sep)
  }
}
