/**
 * The regular-expression substitutions of the two font updaters, written out for the three
 * shapes they use instead of as a general regex engine.
 *
 * Every pattern is: a literal, then (optionally) `\s*` and an opening character, then a body free
 * of the terminator, then the terminator:
 *   `\.name\s*\{[^}]*?\}`   is  Pattern(".name", Some('{'), '}', false)
 *   `K:\s*[^;]+;`          is  Pattern("K:", None, ';', true)
 *   `K\s*:\s*[^;]+;`       is  Pattern("K", Some(':'), ';', true)
 * (`\s*[^;]+` together is one or more characters other than `;`, and the lazy `[^}]*?\}` stops
 * at the first `}`, so each of them ends at the first terminator after the body starts.)
 * `Sub` is `re.sub`: matches are taken leftmost first, do not overlap, and are all replaced.
 */
module CssScan {
  import opened Wrappers
  import opened Text

  datatype Pattern = Pattern(lit: string, open: Option<char>, term: char, nonEmptyBody: bool)

  /** Index of the first `c` in `s`. */
  function IndexOf(s: string, c: char): (r: Option<nat>)
    ensures r.Some? ==> r.value < |s|
  {
    if s == [] then None
    else if s[0] == c then Some(0)
    else
      match IndexOf(s[1..], c)
      case None => None
      case Some(k) => Some(k + 1)
  }

  /** `IndexOf` finds the first occurrence, and finds none only when there is none. */
  lemma {:induction false} IndexOfSpec(s: string, c: char)
    ensures IndexOf(s, c).Some? ==> s[IndexOf(s, c).value] == c && c !in s[..IndexOf(s, c).value]
    ensures IndexOf(s, c).None? <==> c !in s
    decreases |s|
  {
    if s != [] && s[0] != c {
      IndexOfSpec(s[1..], c);
      if IndexOf(s, c).Some? {
        var k := IndexOf(s[1..], c).value;
        assert s[..k + 1] == [s[0]] + s[1..][..k];
      }
    }
  }

  /** Where the body of a match at the start of `s` begins, if the part before the body matches. */
  function BodyStart(s: string, p: Pattern): (r: Option<nat>)
    ensures r.Some? ==> |p.lit| <= r.value <= |s|
  {
    if !(p.lit <= s) then None
    else
      match p.open
      case None => Some(|p.lit|)
      case Some(o) =>
        var e := |p.lit| + LeadingSpaces(s[|p.lit|..]);
        if e < |s| && s[e] == o then Some(e + 1) else None
  }

  /** The length of the match of `p` at the very start of `s`, if there is one. */
  function MatchLen(s: string, p: Pattern): (r: Option<nat>)
    ensures r.Some? ==> |p.lit| < r.value <= |s|
  {
    match BodyStart(s, p)
    case None => None
    case Some(b) =>
      match IndexOf(s[b..], p.term)
      case None => None
      case Some(k) => if p.nonEmptyBody && k == 0 then None else Some(b + k + 1)
  }

  /** `re.sub(p, f, s)`: every match, leftmost first and without overlap, is replaced by `f` of it. */
  function Sub(s: string, p: Pattern, f: string -> string): string
    decreases |s|
  {
    if s == [] then []
    else
      match MatchLen(s, p)
      case Some(n) => f(s[..n]) + Sub(s[n..], p, f)
      case None => [s[0]] + Sub(s[1..], p, f)
  }

  // ---------------------------------------------------------------------------------------------
  // What a match is

  /** The text a match consists of: literal, whitespace and opener (when there is one), body, terminator. */
  function Assemble(p: Pattern, ws: string, body: string): string {
    p.lit + ws + (if p.open.Some? then [p.open.value] else []) + body + [p.term]
  }

  predicate ShapeOk(p: Pattern, ws: string, body: string) {
    && AllSpace(ws)
    && (p.open.None? ==> ws == [])
    && p.term !in body
    && (p.nonEmptyBody ==> body != [])
  }

  /**
   * The scanner agrees with the regular expression: text that consists of the literal, optional
   * whitespace and opener, a body free of the terminator (non-empty when required) and the
   * terminator is one complete match.
   */
  lemma MatchOfShape(p: Pattern, ws: string, body: string)
    requires p.open.Some? ==> !IsSpace(p.open.value)
    requires ShapeOk(p, ws, body)
    ensures MatchLen(Assemble(p, ws, body), p) == Some(|Assemble(p, ws, body)|)
  {
    var opener := if p.open.Some? then [p.open.value] else [];
    var tail := body + [p.term];
    var head := p.lit + ws + opener;
    var s := Assemble(p, ws, body);
    assert s == head + tail;
    BodyStartOfShape(s, p, ws, opener + tail);
    assert s[|head|..] == tail;
    IndexOfAppendRight(body, [p.term], p.term);
    assert IndexOf([p.term], p.term) == Some(0);
    MatchLenOf(s, p, |head|, |body|);
  }

  /** A match is put together from where its body starts and where the terminator follows. */
  lemma MatchLenOf(s: string, p: Pattern, b: nat, k: nat)
    requires BodyStart(s, p) == Some(b)
    requires IndexOf(s[b..], p.term) == Some(k)
    requires p.nonEmptyBody ==> k != 0
    ensures MatchLen(s, p) == Some(b + k + 1)
  {
  }

  lemma BodyStartOfShape(s: string, p: Pattern, ws: string, rest: string)
    requires s == p.lit + ws + rest
    requires p.open.Some? ==> !IsSpace(p.open.value) && rest != [] && rest[0] == p.open.value
    requires AllSpace(ws) && (p.open.None? ==> ws == [])
    ensures BodyStart(s, p) == Some(|p.lit| + |ws| + if p.open.Some? then 1 else 0)
  {
    assert p.lit <= s by {
      assert s[..|p.lit|] == p.lit;
    }
    if p.open.Some? {
      OpenerAfterSpaces(s[|p.lit|..], ws, rest, p.open.value);
    }
  }

  /** Whitespace followed by a non-space opener: the opener is the first character that is not a space. */
  lemma OpenerAfterSpaces(t: string, ws: string, rest: string, o: char)
    requires t == ws + rest && AllSpace(ws)
    requires !IsSpace(o) && rest != [] && rest[0] == o
    ensures LeadingSpaces(t) == |ws| && |ws| < |t| && t[|ws|] == o
  {
    LeadingSpacesAppend(ws, rest);
    LeadingSpacesAll(ws);
  }

  /** And the converse: every match has that shape. */
  lemma ShapeOfMatch(p: Pattern, s: string)
    requires MatchLen(s, p).Some?
    ensures exists ws, body :: ShapeOk(p, ws, body) && s[..MatchLen(s, p).value] == Assemble(p, ws, body)
  {
    MatchLenSpec(s, p);
    OpeningSpec(s, p);
    var n := MatchLen(s, p).value;
    var b := BodyStart(s, p).value;
    var opener := if p.open.Some? then [p.open.value] else [];
    var i, j := |p.lit|, b - |opener|;
    var ws := s[i..j];
    var body := s[b..n - 1];
    FiveParts(s, i, j, b, n);
    assert s[..i] == p.lit;
    assert s[j..b] == opener;
    assert ShapeOk(p, ws, body);
  }

  /** Cutting a prefix of a sequence at three points, with its last element on its own. */
  lemma FiveParts<T>(s: seq<T>, i: nat, j: nat, k: nat, n: nat)
    requires i <= j <= k < n <= |s|
    ensures s[..n] == s[..i] + s[i..j] + s[j..k] + s[k..n - 1] + [s[n - 1]]
  {
    assert s[..n] == s[..n - 1] + [s[n - 1]];
    assert s[..n - 1] == s[..k] + s[k..n - 1];
    assert s[..k] == s[..j] + s[j..k];
    assert s[..j] == s[..i] + s[i..j];
  }

  /** A match starts with the literal, ends with the first terminator after its body starts. */
  lemma MatchLenSpec(s: string, p: Pattern)
    requires MatchLen(s, p).Some?
    ensures var n := MatchLen(s, p).value;
            && p.lit <= s
            && s[n - 1] == p.term
            && BodyStart(s, p).Some? && BodyStart(s, p).value < n
            && p.term !in s[BodyStart(s, p).value..n - 1]
            && (p.nonEmptyBody ==> BodyStart(s, p).value < n - 1)
  {
    var n := MatchLen(s, p).value;
    var b := BodyStart(s, p).value;
    IndexOfSpec(s[b..], p.term);
    var k := IndexOf(s[b..], p.term).value;
    assert n == b + k + 1;
    assert s[b..n - 1] == s[b..][..k];
  }

  /** Between the literal and the body lie whitespace and the opener, when the pattern has one. */
  lemma OpeningSpec(s: string, p: Pattern)
    requires BodyStart(s, p).Some?
    ensures var b := BodyStart(s, p).value;
            && (p.open.None? ==> b == |p.lit|)
            && (p.open.Some? ==> |p.lit| < b && s[b - 1] == p.open.value && AllSpace(s[|p.lit|..b - 1]))
            && (p.open.Some? ==> !IsSpace(p.open.value))
  {
    if p.open.Some? {
      var t := s[|p.lit|..];
      LeadingSpacesSpec(t);
      var b := BodyStart(s, p).value;
      assert b - 1 == |p.lit| + LeadingSpaces(t);
      assert s[|p.lit|..b - 1] == t[..LeadingSpaces(t)];
      assert t[LeadingSpaces(t)] == s[b - 1];
    }
  }

  lemma {:induction false} LeadingSpacesAll(ws: string)
    requires AllSpace(ws)
    ensures LeadingSpaces(ws) == |ws|
    decreases |ws|
  {
    if ws != [] {
      LeadingSpacesAll(ws[1..]);
    }
  }

  lemma {:induction false} IndexOfAppendRight(u: string, v: string, c: char)
    requires c !in u
    ensures IndexOf(u + v, c) == if IndexOf(v, c).Some? then Some(|u| + IndexOf(v, c).value) else None
    decreases |u|
  {
    if u == [] {
      assert u + v == v;
    } else {
      assert (u + v)[0] == u[0] != c;
      assert (u + v)[1..] == u[1..] + v;
      assert c !in u[1..];
      IndexOfAppendRight(u[1..], v, c);
    }
  }

  lemma {:induction false} IndexOfAppendLeft(u: string, v: string, c: char)
    requires c in u
    ensures IndexOf(u + v, c) == IndexOf(u, c)
    decreases |u|
  {
    if u[0] != c {
      assert (u + v)[1..] == u[1..] + v;
      IndexOfAppendLeft(u[1..], v, c);
    }
  }

  /** A complete match stays the same match whatever follows it. */
  lemma MatchExtends(m: string, rest: string, p: Pattern)
    requires MatchLen(m, p) == Some(|m|)
    ensures MatchLen(m + rest, p) == Some(|m|)
  {
    MatchLenSpec(m, p);
    var s := m + rest;
    var b := BodyStart(m, p).value;
    BodyStartExtends(m, rest, p);
    assert s[b..] == m[b..] + rest;
    assert m[b..][|m| - 1 - b] == p.term;
    IndexOfAppendLeft(m[b..], rest, p.term);
    MatchLenOf(s, p, b, IndexOf(m[b..], p.term).value);
  }

  /** Where a body starts does not depend on what follows the opener. */
  lemma BodyStartExtends(m: string, rest: string, p: Pattern)
    requires BodyStart(m, p).Some?
    ensures BodyStart(m + rest, p) == BodyStart(m, p)
  {
    var s := m + rest;
    assert s[..|p.lit|] == m[..|p.lit|];
    if p.open.Some? {
      var t := m[|p.lit|..];
      assert s[|p.lit|..] == t + rest;
      assert LeadingSpaces(t) < |t| && !IsSpace(t[LeadingSpaces(t)]) by {
        OpeningSpec(m, p);
      }
      LeadingSpacesAppend(t, rest);
    }
  }

  // ---------------------------------------------------------------------------------------------
  // Substitution

  /** Text in which the literal never occurs is left as it is. */
  lemma {:induction false} SubNoLit(s: string, p: Pattern, f: string -> string)
    requires !Contains(s, p.lit)
    ensures Sub(s, p, f) == s
    decreases |s|
  {
    if s != [] {
      SubNoLit(s[1..], p, f);
    }
  }

  /**
   * A prefix in which no match can start — the literal does not occur in it and does not
   * straddle its end — is kept verbatim, and the rest is substituted on its own.
   */
  lemma {:induction false} SubKeep(x: string, y: string, p: Pattern, f: string -> string)
    requires !Contains(x, p.lit)
    requires x == [] || x[|x| - 1] !in p.lit
    ensures Sub(x + y, p, f) == x + Sub(y, p, f)
    decreases |x|
  {
    if x == [] {
      assert x + y == y;
    } else {
      var s := x + y;
      NoLitStart(x, y, p);
      SubStep(s, p, f);
      assert s[1..] == x[1..] + y;
      SubKeep(x[1..], y, p, f);
      HeadTail(x, Sub(y, p, f));
    }
  }

  /** Text that does not start with the literal loses its first character to the output unchanged. */
  lemma SubStep(s: string, p: Pattern, f: string -> string)
    requires s != [] && !(p.lit <= s)
    ensures Sub(s, p, f) == [s[0]] + Sub(s[1..], p, f)
  {
    assert BodyStart(s, p).None?;
  }

  /** The literal cannot start a text whose first part neither holds it nor ends inside it. */
  lemma NoLitStart(x: string, y: string, p: Pattern)
    requires x != [] && !Contains(x, p.lit) && x[|x| - 1] !in p.lit
    ensures !(p.lit <= x + y)
  {
    var s := x + y;
    assert !(p.lit <= x);
    if |p.lit| <= |x| {
      assert s[..|p.lit|] == x[..|p.lit|];
    } else {
      assert s[|x| - 1] == x[|x| - 1];
    }
  }

  /** A complete match at the start is replaced, and the rest is substituted on its own. */
  lemma SubTake(m: string, y: string, p: Pattern, f: string -> string)
    requires MatchLen(m, p) == Some(|m|)
    ensures Sub(m + y, p, f) == f(m) + Sub(y, p, f)
  {
    MatchExtends(m, y, p);
    assert (m + y)[..|m|] == m;
    assert (m + y)[|m|..] == y;
  }

  /** A text that is one complete match is replaced as a whole. */
  lemma SubWhole(m: string, p: Pattern, f: string -> string)
    requires MatchLen(m, p) == Some(|m|)
    ensures Sub(m, p, f) == f(m)
  {
    SubTake(m, [], p, f);
    assert m + [] == m;
    assert f(m) + [] == f(m);
  }

  /** A piece of text as the substitution sees it: a character it steps over, or a whole match. */
  datatype Piece = Kept(c: char) | Matched(m: string)

  /** How the substitution cuts `s` into pieces; the cut does not depend on the replacement. */
  function Split(s: string, p: Pattern): seq<Piece>
    decreases |s|
  {
    if s == [] then []
    else
      match MatchLen(s, p)
      case Some(n) => [Matched(s[..n])] + Split(s[n..], p)
      case None => [Kept(s[0])] + Split(s[1..], p)
  }

  /** The text the pieces came from. */
  function Original(pieces: seq<Piece>): string {
    if pieces == [] then []
    else
      match pieces[0]
      case Kept(c) => [c] + Original(pieces[1..])
      case Matched(m) => m + Original(pieces[1..])
  }

  /** The text after each match is replaced by `f` of it and every other character is kept. */
  function Replaced(pieces: seq<Piece>, f: string -> string): string {
    if pieces == [] then []
    else
      match pieces[0]
      case Kept(c) => [c] + Replaced(pieces[1..], f)
      case Matched(m) => f(m) + Replaced(pieces[1..], f)
  }

  /**
   * Only matched text changes: `s` is cut into single characters and complete matches, gluing
   * the pieces back gives `s`, and the substitution replaces each match by `f` of it and keeps
   * every other character where it was.
   */
  lemma {:induction false} SubBySplit(s: string, p: Pattern, f: string -> string)
    ensures Original(Split(s, p)) == s
    ensures Sub(s, p, f) == Replaced(Split(s, p), f)
    ensures forall k :: 0 <= k < |Split(s, p)| && Split(s, p)[k].Matched? ==>
              MatchLen(Split(s, p)[k].m, p) == Some(|Split(s, p)[k].m|)
    decreases |s|
  {
    if s != [] {
      var n := if MatchLen(s, p).Some? then MatchLen(s, p).value else 1;
      var rest := Split(s[n..], p);
      SubBySplit(s[n..], p, f);
      var pc := if MatchLen(s, p).Some? then Matched(s[..n]) else Kept(s[0]);
      assert Split(s, p) == [pc] + rest;
      assert ([pc] + rest)[1..] == rest;
      if MatchLen(s, p).Some? {
        MatchPrefix(s, p);
      } else {
        assert s == [s[0]] + s[1..];
      }
      forall k | 0 < k < |Split(s, p)| && Split(s, p)[k].Matched?
        ensures MatchLen(Split(s, p)[k].m, p) == Some(|Split(s, p)[k].m|)
      {
        assert Split(s, p)[k] == rest[k - 1];
      }
    }
  }

  /** A match is also a complete match of itself alone. */
  lemma MatchPrefix(s: string, p: Pattern)
    requires MatchLen(s, p).Some?
    ensures MatchLen(s[..MatchLen(s, p).value], p) == Some(MatchLen(s, p).value)
    ensures s[..MatchLen(s, p).value] + s[MatchLen(s, p).value..] == s
  {
    var n := MatchLen(s, p).value;
    OpeningSpec(s, p);
    ShapeOfMatch(p, s);
    var ws, body :| ShapeOk(p, ws, body) && s[..n] == Assemble(p, ws, body);
    MatchOfShape(p, ws, body);
    assert s[..n] + s[n..] == s;
  }

  // ---------------------------------------------------------------------------------------------
  // Applying a substitution twice

  /** No proper suffix of `w` is also a prefix of it, so two occurrences of `w` never overlap. */
  predicate Unbordered(w: string) {
    forall k :: 0 < k < |w| ==> w[k..] != w[..|w| - k]
  }

  /** The conditions under which a match cannot be created or destroyed by rewriting a later match. */
  predicate WellBehaved(p: Pattern) {
    && |p.lit| > 0
    && Unbordered(p.lit)
    && !IsSpace(p.lit[0])
    && p.term !in p.lit
    && (p.open.Some? ==> p.open.value != p.lit[0] && !IsSpace(p.open.value))
  }

  /** Two occurrences of a literal closer together than its length overlap in a border. */
  lemma Overlap(w: string, t: string, j: nat)
    requires w <= t && j + |w| <= |t| && w <= t[j..] && 0 < j < |w|
    ensures w[j..] == w[..|w| - j]
  {
    assert w[j..] == t[j..|w|];
    assert t[j..|w|] == t[j..][..|w| - j];
  }

  /**
   * Replacing the text from a later match on (`y`, which starts with the literal and holds a
   * terminator) by other text that also starts with the literal (`z`) cannot create a match at
   * the start of `x`.
   */
  lemma NoMatchKept(p: Pattern, x: string, y: string, z: string)
    requires WellBehaved(p)
    requires |x| > 0 && p.lit <= y && p.lit <= z && p.term in y
    requires MatchLen(x + y, p).None?
    ensures MatchLen(x + z, p).None?
  {
    var L := |p.lit|;
    if |x| < L {
      LiteralCannotOverlap(p, x, z);
    } else if p.lit <= x {
      SameBodyStart(p, x, y, z);
      var bs := BodyStart(x + y, p);
      if bs.Some? {
        var b := bs.value;
        assert (x + y)[b..] == x[b..] + y;
        assert (x + z)[b..] == x[b..] + z;
        assert p.term in x[b..] by {
          if p.term !in x[b..] {
            TermFoundInLaterMatch(p, x[b..], y);
            assert false;
          }
        }
        IndexOfAppendLeft(x[b..], y, p.term);
        IndexOfAppendLeft(x[b..], z, p.term);
      }
    } else {
      assert (x + z)[..L] == x[..L];
    }
  }

  /** The literal cannot start both at 0 and at `|x| < |lit|`, since it has no border. */
  lemma LiteralCannotOverlap(p: Pattern, x: string, z: string)
    requires WellBehaved(p)
    requires 0 < |x| < |p.lit| && p.lit <= z
    ensures !(p.lit <= x + z)
  {
    var t := x + z;
    if p.lit <= t {
      assert t[|x|..] == z;
      Overlap(p.lit, t, |x|);
      assert false;
    }
  }

  /**
   * With the literal inside `x`, where the body starts does not depend on what follows `x`, as
   * long as that starts with the literal's first character; and the body starts within `x`.
   */
  lemma SameBodyStart(p: Pattern, x: string, y: string, z: string)
    requires WellBehaved(p)
    requires p.lit <= x && p.lit <= y && p.lit <= z
    ensures BodyStart(x + y, p) == BodyStart(x + z, p)
    ensures BodyStart(x + y, p).Some? ==> BodyStart(x + y, p).value <= |x|
  {
    var L := |p.lit|;
    assert (x + y)[..L] == x[..L] == (x + z)[..L];
    if p.open.Some? {
      var u := x[L..];
      assert (x + y)[L..] == u + y;
      assert (x + z)[L..] == u + z;
      assert y[0] == p.lit[0] == z[0];
      LeadingSpacesAppend(u, y);
      LeadingSpacesAppend(u, z);
      var e := L + LeadingSpaces(u);
      if e == |x| {
        assert (x + y)[e] == y[0] && (x + z)[e] == z[0];
      } else {
        assert (x + y)[e] == x[e] == (x + z)[e];
      }
    }
  }

  /** With no terminator before it, the terminator of a later match ends a non-empty body. */
  lemma TermFoundInLaterMatch(p: Pattern, u: string, y: string)
    requires WellBehaved(p)
    requires p.term !in u && p.lit <= y && p.term in y
    ensures IndexOf(u + y, p.term).Some?
    ensures IndexOf(u + y, p.term).value != 0
  {
    IndexOfAppendRight(u, y, p.term);
    IndexOfSpec(y, p.term);
    if u == [] {
      assert y[0] == p.lit[0] != p.term;
    }
  }

  /** Whether every match the substitution meets in `s` satisfies `P`. */
  predicate AllMatches(s: string, p: Pattern, P: string -> bool)
    decreases |s|
  {
    if s == [] then true
    else
      match MatchLen(s, p)
      case Some(n) => P(s[..n]) && AllMatches(s[n..], p, P)
      case None => AllMatches(s[1..], p, P)
  }

  /**
   * Substituting twice is substituting once, when every match met satisfies a condition `P`
   * under which its replacement is itself a complete match that `f` leaves unchanged.
   */
  lemma {:induction false} SubIdempotent(s: string, p: Pattern, f: string -> string, P: string -> bool)
    requires WellBehaved(p)
    requires forall m :: P(m) ==> MatchLen(f(m), p) == Some(|f(m)|) && f(f(m)) == f(m)
    requires AllMatches(s, p, P)
    ensures Sub(Sub(s, p, f), p, f) == Sub(s, p, f)
    decreases |s|
  {
    if s != [] {
      match MatchLen(s, p)
      case Some(n) =>
        var m := s[..n];
        SubIdempotent(s[n..], p, f, P);
        SubTake(f(m), Sub(s[n..], p, f), p, f);
      case None =>
        var rest := s[1..];
        SubIdempotent(rest, p, f, P);
        assert [s[0]] + rest == s;
        StillNoMatch([s[0]], rest, p, f, P);
        assert Sub(s, p, f) == [s[0]] + Sub(rest, p, f);
        assert Sub(s, p, f)[1..] == Sub(rest, p, f);
    }
  }

  /** A position where the first pass found no match has none in the second pass either. */
  lemma {:induction false} StillNoMatch(x: string, r: string, p: Pattern, f: string -> string, P: string -> bool)
    requires WellBehaved(p)
    requires forall m :: P(m) ==> MatchLen(f(m), p) == Some(|f(m)|) && f(f(m)) == f(m)
    requires x != [] && MatchLen(x + r, p).None? && AllMatches(r, p, P)
    ensures MatchLen(x + Sub(r, p, f), p).None?
    decreases |r|
  {
    if r == [] {
      assert x + r == x;
    } else if MatchLen(r, p).Some? {
      var n := MatchLen(r, p).value;
      var m := r[..n];
      assert P(m);
      assert Sub(r, p, f) == f(m) + Sub(r[n..], p, f);
      NoMatchBeforeMatch(p, x, r, f(m), Sub(r[n..], p, f));
    } else {
      var x' := x + [r[0]];
      assert x' + r[1..] == x + r;
      StillNoMatch(x', r[1..], p, f, P);
      assert Sub(r, p, f) == [r[0]] + Sub(r[1..], p, f);
      SeqAssoc(x, [r[0]], Sub(r[1..], p, f));
    }
  }

  /** Where the text from a later match on is replaced by a complete match and more, no match appears before it. */
  lemma NoMatchBeforeMatch(p: Pattern, x: string, r: string, fm: string, rest: string)
    requires WellBehaved(p)
    requires x != [] && MatchLen(x + r, p).None? && MatchLen(r, p).Some?
    requires MatchLen(fm, p) == Some(|fm|)
    ensures MatchLen(x + (fm + rest), p).None?
  {
    var n := MatchLen(r, p).value;
    MatchLenSpec(r, p);
    MatchLenSpec(fm, p);
    assert p.lit <= fm + rest;
    assert p.term in r by {
      assert r[n - 1] == p.term;
    }
    NoMatchKept(p, x, r, fm + rest);
  }

  // ---------------------------------------------------------------------------------------------
  // re.search

  /** Whether the part of `p` up to its body (`lit\s*open`) occurs anywhere in `s`. */
  predicate Found(s: string, p: Pattern)
    decreases |s|
  {
    BodyStart(s, p).Some? || (s != [] && Found(s[1..], p))
  }

  /** What the search finds starts with the literal. */
  lemma {:induction false} FoundContains(s: string, p: Pattern)
    requires Found(s, p)
    ensures Contains(s, p.lit)
    decreases |s|
  {
    if BodyStart(s, p).None? {
      FoundContains(s[1..], p);
    }
  }

  /** The literal immediately followed by the opener is always found. */
  lemma {:induction false} ContainsFound(s: string, p: Pattern)
    requires p.open.Some? && !IsSpace(p.open.value)
    requires Contains(s, p.lit + [p.open.value])
    ensures Found(s, p)
    decreases |s|
  {
    var w := p.lit + [p.open.value];
    if w <= s {
      assert p.lit <= s;
      var t := s[|p.lit|..];
      assert t[0] == p.open.value;
    } else {
      ContainsFound(s[1..], p);
    }
  }
}
