/**
 * Well-formed CSS rule blocks as the two font updaters meet them in the section files: a class
 * selector, a `{`, a list of declarations, whitespace and a `}`.  A block of that form is
 * described by a `Block` value; `BlockText` renders it.  The updaters' text rewrites are proved
 * to act on such blocks exactly as simple operations on the declaration list.
 */
module CssDecls {
  import opened Wrappers
  import opened Text
  import opened CssScan

  const FontFamily := "font-family"
  const FontSize := "font-size"
  const FontWeight := "font-weight"

  predicate IsFontKey(k: string) {
    k == FontFamily || k == FontSize || k == FontWeight
  }

  /** A character that none of the three property names contains. */
  predicate Sep(c: char) {
    c !in FontFamily && c !in FontSize && c !in FontWeight
  }

  /** Text in which none of the three property names occurs. */
  predicate WordFree(s: string) {
    !Contains(s, FontFamily) && !Contains(s, FontSize) && !Contains(s, FontWeight)
  }

  // ---------------------------------------------------------------------------------------------
  // Facts about the three property names

  /** The property names are made of lower-case letters and `-`. */
  predicate NameChar(c: char) {
    'a' <= c <= 'z' || c == '-'
  }

  lemma KeysAreNameChars()
    ensures forall c :: c in FontFamily ==> NameChar(c)
    ensures forall c :: c in FontSize ==> NameChar(c)
    ensures forall c :: c in FontWeight ==> NameChar(c)
  {
  }

  /** Every character outside the property names' alphabet separates them. */
  lemma NonNameSep(c: char)
    requires !NameChar(c)
    ensures Sep(c)
  {
    KeysAreNameChars();
  }

  lemma SpaceSep(c: char)
    requires IsSpace(c)
    ensures Sep(c) && !NameChar(c)
  {
    NonNameSep(c);
  }

  /** Each property name starts with `f` and holds no whitespace. */
  lemma KeyChars(k: string)
    requires IsFontKey(k)
    ensures |k| > 0 && k[0] == 'f'
    ensures forall c :: c in k ==> NameChar(c)
  {
    KeysAreNameChars();
  }

  /** A declaration's property name and colon hold no other property name. */
  lemma KeysDistinct(k: string, w: string)
    requires IsFontKey(k) && IsFontKey(w) && k != w
    ensures !Contains(k + ":", w)
  {
    var s := k + ":";
    if |w| > |s| {
      if Contains(s, w) {
        ContainsFacts(s, w);
      }
    } else {
      if Contains(s, w) {
        var i := ContainsOccurs(s, w);
        KeyOccurrence(k, w, i);
      }
    }
  }

  /** A property name occurs in a property name and colon only as that same name. */
  lemma KeyOccurrence(k: string, w: string, i: nat)
    requires IsFontKey(k) && IsFontKey(w) && OccursAt(k + ":", w, i)
    ensures k == w
  {
    var s := k + ":";
    assert s[i..i + |w|][5] == s[i + 5];
  }

  /** Joining word-free texts across a separator character gives word-free text. */
  lemma JoinFree(x: string, y: string)
    requires WordFree(x) && WordFree(y)
    requires x == [] || y == [] || Sep(x[|x| - 1]) || Sep(y[0])
    ensures WordFree(x + y)
  {
    if x == [] {
      assert x + y == y;
    } else if y == [] {
      assert x + y == x;
    } else {
      ContainsAcross(x, y, FontFamily);
      ContainsAcross(x, y, FontSize);
      ContainsAcross(x, y, FontWeight);
    }
  }

  /** Whitespace holds no property name. */
  lemma SpaceFree(ws: string)
    requires AllSpace(ws)
    ensures WordFree(ws)
  {
    forall c | c in ws ensures Sep(c) {
      SpaceSep(c);
    }
    if Contains(ws, FontFamily) {
      ContainsFacts(ws, FontFamily);
    }
    if Contains(ws, FontSize) {
      ContainsFacts(ws, FontSize);
    }
    if Contains(ws, FontWeight) {
      ContainsFacts(ws, FontWeight);
    }
  }

  // ---------------------------------------------------------------------------------------------
  // Declarations

  /**
   * One declaration of a block, with the whitespace that precedes it: a font declaration
   * `key:` + `gap` + `value` + `;`, or any other declaration, which the updaters never touch.
   */
  datatype Item = Font(lead: string, key: string, gap: string, value: string) | Other(lead: string, text: string)

  /** What the declaration regular expressions match: name, colon, whitespace, value, semicolon. */
  function Decl(key: string, gap: string, value: string): string {
    key + ":" + gap + value + ";"
  }

  function ItemText(it: Item): string {
    match it
    case Font(lead, key, gap, value) => lead + Decl(key, gap, value)
    case Other(lead, text) => lead + text
  }

  /** A value the updaters can rewrite cleanly: non-empty, without `;` or `}`, free of property names. */
  predicate ValidValue(v: string) {
    v != [] && ';' !in v && '}' !in v && WordFree(v)
  }

  predicate ValidItem(it: Item) {
    && AllSpace(it.lead)
    && match it
       case Font(_, key, gap, value) => IsFontKey(key) && AllSpace(gap) && ValidValue(value)
       case Other(_, text) =>
         && text != [] && !IsSpace(text[0]) && text[|text| - 1] == ';'
         && '}' !in text && WordFree(text)
  }

  /** Text shorter than every property name holds none of them. */
  lemma ShortFree(s: string)
    requires |s| < 9
    ensures WordFree(s)
  {
    if Contains(s, FontFamily) {
      ContainsFacts(s, FontFamily);
    }
    if Contains(s, FontSize) {
      ContainsFacts(s, FontSize);
    }
    if Contains(s, FontWeight) {
      ContainsFacts(s, FontWeight);
    }
  }

  /** What follows the colon of a font declaration is free of property names. */
  lemma DeclRestFree(gap: string, value: string)
    requires AllSpace(gap) && ValidValue(value)
    ensures WordFree(gap + value + ";")
  {
    SpaceFree(gap);
    if gap != [] {
      SpaceSep(gap[|gap| - 1]);
    }
    JoinFree(gap, value);
    ShortFree(";");
    NonNameSep(';');
    JoinFree(gap + value, ";");
  }

  /** A declaration holds exactly one property name: its own. */
  lemma DeclWords(key: string, gap: string, value: string, w: string)
    requires IsFontKey(key) && IsFontKey(w) && AllSpace(gap) && ValidValue(value)
    ensures Contains(Decl(key, gap, value), w) <==> key == w
  {
    var d := Decl(key, gap, value);
    var head, rest := key + ":", gap + value + ";";
    assert d == head + rest;
    if key == w {
      assert w <= d;
    } else {
      DeclRestFree(gap, value);
      KeysDistinct(key, w);
      NonNameSep(':');
      ContainsAcross(head, rest, w);
    }
  }

  /** Facts about a declaration's text: the names it holds, its last character, no `}`. */
  lemma ItemWords(it: Item, w: string)
    requires ValidItem(it) && IsFontKey(w)
    ensures Contains(ItemText(it), w) <==> it.Font? && it.key == w
    ensures ItemText(it) != [] && ItemText(it)[|ItemText(it)| - 1] == ';'
  {
    SpaceFree(it.lead);
    var body := if it.Font? then Decl(it.key, it.gap, it.value) else it.text;
    assert ItemText(it) == it.lead + body;
    if it.Font? {
      DeclWords(it.key, it.gap, it.value, w);
    }
    if it.lead == [] {
      assert ItemText(it) == body;
    } else {
      var lead := it.lead;
      var c := lead[|lead| - 1];
      assert c !in w by {
        SpaceSep(c);
        KeyChars(w);
      }
      ContainsAcross(lead, body, w);
    }
  }

  /** A declaration's text holds no `}`. */
  lemma ItemNoBrace(it: Item)
    requires ValidItem(it)
    ensures '}' !in ItemText(it)
  {
    if it.Font? {
      KeyChars(it.key);
      assert Decl(it.key, it.gap, it.value) == it.key + ":" + it.gap + it.value + ";";
    }
  }

  // ---------------------------------------------------------------------------------------------
  // Declaration lists and blocks

  function ItemsText(items: seq<Item>): string {
    if items == [] then [] else ItemText(items[0]) + ItemsText(items[1..])
  }

  predicate ValidItems(items: seq<Item>) {
    forall i :: 0 <= i < |items| ==> ValidItem(items[i])
  }

  /** Whether the list holds a font declaration of property `key`. */
  function HasKey(items: seq<Item>, key: string): bool {
    items != [] && ((items[0].Font? && items[0].key == key) || HasKey(items[1..], key))
  }

  /** The property names a declaration list holds are those of its font declarations. */
  lemma {:induction false} ItemsWords(items: seq<Item>, w: string)
    requires ValidItems(items) && IsFontKey(w)
    ensures Contains(ItemsText(items), w) <==> HasKey(items, w)
    ensures ItemsText(items) == [] || ItemsText(items)[|ItemsText(items)| - 1] == ';'
    ensures '}' !in ItemsText(items)
    decreases |items|
  {
    if items != [] {
      var x, y := ItemText(items[0]), ItemsText(items[1..]);
      assert ValidItem(items[0]);
      ItemsWords(items[1..], w);
      ItemWords(items[0], w);
      ItemNoBrace(items[0]);
      NonNameSep(';');
      ContainsAcross(x, y, w);
    }
  }

  /**
   * A rule block for class `name`: whitespace before `{`, the declarations, whitespace before
   * `}`.
   */
  datatype Block = Block(ws: string, items: seq<Item>, tail: string)

  /** The selector and opening brace, as the block pattern finds them. */
  function Head(name: string, ws: string): string {
    "." + name + ws + "{"
  }

  function BlockText(name: string, b: Block): string {
    Head(name, b.ws) + (ItemsText(b.items) + (b.tail + "}"))
  }

  /** A class name as the section files use them: no `.`, braces or whitespace, no property name. */
  predicate ValidName(name: string) {
    && name != []
    && (forall i :: 0 <= i < |name| ==> name[i] != '.' && name[i] != '{' && name[i] != '}' && !IsSpace(name[i]))
    && WordFree(name)
  }

  predicate ValidBlock(b: Block) {
    AllSpace(b.ws) && ValidItems(b.items) && AllSpace(b.tail)
  }

  /** The selector holds no property name. */
  lemma HeadFree(name: string, ws: string)
    requires ValidName(name) && AllSpace(ws)
    ensures WordFree(Head(name, ws))
  {
    NonNameSep('.');
    NonNameSep('{');
    ShortFree(".");
    ShortFree("{");
    SpaceFree(ws);
    JoinFree(".", name);
    if ws != [] {
      SpaceSep(ws[0]);
    }
    JoinFree("." + name, ws);
    assert Head(name, ws) == "." + name + ws + "{";
    JoinFree("." + name + ws, "{");
  }

  /** The closing part holds no property name. */
  lemma TailFree(tail: string)
    requires AllSpace(tail)
    ensures WordFree(tail + "}")
  {
    NonNameSep('}');
    ShortFree("}");
    SpaceFree(tail);
    JoinFree(tail, "}");
  }

  /** A property name occurs in a well-formed block exactly when the block declares it. */
  lemma BlockWords(name: string, b: Block, w: string)
    requires ValidName(name) && ValidBlock(b) && IsFontKey(w)
    ensures Contains(BlockText(name, b), w) <==> HasKey(b.items, w)
  {
    HeadFree(name, b.ws);
    TailFree(b.tail);
    ItemsWords(b.items, w);
    NonNameSep('{');
    NonNameSep(';');
    var h := Head(name, b.ws);
    assert h[|h| - 1] == '{';
    Between(h, ItemsText(b.items), b.tail + "}", w);
  }

  /** A word that occurs in neither outer part, across separators, occurs in the whole as in the middle. */
  lemma Between(h: string, d: string, t: string, w: string)
    requires !Contains(h, w) && !Contains(t, w)
    requires h != [] && h[|h| - 1] !in w
    requires d == [] || d[|d| - 1] !in w
    ensures Contains(h + (d + t), w) <==> Contains(d, w)
  {
    if d == [] {
      assert d + t == t;
    } else {
      ContainsAcross(d, t, w);
    }
    ContainsAcross(h, d + t, w);
  }

  // ---------------------------------------------------------------------------------------------
  // The declaration patterns on a declaration list

  /** `key:\s*[^;]+;`, the declaration pattern of the enumerating updater. */
  function BatchDecl(key: string): Pattern {
    Pattern(key + ":", None, ';', true)
  }

  /** `key\s*:\s*[^;]+;`, the declaration pattern of the inferring updater. */
  function SmartDecl(key: string): Pattern {
    Pattern(key, Some(':'), ';', true)
  }

  predicate DeclPattern(p: Pattern, key: string) {
    IsFontKey(key) && (p == BatchDecl(key) || p == SmartDecl(key))
  }

  /** A font declaration is one complete match of its property's pattern. */
  lemma DeclIsMatch(p: Pattern, key: string, gap: string, value: string)
    requires DeclPattern(p, key) && AllSpace(gap) && ValidValue(value)
    ensures MatchLen(Decl(key, gap, value), p) == Some(|Decl(key, gap, value)|)
  {
    var body := gap + value;
    assert p.term !in body by {
      assert p.term == ';';
      if ';' in gap {
        SpaceSep(';');
      }
    }
    assert Assemble(p, [], body) == Decl(key, gap, value);
    MatchOfShape(p, [], body);
  }

  /** `key:`, a body without `;`, and `;` form one complete match, whatever the body holds. */
  lemma DeclBodyMatch(p: Pattern, key: string, body: string)
    requires DeclPattern(p, key) && body != [] && ';' !in body
    ensures MatchLen(key + ":" + body + ";", p) == Some(|key + ":" + body + ";"|)
  {
    assert Assemble(p, [], body) == key + ":" + body + ";";
    MatchOfShape(p, [], body);
  }

  /** Where a declaration pattern's literal cannot start: whitespace, and other declarations. */
  lemma LitNotIn(p: Pattern, key: string, s: string)
    requires DeclPattern(p, key)
    requires !Contains(s, key)
    ensures !Contains(s, p.lit)
  {
    if p == BatchDecl(key) && Contains(s, p.lit) {
      ContainsPrefixWord(s, key, ":");
    }
  }

  lemma LitChars(p: Pattern, key: string, c: char)
    requires DeclPattern(p, key)
    requires IsSpace(c) || c == ';'
    ensures c !in p.lit
  {
    KeyChars(key);
    SpaceSep(' ');
  }

  /** What a declaration becomes when every match of `key`'s pattern is replaced by `g` of it. */
  function ItemRewrite(it: Item, key: string, g: string -> string): string {
    if it.Font? && it.key == key then it.lead + g(Decl(key, it.gap, it.value)) else ItemText(it)
  }

  function RewriteItems(items: seq<Item>, key: string, g: string -> string): string {
    if items == [] then [] else ItemRewrite(items[0], key, g) + RewriteItems(items[1..], key, g)
  }

  /** The substitution meets a declaration: its leading whitespace and any other declaration are kept. */
  lemma SubItem(it: Item, r: string, p: Pattern, key: string, g: string -> string)
    requires DeclPattern(p, key) && ValidItem(it)
    ensures Sub(ItemText(it) + r, p, g) == ItemRewrite(it, key, g) + Sub(r, p, g)
  {
    if it.Font? && it.key == key {
      SubFontItem(it, r, p, key, g);
    } else {
      ItemWords(it, key);
      LitNotIn(p, key, ItemText(it));
      LitChars(p, key, ';');
      SubKeep(ItemText(it), r, p, g);
    }
  }

  lemma SubFontItem(it: Item, r: string, p: Pattern, key: string, g: string -> string)
    requires DeclPattern(p, key) && ValidItem(it) && it.Font? && it.key == key
    ensures Sub(ItemText(it) + r, p, g) == it.lead + g(Decl(key, it.gap, it.value)) + Sub(r, p, g)
  {
    var d := Decl(key, it.gap, it.value);
    SpaceFree(it.lead);
    LitNotIn(p, key, it.lead);
    if it.lead != [] {
      LitChars(p, key, it.lead[|it.lead| - 1]);
    }
    SeqAssoc(it.lead, d, r);
    SubKeep(it.lead, d + r, p, g);
    DeclIsMatch(p, key, it.gap, it.value);
    SubTake(d, r, p, g);
    SeqAssoc(it.lead, g(d), Sub(r, p, g));
  }

  lemma ItemsTextTwo(a: Item, b: Item)
    ensures ItemsText([a, b]) == ItemText(a) + ItemText(b)
  {
    assert [a, b][1..] == [b];
    assert [b][1..] == [];
    assert ItemsText([b]) == ItemText(b) + [];
    assert ItemText(b) + [] == ItemText(b);
  }

  lemma HasKeyOne(it: Item, key: string)
    ensures HasKey([it], key) == (it.Font? && it.key == key)
  {
    assert [it][1..] == [];
  }

  lemma HasKeyTwo(a: Item, b: Item, key: string)
    ensures HasKey([a, b], key) == ((a.Font? && a.key == key) || (b.Font? && b.key == key))
  {
    assert [a, b][1..] == [b];
    HasKeyOne(b, key);
  }

  /** The three property names differ. */
  lemma KeysDiffer()
    ensures FontSize != FontWeight && FontSize != FontFamily && FontWeight != FontFamily
  {
    assert FontSize[5] != FontWeight[5];
    assert FontSize[5] != FontFamily[5];
    assert FontWeight[5] != FontFamily[5];
  }

  lemma ItemsTextCons(items: seq<Item>, r: string)
    requires items != []
    ensures ItemsText(items) + r == ItemText(items[0]) + (ItemsText(items[1..]) + r)
  {
  }

  /** The substitution runs over a declaration list declaration by declaration. */
  lemma {:induction false} SubItems(items: seq<Item>, r: string, p: Pattern, key: string, g: string -> string)
    requires DeclPattern(p, key) && ValidItems(items)
    ensures Sub(ItemsText(items) + r, p, g) == RewriteItems(items, key, g) + Sub(r, p, g)
    decreases |items|
  {
    if items == [] {
      assert ItemsText(items) + r == r;
    } else {
      assert ValidItem(items[0]);
      ItemsTextCons(items, r);
      SubItem(items[0], ItemsText(items[1..]) + r, p, key, g);
      SubItems(items[1..], r, p, key, g);
      SeqAssoc(ItemRewrite(items[0], key, g), RewriteItems(items[1..], key, g), Sub(r, p, g));
    }
  }

  /** On a whole block, the substitution keeps the selector and the closing part. */
  lemma SubBlock(name: string, b: Block, p: Pattern, key: string, g: string -> string)
    requires ValidName(name) && ValidBlock(b) && DeclPattern(p, key)
    ensures Sub(BlockText(name, b), p, g) == Head(name, b.ws) + (RewriteItems(b.items, key, g) + (b.tail + "}"))
  {
    var h, t := Head(name, b.ws), b.tail + "}";
    HeadFree(name, b.ws);
    TailFree(b.tail);
    LitNotIn(p, key, h);
    LitNotIn(p, key, t);
    KeyChars(key);
    assert h[|h| - 1] == '{';
    SubKeep(h, ItemsText(b.items) + t, p, g);
    SubItems(b.items, t, p, key, g);
    SubNoLit(t, p, g);
  }

  // ---------------------------------------------------------------------------------------------
  // The block pattern

  /** `\.name\s*\{[^}]*?\}`: the selector, whitespace, `{`, anything up to the first `}`. */
  function BlockPattern(name: string): Pattern {
    Pattern("." + name, Some('{'), '}', false)
  }

  /** A well-formed block is one complete match of its class's block pattern. */
  lemma BlockIsMatch(name: string, b: Block)
    requires ValidName(name) && ValidBlock(b)
    ensures MatchLen(BlockText(name, b), BlockPattern(name)) == Some(|BlockText(name, b)|)
  {
    var p := BlockPattern(name);
    var body := ItemsText(b.items) + b.tail;
    ItemsWords(b.items, FontFamily);
    assert '}' !in body by {
      if '}' in b.tail {
        SpaceSep('}');
      }
    }
    NonNameSep('{');
    SpaceSep(' ');
    assert Assemble(p, b.ws, body) == BlockText(name, b);
    MatchOfShape(p, b.ws, body);
  }

  /** The block pattern of a valid class name cannot overlap itself or its replacement. */
  lemma BlockPatternWellBehaved(name: string)
    requires ValidName(name)
    ensures WellBehaved(BlockPattern(name))
  {
    var w := "." + name;
    forall k | 0 < k < |w| ensures w[k..] != w[..|w| - k] {
      assert w[k..][0] == name[k - 1] != '.';
    }
    SpaceSep(' ');
    assert !IsSpace('{') && !IsSpace('.');
  }

  // ---------------------------------------------------------------------------------------------
  // Operations on declaration lists

  /** Every declaration of `key` gets the value `v`, written after a single space. */
  function SetValue(items: seq<Item>, key: string, v: string): seq<Item> {
    if items == [] then []
    else
      var it := items[0];
      [if it.Font? && it.key == key then it.(gap := " ", value := v) else it] + SetValue(items[1..], key, v)
  }

  /** `extra` is inserted after every declaration of `key`. */
  function AddAfter(items: seq<Item>, key: string, extra: Item): seq<Item> {
    if items == [] then []
    else
      var it := items[0];
      Here(it, key, extra) + AddAfter(items[1..], key, extra)
  }

  /** Whether every declaration of `key` already has the value `v` after a single space. */
  predicate Settled(items: seq<Item>, key: string, v: string) {
    items != [] ==>
      && (items[0].Font? && items[0].key == key ==> items[0].gap == " " && items[0].value == v)
      && Settled(items[1..], key, v)
  }

  /** The text of the declarations other than font declarations, in order (whitespace before them aside). */
  function Others(items: seq<Item>): seq<string> {
    if items == [] then []
    else (if items[0].Other? then [items[0].text] else []) + Others(items[1..])
  }

  /** The replacement text the updaters write for a declaration: `key: v;`. */
  function Replacement(key: string, v: string): string {
    key + ": " + v + ";"
  }

  lemma ReplacementDecl(key: string, v: string)
    ensures Replacement(key, v) == Decl(key, " ", v)
  {
  }

  function Const(t: string): string -> string {
    m => t
  }

  /**
   * A declaration match between a prefix that ends in a space and a suffix, neither of which holds
   * the property name, is the only text the declaration substitution replaces.
   */
  lemma SubOne(x: string, m: string, y: string, p: Pattern, key: string, g: string -> string)
    requires DeclPattern(p, key)
    requires !Contains(x, key) && x != [] && x[|x| - 1] == ' '
    requires MatchLen(m, p) == Some(|m|) && !Contains(y, key)
    ensures Sub(x + m + y, p, g) == x + g(m) + y
  {
    LitNotIn(p, key, x);
    LitNotIn(p, key, y);
    LitChars(p, key, ' ');
    SubKeep(x, m + y, p, g);
    SubTake(m, y, p, g);
    SubNoLit(y, p, g);
    SeqAssoc(x, m, y);
    SeqAssoc(x, g(m), y);
  }

  function Append(t: string): string -> string {
    m => m + t
  }

  /** Replacing each match by `key: v;` sets the value of every declaration of `key`. */
  lemma {:induction false} RewriteSet(items: seq<Item>, key: string, v: string)
    ensures RewriteItems(items, key, Const(Replacement(key, v))) == ItemsText(SetValue(items, key, v))
    decreases |items|
  {
    if items != [] {
      RewriteSet(items[1..], key, v);
      var it := items[0];
      if it.Font? && it.key == key {
        ReplacementDecl(key, v);
      }
      assert SetValue(items, key, v)[1..] == SetValue(items[1..], key, v);
    }
  }

  /** Appending a declaration's text to each match of `key` inserts that declaration after each. */
  lemma {:induction false} RewriteAdd(items: seq<Item>, key: string, extra: Item)
    ensures RewriteItems(items, key, Append(ItemText(extra))) == ItemsText(AddAfter(items, key, extra))
    decreases |items|
  {
    if items != [] {
      RewriteAdd(items[1..], key, extra);
      var here := Here(items[0], key, extra);
      assert AddAfter(items, key, extra) == here + AddAfter(items[1..], key, extra);
      ItemsAppend(here, AddAfter(items[1..], key, extra));
      RewriteAddOne(items[0], key, extra);
    }
  }

  /** What `AddAfter` makes of one declaration. */
  function Here(it: Item, key: string, extra: Item): seq<Item> {
    if it.Font? && it.key == key then [it, extra] else [it]
  }

  lemma RewriteAddOne(it: Item, key: string, extra: Item)
    ensures ItemRewrite(it, key, Append(ItemText(extra))) == ItemsText(Here(it, key, extra))
  {
    var here := Here(it, key, extra);
    if it.Font? && it.key == key {
      assert here[0] == it && here[1..] == [extra] && here[1..][0] == extra && here[1..][1..] == [];
      assert ItemsText(here[1..]) == ItemText(extra) + [];
      assert ItemsText(here) == ItemText(it) + ItemText(extra);
      SeqAssoc(it.lead, Decl(key, it.gap, it.value), ItemText(extra));
    } else {
      assert here[1..] == [];
      assert ItemsText(here) == ItemText(it) + [];
    }
  }

  lemma {:induction false} ItemsAppend(a: seq<Item>, b: seq<Item>)
    ensures ItemsText(a + b) == ItemsText(a) + ItemsText(b)
    decreases |a|
  {
    if a == [] {
      assert a + b == b;
    } else {
      assert (a + b)[0] == a[0] && (a + b)[1..] == a[1..] + b;
      ItemsAppend(a[1..], b);
      SeqAssoc(ItemText(a[0]), ItemsText(a[1..]), ItemsText(b));
    }
  }

  // ---------------------------------------------------------------------------------------------
  // What the list operations keep and change

  /** Setting values neither adds nor removes declarations of any property. */
  lemma {:induction false} SetHasKey(items: seq<Item>, key: string, v: string, w: string)
    ensures HasKey(SetValue(items, key, v), w) == HasKey(items, w)
    decreases |items|
  {
    if items != [] {
      SetHasKey(items[1..], key, v, w);
    }
  }

  /** Inserting after `key` adds the inserted property exactly when `key` was declared. */
  lemma {:induction false} AddHasKey(items: seq<Item>, key: string, extra: Item, w: string)
    requires extra.Font?
    ensures HasKey(AddAfter(items, key, extra), w) == (HasKey(items, w) || (HasKey(items, key) && extra.key == w))
    decreases |items|
  {
    if items != [] {
      AddHasKey(items[1..], key, extra, w);
      var it := items[0];
      var here := Here(it, key, extra);
      HasKeyAppend(here, AddAfter(items[1..], key, extra), w);
      if it.Font? && it.key == key {
        assert HasKey(here, w) == ((it.key == w) || HasKey([extra], w));
      } else {
        assert HasKey(here, w) == (it.Font? && it.key == w);
      }
    }
  }

  lemma {:induction false} HasKeyAppend(a: seq<Item>, b: seq<Item>, w: string)
    ensures HasKey(a + b, w) == (HasKey(a, w) || HasKey(b, w))
    decreases |a|
  {
    if a == [] {
      assert a + b == b;
    } else {
      assert (a + b)[0] == a[0] && (a + b)[1..] == a[1..] + b;
      HasKeyAppend(a[1..], b, w);
    }
  }

  /** After setting, every declaration of `key` has the value `v`. */
  lemma {:induction false} SetSettles(items: seq<Item>, key: string, v: string)
    ensures Settled(SetValue(items, key, v), key, v)
    decreases |items|
  {
    if items != [] {
      SetSettles(items[1..], key, v);
      assert SetValue(items, key, v)[1..] == SetValue(items[1..], key, v);
    }
  }

  /** Setting changes nothing exactly when every declaration of `key` already has the value. */
  lemma {:induction false} SetUnchanged(items: seq<Item>, key: string, v: string)
    ensures SetValue(items, key, v) == items <==> Settled(items, key, v)
    decreases |items|
  {
    if items != [] {
      SetUnchanged(items[1..], key, v);
      var r := SetValue(items, key, v);
      assert r[0] == (if items[0].Font? && items[0].key == key then items[0].(gap := " ", value := v) else items[0]);
      assert r[1..] == SetValue(items[1..], key, v);
      if r == items {
        assert r[1..] == items[1..];
      }
      if Settled(items, key, v) {
        assert r == [r[0]] + r[1..];
      }
    }
  }

  /** Setting one property leaves the settledness of another as it was. */
  lemma {:induction false} SetKeepsSettled(items: seq<Item>, key: string, v: string, k: string, u: string)
    requires key != k
    ensures Settled(SetValue(items, key, v), k, u) == Settled(items, k, u)
    decreases |items|
  {
    if items != [] {
      SetKeepsSettled(items[1..], key, v, k, u);
      assert SetValue(items, key, v)[1..] == SetValue(items[1..], key, v);
    }
  }

  /** Inserting a declaration that is itself settled for `k` leaves settledness for `k` as it was. */
  lemma {:induction false} AddKeepsSettled(items: seq<Item>, key: string, extra: Item, k: string, u: string)
    requires extra.Font? && (extra.key == k ==> extra.gap == " " && extra.value == u)
    ensures Settled(AddAfter(items, key, extra), k, u) == Settled(items, k, u)
    decreases |items|
  {
    if items != [] {
      AddKeepsSettled(items[1..], key, extra, k, u);
      var it := items[0];
      var here := Here(it, key, extra);
      SettledAppend(here, AddAfter(items[1..], key, extra), k, u);
      if it.Font? && it.key == key {
        assert Settled(here, k, u) == Settled([it], k, u) by {
          assert here[1..] == [extra];
          assert [it][1..] == [] && [extra][1..] == [];
          assert Settled([extra], k, u);
        }
      }
    }
  }

  lemma {:induction false} SettledAppend(a: seq<Item>, b: seq<Item>, k: string, u: string)
    ensures Settled(a + b, k, u) == (Settled(a, k, u) && Settled(b, k, u))
    decreases |a|
  {
    if a == [] {
      assert a + b == b;
    } else {
      assert (a + b)[0] == a[0] && (a + b)[1..] == a[1..] + b;
      SettledAppend(a[1..], b, k, u);
    }
  }

  /** A list without declarations of `key` is settled for it. */
  lemma {:induction false} AbsentSettled(items: seq<Item>, k: string, u: string)
    requires !HasKey(items, k)
    ensures Settled(items, k, u)
    decreases |items|
  {
    if items != [] {
      AbsentSettled(items[1..], k, u);
    }
  }

  /** Setting values keeps every other declaration, in order. */
  lemma {:induction false} SetOthers(items: seq<Item>, key: string, v: string)
    ensures Others(SetValue(items, key, v)) == Others(items)
    decreases |items|
  {
    if items != [] {
      SetOthers(items[1..], key, v);
      var r := SetValue(items, key, v);
      assert r[0].Other? == items[0].Other? && (items[0].Other? ==> r[0] == items[0]);
      assert r[1..] == SetValue(items[1..], key, v);
    }
  }

  /** Inserting font declarations keeps every other declaration, in order. */
  lemma {:induction false} AddOthers(items: seq<Item>, key: string, extra: Item)
    requires extra.Font?
    ensures Others(AddAfter(items, key, extra)) == Others(items)
    decreases |items|
  {
    if items != [] {
      AddOthers(items[1..], key, extra);
      var it := items[0];
      var here := Here(it, key, extra);
      OthersAppend(here, AddAfter(items[1..], key, extra));
      if it.Font? && it.key == key {
        assert Others(here) == [] by {
          assert here[1..] == [extra];
          assert here[1..][1..] == [];
        }
      } else {
        assert here[1..] == [];
      }
    }
  }

  lemma {:induction false} OthersAppend(a: seq<Item>, b: seq<Item>)
    ensures Others(a + b) == Others(a) + Others(b)
    decreases |a|
  {
    if a == [] {
      assert a + b == b;
    } else {
      assert (a + b)[0] == a[0] && (a + b)[1..] == a[1..] + b;
      OthersAppend(a[1..], b);
    }
  }

  /** Setting a valid value keeps a list well-formed. */
  lemma SetValid(items: seq<Item>, key: string, v: string)
    requires ValidItems(items) && ValidValue(v)
    ensures ValidItems(SetValue(items, key, v)) && |SetValue(items, key, v)| == |items|
    decreases |items|
  {
    if items != [] {
      SetValid(items[1..], key, v);
      var r := SetValue(items, key, v);
      assert r[1..] == SetValue(items[1..], key, v);
      assert ValidItem(items[0]);
      SpaceSep(' ');
      assert ValidItem(r[0]);
      forall i | 0 < i < |r| ensures ValidItem(r[i]) {
        assert r[i] == r[1..][i - 1];
      }
    }
  }

  /** Inserting a well-formed declaration keeps a list well-formed. */
  lemma {:induction false} AddValid(items: seq<Item>, key: string, extra: Item)
    requires ValidItems(items) && ValidItem(extra)
    ensures ValidItems(AddAfter(items, key, extra))
    decreases |items|
  {
    if items != [] {
      AddValid(items[1..], key, extra);
      var it := items[0];
      assert ValidItem(it);
      var here := Here(it, key, extra);
      var r := AddAfter(items, key, extra);
      assert r == here + AddAfter(items[1..], key, extra);
      forall i | 0 <= i < |r| ensures ValidItem(r[i]) {
        if i >= |here| {
          assert r[i] == AddAfter(items[1..], key, extra)[i - |here|];
        }
      }
    }
  }

  // ---------------------------------------------------------------------------------------------
  // The rewriting steps on a block's text

  /** Replacing each declaration of `key` by `key: v;` sets its value and keeps the block well-formed. */
  lemma SetBlock(name: string, b: Block, p: Pattern, key: string, v: string)
    requires ValidName(name) && ValidBlock(b) && DeclPattern(p, key) && ValidValue(v)
    ensures Sub(BlockText(name, b), p, Const(Replacement(key, v))) == BlockText(name, b.(items := SetValue(b.items, key, v)))
    ensures ValidBlock(b.(items := SetValue(b.items, key, v)))
  {
    SubBlock(name, b, p, key, Const(Replacement(key, v)));
    RewriteSet(b.items, key, v);
    SetValid(b.items, key, v);
  }

  /** Appending a declaration after each declaration of `key` inserts it into the list. */
  lemma AddBlock(name: string, b: Block, p: Pattern, key: string, extra: Item)
    requires ValidName(name) && ValidBlock(b) && DeclPattern(p, key) && ValidItem(extra)
    ensures Sub(BlockText(name, b), p, Append(ItemText(extra))) == BlockText(name, b.(items := AddAfter(b.items, key, extra)))
    ensures ValidBlock(b.(items := AddAfter(b.items, key, extra)))
  {
    SubBlock(name, b, p, key, Append(ItemText(extra)));
    RewriteAdd(b.items, key, extra);
    AddValid(b.items, key, extra);
  }

  /** Putting a declaration's text right after the first `{` makes it the block's first declaration. */
  lemma PrependBlock(name: string, b: Block, it: Item)
    requires ValidName(name) && AllSpace(b.ws)
    ensures ReplaceFirst(BlockText(name, b), "{", "{" + ItemText(it)) == BlockText(name, b.(items := [it] + b.items))
  {
    var x, r := "." + name + b.ws, ItemsText(b.items) + (b.tail + "}");
    BlockSplit(name, b);
    SelectorNoBrace(name, b.ws);
    ReplaceFirstAfter(x, r, ItemText(it));
    BlockSplit(name, b.(items := [it] + b.items));
    assert ([it] + b.items)[1..] == b.items;
    assert ItemsText([it] + b.items) == ItemText(it) + ItemsText(b.items);
    SeqAssoc(ItemText(it), ItemsText(b.items), b.tail + "}");
  }

  /** A block's text is its selector, `{`, and what follows the brace. */
  lemma BlockSplit(name: string, b: Block)
    ensures BlockText(name, b) == ("." + name + b.ws) + ("{" + (ItemsText(b.items) + (b.tail + "}")))
  {
  }

  lemma SelectorNoBrace(name: string, ws: string)
    requires ValidName(name) && AllSpace(ws)
    ensures '{' !in "." + name + ws
  {
    var x := "." + name + ws;
    forall i | 0 <= i < |x| ensures x[i] != '{' {
      if 0 < i <= |name| {
        assert x[i] == name[i - 1];
      } else if i > |name| {
        assert x[i] == ws[i - 1 - |name|];
      }
    }
  }

  /** A declaration list holds `key:` wherever it declares `key`. */
  lemma {:induction false} DeclaredText(items: seq<Item>, key: string)
    requires HasKey(items, key)
    ensures Contains(ItemsText(items), key + ":")
    decreases |items|
  {
    var it := items[0];
    var w := key + ":";
    if it.Font? && it.key == key {
      var d := Decl(key, it.gap, it.value);
      assert w <= d;
      ContainsJoin(it.lead, d, w);
      ContainsJoin(ItemText(it), ItemsText(items[1..]), w);
    } else {
      DeclaredText(items[1..], key);
      ContainsJoin(ItemText(it), ItemsText(items[1..]), w);
    }
  }

  /** Searching a well-formed block for `key\s*:` succeeds exactly when the block declares `key`. */
  lemma FoundBlock(name: string, b: Block, key: string)
    requires ValidName(name) && ValidBlock(b) && IsFontKey(key)
    ensures Found(BlockText(name, b), SmartDecl(key)) <==> HasKey(b.items, key)
  {
    var s, p := BlockText(name, b), SmartDecl(key);
    BlockWords(name, b, key);
    if Found(s, p) {
      FoundContains(s, p);
    }
    if HasKey(b.items, key) {
      DeclaredText(b.items, key);
      ContainsJoin(ItemsText(b.items), b.tail + "}", key + ":");
      ContainsJoin(Head(name, b.ws), ItemsText(b.items) + (b.tail + "}"), key + ":");
      assert key + ":" == p.lit + [p.open.value];
      ContainsFound(s, p);
    }
  }
}
