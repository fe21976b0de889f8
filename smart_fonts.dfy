/**
 * The inferring font updater (tools/smart_font_updater.py): each class name found on a page is
 * classified by keywords as a label, a title or a description, and the rule blocks of the
 * classified names are rewritten with that type's font family, size and weight.
 */
module SmartFonts {
  import opened Wrappers
  import opened Text
  import opened Files
  import opened CssScan
  import opened CssDecls
  import opened BatchFonts

  // ---------------------------------------------------------------------------------------------
  // identify_type

  const LabelKeywords: seq<string> := ["label", "tag", "subtitle", "header-label"]
  const TitleKeywords: seq<string> := ["title", "heading"]
  const DescKeywords: seq<string> := ["description", "subtitle", "desc"]

  /** `RULES`: the same values as the enumerating updater's table, for three types only. */
  function Rules(elementType: string): Option<FontRule> {
    if elementType == "label" then Some(LabelRule)
    else if elementType == "title" then Some(TitleRule)
    else if elementType == "description" then Some(DescriptionRule)
    else None
  }

  /** Whether some keyword of the list occurs in `s`. */
  function AnyKeyword(s: string, keywords: seq<string>): bool {
    keywords != [] && (Contains(s, keywords[0]) || AnyKeyword(s, keywords[1..]))
  }

  /**
   * `identify_type`: on the lower-cased name, a title keyword without "subtitle" gives title,
   * then a label keyword gives label, then a description keyword gives description.
   */
  function IdentifyType(className: string): Option<string> {
    var lower := Lower(className);
    if AnyKeyword(lower, TitleKeywords) && !Contains(lower, "subtitle") then Some("title")
    else if AnyKeyword(lower, LabelKeywords) then Some("label")
    else if AnyKeyword(lower, DescKeywords) then Some("description")
    else None
  }

  lemma {:induction false} AnyKeywordSpec(s: string, keywords: seq<string>)
    ensures AnyKeyword(s, keywords) <==> exists k :: k in keywords && Contains(s, k)
    decreases |keywords|
  {
    if keywords != [] {
      AnyKeywordSpec(s, keywords[1..]);
      assert keywords[0] in keywords;
      forall k | k in keywords ensures k == keywords[0] || k in keywords[1..] {
      }
      forall k | k in keywords[1..] ensures k in keywords {
      }
    }
  }

  /** A name and its lower-case form are classified alike. */
  lemma IdentifyCaseInsensitive(className: string)
    ensures IdentifyType(Lower(className)) == IdentifyType(className)
  {
    LowerIdempotent(className);
  }

  /**
   * The classification in full, on the lower-cased name `l`: title exactly when "title" or
   * "heading" occurs and "subtitle" does not; otherwise label exactly when "label", "tag" or
   * "subtitle" occurs; otherwise description exactly when "desc" occurs; otherwise nothing. Every
   * type produced has a rule.
   */
  lemma IdentifySpec(className: string)
    ensures var l := Lower(className);
            var isTitle := (Contains(l, "title") || Contains(l, "heading")) && !Contains(l, "subtitle");
            var isLabel := Contains(l, "label") || Contains(l, "tag") || Contains(l, "subtitle");
            var isDesc := Contains(l, "desc");
            && (IdentifyType(className) == Some("title") <==> isTitle)
            && (IdentifyType(className) == Some("label") <==> !isTitle && isLabel)
            && (IdentifyType(className) == Some("description") <==> !isTitle && !isLabel && isDesc)
            && (IdentifyType(className) == None <==> !isTitle && !isLabel && !isDesc)
            && (IdentifyType(className).Some? ==> Rules(IdentifyType(className).value).Some?)
  {
    var l := Lower(className);
    AnyKeywordSpec(l, TitleKeywords);
    AnyKeywordSpec(l, LabelKeywords);
    AnyKeywordSpec(l, DescKeywords);
    if Contains(l, "header-label") {
      assert "header-" + "label" == "header-label";
      ContainsSuffixWord(l, "header-", "label");
    }
    if Contains(l, "description") {
      assert "desc" + "ription" == "description";
      ContainsPrefixWord(l, "desc", "ription");
    }
  }

  /** A name holding "subtitle" is never a title: it is a label. */
  lemma SubtitleIsLabel(className: string)
    requires Contains(Lower(className), "subtitle")
    ensures IdentifyType(className) == Some("label")
  {
    IdentifySpec(className);
  }

  lemma ContainsSuffixWord(s: string, v: string, w: string)
    requires Contains(s, v + w)
    ensures Contains(s, w)
  {
    var i := ContainsOccurs(s, v + w);
    assert s[i + |v|..i + |v| + |w|] == (v + w)[|v|..];
    OccursContains(s, w, i + |v|);
  }

  // ---------------------------------------------------------------------------------------------
  // update_css_block, on text

  /**
   * `re.sub(r'(\{)\s*', r'\1' + t, s, count=1)`: `t` goes right after the first `{`, and the
   * whitespace that followed the brace is dropped.
   */
  function BraceInsert(s: string, t: string): string
    decreases |s|
  {
    if s == [] then []
    else if s[0] == '{' then "{" + t + s[1 + LeadingSpaces(s[1..])..]
    else [s[0]] + BraceInsert(s[1..], t)
  }

  /** The font-family step: rewrite every `font-family\s*:` declaration, or insert one after `{`. */
  function FamilyStep(block: string, v: string): string {
    if Found(block, SmartDecl(FontFamily)) then Sub(block, SmartDecl(FontFamily), Const(Replacement(FontFamily, v)))
    else BraceInsert(block, "\n    " + Replacement(FontFamily, v))
  }

  /** The font-size and font-weight steps: rewrite every declaration found; never add one. */
  function ReplaceStep(block: string, key: string, v: string): string {
    if Found(block, SmartDecl(key)) then Sub(block, SmartDecl(key), Const(Replacement(key, v))) else block
  }

  /** The `replacer` of `update_css_block`. */
  function UpdateBlock(block: string, r: FontRule): string {
    ReplaceStep(ReplaceStep(FamilyStep(block, r.family), FontSize, r.size), FontWeight, r.weight)
  }

  function Replacer(r: FontRule): string -> string {
    block => UpdateBlock(block, r)
  }

  /** `update_css_block`: every block of the class is rewritten. */
  function UpdateCssBlock(content: string, className: string, r: FontRule): string {
    Sub(content, BlockPattern(className), Replacer(r))
  }

  // ---------------------------------------------------------------------------------------------
  // The same rewriting, on a block's declarations

  function FamilyItem(v: string): Item {
    Font("\n    ", FontFamily, " ", v)
  }

  /**
   * The block after `it` was put right after its `{`: the whitespace before the first
   * declaration, or before `}` when there is none, is gone.
   */
  function Opened(b: Block, it: Item): Block {
    Block(b.ws, [it] + ClearLead(b.items), if b.items == [] then [] else b.tail)
  }

  /** The list with the first declaration's leading whitespace removed. */
  function ClearLead(items: seq<Item>): seq<Item> {
    if items == [] then [] else [items[0].(lead := [])] + items[1..]
  }

  function FamilyBlock(b: Block, v: string): Block {
    if HasKey(b.items, FontFamily) then b.(items := SetValue(b.items, FontFamily, v)) else Opened(b, FamilyItem(v))
  }

  function ReplaceBlock(b: Block, key: string, v: string): Block {
    if HasKey(b.items, key) then b.(items := SetValue(b.items, key, v)) else b
  }

  function SmartBlock(b: Block, r: FontRule): Block {
    ReplaceBlock(ReplaceBlock(FamilyBlock(b, r.family), FontSize, r.size), FontWeight, r.weight)
  }

  lemma {:induction false} BraceInsertSkip(x: string, y: string, t: string)
    requires '{' !in x
    ensures BraceInsert(x + y, t) == x + BraceInsert(y, t)
    decreases |x|
  {
    if x == [] {
      assert x + y == y;
    } else {
      assert (x + y)[0] == x[0] && (x + y)[1..] == x[1..] + y;
      assert x[0] in x;
      BraceInsertSkip(x[1..], y, t);
      var z := BraceInsert(y, t);
      assert [x[0]] + (x[1..] + z) == x + z;
    }
  }

  lemma {:induction false} LeadingSpacesBefore(ws: string, rest: string)
    requires AllSpace(ws) && rest != [] && !IsSpace(rest[0])
    ensures LeadingSpaces(ws + rest) == |ws|
    decreases |ws|
  {
    if ws == [] {
      assert ws + rest == rest;
    } else {
      assert (ws + rest)[0] == ws[0] && (ws + rest)[1..] == ws[1..] + rest;
      LeadingSpacesBefore(ws[1..], rest);
    }
  }

  /** What follows the `{` of a well-formed block loses its leading whitespace as `Opened` says. */
  lemma AfterBrace(b: Block)
    requires ValidBlock(b)
    ensures var r := ItemsText(b.items) + (b.tail + "}");
            r[LeadingSpaces(r)..] == ItemsText(ClearLead(b.items)) + ((if b.items == [] then [] else b.tail) + "}")
  {
    if b.items == [] {
      LeadingSpacesBefore(b.tail, "}");
      assert ItemsText(b.items) + (b.tail + "}") == b.tail + "}";
    } else {
      assert ValidItem(b.items[0]);
      AfterBraceItems(b.items[0], b.items[1..], b.tail + "}");
      assert b.items == [b.items[0]] + b.items[1..];
    }
  }

  lemma AfterBraceItems(it: Item, rest: seq<Item>, t: string)
    requires ValidItem(it)
    ensures var r := ItemsText([it] + rest) + t;
            r[LeadingSpaces(r)..] == ItemsText([it.(lead := [])] + rest) + t
  {
    var it' := it.(lead := []);
    var body := ItemText(it');
    var q := ItemsText(rest) + t;
    ItemBody(it);
    ItemsTextCons([it] + rest, t);
    ItemsTextCons([it'] + rest, t);
    assert ([it] + rest)[0] == it && ([it] + rest)[1..] == rest;
    assert ([it'] + rest)[0] == it' && ([it'] + rest)[1..] == rest;
    SeqAssoc(it.lead, body, q);
    LeadingSpacesBefore(it.lead, body + q);
    assert (it.lead + (body + q))[|it.lead|..] == body + q;
  }

  /** A declaration's text is its leading whitespace, then text starting with a non-space. */
  lemma ItemBody(it: Item)
    requires ValidItem(it)
    ensures ItemText(it) == it.lead + ItemText(it.(lead := []))
    ensures ItemText(it.(lead := [])) != [] && !IsSpace(ItemText(it.(lead := []))[0])
  {
    if it.Font? {
      var d := Decl(it.key, it.gap, it.value);
      assert ItemText(Font([], it.key, it.gap, it.value)) == [] + d == d;
      KeyChars(it.key);
      assert d[0] == it.key[0];
    } else {
      assert ItemText(Other([], it.text)) == [] + it.text == it.text;
    }
  }

  /** Inserting a declaration's text after the `{` of a well-formed block opens the block with it. */
  lemma BraceInsertBlock(name: string, b: Block, it: Item)
    requires ValidName(name) && ValidBlock(b)
    ensures BraceInsert(BlockText(name, b), ItemText(it)) == BlockText(name, Opened(b, it))
  {
    var x, r := "." + name + b.ws, ItemsText(b.items) + (b.tail + "}");
    var o := Opened(b, it);
    var t := ItemText(it);
    var rest := ItemsText(ClearLead(b.items)) + (o.tail + "}");
    BlockSplit(name, b);
    SelectorNoBrace(name, b.ws);
    BraceInsertSkip(x, "{" + r, t);
    BraceInsertFirst(r, t);
    AfterBrace(b);
    assert BraceInsert(BlockText(name, b), t) == x + ("{" + t + rest);
    BlockSplit(name, o);
    ItemsTextCons(o.items, o.tail + "}");
    assert o.items[0] == it && o.items[1..] == ClearLead(b.items);
    assert BlockText(name, o) == x + ("{" + (t + rest));
    SeqAssoc("{", t, rest);
  }

  lemma BraceInsertFirst(r: string, t: string)
    ensures BraceInsert("{" + r, t) == "{" + t + r[LeadingSpaces(r)..]
  {
    assert ("{" + r)[0] == '{' && ("{" + r)[1..] == r;
  }

  /** Removing the first declaration's leading whitespace keeps the list's properties and well-formedness. */
  lemma ClearLeadSpec(items: seq<Item>)
    ensures ValidItems(items) ==> ValidItems(ClearLead(items))
    ensures forall w :: HasKey(ClearLead(items), w) == HasKey(items, w)
    ensures forall k, u :: Settled(ClearLead(items), k, u) == Settled(items, k, u)
    ensures Others(ClearLead(items)) == Others(items)
  {
    if items != [] {
      var c := ClearLead(items);
      assert c[0] == items[0].(lead := []) && c[1..] == items[1..];
      if ValidItems(items) {
        assert ValidItem(items[0]);
        forall i | 0 <= i < |c| ensures ValidItem(c[i]) {
          if i > 0 {
            assert c[i] == items[i];
          }
        }
      }
    }
  }

  /** Opening a block with a declaration puts it first and keeps the rest of the list. */
  lemma OpenedSpec(b: Block, it: Item)
    ensures ValidBlock(b) && ValidItem(it) ==> ValidBlock(Opened(b, it))
    ensures Opened(b, it).ws == b.ws && Opened(b, it).items[0] == it
    ensures forall w :: HasKey(Opened(b, it).items, w) == (HasKey([it], w) || HasKey(b.items, w))
    ensures forall k, u :: Settled(Opened(b, it).items, k, u) == (Settled([it], k, u) && Settled(b.items, k, u))
    ensures Others(Opened(b, it).items) == Others([it]) + Others(b.items)
  {
    var c := ClearLead(b.items);
    ClearLeadSpec(b.items);
    var items := [it] + c;
    if ValidBlock(b) && ValidItem(it) {
      forall i | 0 <= i < |items| ensures ValidItem(items[i]) {
        if i > 0 {
          assert items[i] == c[i - 1];
        }
      }
    }
    forall w ensures HasKey(items, w) == (HasKey([it], w) || HasKey(b.items, w)) {
      HasKeyAppend([it], c, w);
    }
    forall k, u ensures Settled(items, k, u) == (Settled([it], k, u) && Settled(b.items, k, u)) {
      SettledAppend([it], c, k, u);
    }
    OthersAppend([it], c);
  }

  // ---------------------------------------------------------------------------------------------
  // The text steps are the declaration steps

  lemma FamilyStepBlock(name: string, b: Block, v: string)
    requires ValidName(name) && ValidBlock(b) && ValidValue(v)
    ensures FamilyStep(BlockText(name, b), v) == BlockText(name, FamilyBlock(b, v))
    ensures ValidBlock(FamilyBlock(b, v))
  {
    FoundBlock(name, b, FontFamily);
    if HasKey(b.items, FontFamily) {
      SetBlock(name, b, SmartDecl(FontFamily), FontFamily, v);
    } else {
      FamilyInserted(name, b, v);
    }
  }

  /** Without a family declaration, the family step opens the block with the new declaration. */
  lemma FamilyInserted(name: string, b: Block, v: string)
    requires ValidName(name) && ValidBlock(b) && ValidValue(v)
    ensures BraceInsert(BlockText(name, b), "\n    " + Replacement(FontFamily, v)) == BlockText(name, Opened(b, FamilyItem(v)))
    ensures ValidBlock(Opened(b, FamilyItem(v)))
  {
    var it := FamilyItem(v);
    ReplacementDecl(FontFamily, v);
    assert ItemText(it) == "\n    " + Replacement(FontFamily, v);
    BraceInsertBlock(name, b, it);
    assert ValidItem(it);
    OpenedSpec(b, it);
  }

  lemma ReplaceStepBlock(name: string, b: Block, key: string, v: string)
    requires ValidName(name) && ValidBlock(b) && IsFontKey(key) && ValidValue(v)
    ensures ReplaceStep(BlockText(name, b), key, v) == BlockText(name, ReplaceBlock(b, key, v))
    ensures ValidBlock(ReplaceBlock(b, key, v))
  {
    FoundBlock(name, b, key);
    if HasKey(b.items, key) {
      SetBlock(name, b, SmartDecl(key), key, v);
    }
  }

  /** On a well-formed block, the `replacer` is the declaration rewriting. */
  lemma UpdateBlockText(name: string, b: Block, r: FontRule)
    requires ValidName(name) && ValidBlock(b) && ValidRule(r)
    ensures UpdateBlock(BlockText(name, b), r) == BlockText(name, SmartBlock(b, r))
    ensures ValidBlock(SmartBlock(b, r))
  {
    RuleValid(r);
    var b1 := FamilyBlock(b, r.family);
    FamilyStepBlock(name, b, r.family);
    var b2 := ReplaceBlock(b1, FontSize, r.size);
    ReplaceStepBlock(name, b1, FontSize, r.size);
    ReplaceStepBlock(name, b2, FontWeight, r.weight);
  }

  // ---------------------------------------------------------------------------------------------
  // What the rewriting does to the declarations

  /**
   * After the rewriting the block declares the rule's family (first, when it had none), declares
   * a size and a weight exactly when it did before, every one of those declarations holds the
   * rule's value, and the other declarations are kept in order.
   */
  lemma SmartBlockSpec(b: Block, r: FontRule)
    ensures var res := SmartBlock(b, r);
            && res.ws == b.ws
            && HasKey(res.items, FontFamily) && Settled(res.items, FontFamily, r.family)
            && (!HasKey(b.items, FontFamily) ==> res.items[0] == FamilyItem(r.family))
            && HasKey(res.items, FontSize) == HasKey(b.items, FontSize) && Settled(res.items, FontSize, r.size)
            && HasKey(res.items, FontWeight) == HasKey(b.items, FontWeight)
            && Settled(res.items, FontWeight, r.weight)
            && Others(res.items) == Others(b.items)
  {
    var fam := FamilyItem(r.family);
    var b1 := FamilyBlock(b, r.family);
    var b2 := ReplaceBlock(b1, FontSize, r.size);
    var res := ReplaceBlock(b2, FontWeight, r.weight);
    // the family step
    forall w ensures HasKey(b1.items, w) == (HasKey(b.items, w) || w == FontFamily) {
      if HasKey(b.items, FontFamily) {
        SetHasKey(b.items, FontFamily, r.family, w);
      } else {
        OpenedSpec(b, fam);
        assert HasKey([fam], w) == (w == FontFamily) by {
          assert [fam][1..] == [];
        }
      }
    }
    if HasKey(b.items, FontFamily) {
      SetSettles(b.items, FontFamily, r.family);
      SetOthers(b.items, FontFamily, r.family);
    } else {
      OpenedSpec(b, fam);
      AbsentSettled(b.items, FontFamily, r.family);
      assert [fam][1..] == [];
      assert Settled([fam], FontFamily, r.family);
      assert Others([fam]) == [];
    }
    // the size step
    forall w ensures HasKey(b2.items, w) == HasKey(b1.items, w) {
      if HasKey(b1.items, FontSize) {
        SetHasKey(b1.items, FontSize, r.size, w);
      }
    }
    if HasKey(b1.items, FontSize) {
      SetSettles(b1.items, FontSize, r.size);
      SetKeepsSettled(b1.items, FontSize, r.size, FontFamily, r.family);
      SetOthers(b1.items, FontSize, r.size);
    } else {
      AbsentSettled(b1.items, FontSize, r.size);
    }
    // the weight step
    forall w ensures HasKey(res.items, w) == HasKey(b2.items, w) {
      if HasKey(b2.items, FontWeight) {
        SetHasKey(b2.items, FontWeight, r.weight, w);
      }
    }
    if HasKey(b2.items, FontWeight) {
      SetSettles(b2.items, FontWeight, r.weight);
      SetKeepsSettled(b2.items, FontWeight, r.weight, FontFamily, r.family);
      SetKeepsSettled(b2.items, FontWeight, r.weight, FontSize, r.size);
      SetOthers(b2.items, FontWeight, r.weight);
    } else {
      AbsentSettled(b2.items, FontWeight, r.weight);
    }
    if !HasKey(b.items, FontFamily) {
      OpenedSpec(b, fam);
      assert b1.items[0] == fam;
      assert b2.items[0] == fam;
      assert res.items[0] == fam;
    }
  }

  /** Rewriting a rewritten block changes nothing. */
  lemma SmartBlockIdempotent(b: Block, r: FontRule)
    ensures SmartBlock(SmartBlock(b, r), r) == SmartBlock(b, r)
  {
    var res := SmartBlock(b, r);
    SmartBlockSpec(b, r);
    SetUnchanged(res.items, FontFamily, r.family);
    assert FamilyBlock(res, r.family) == res;
    if HasKey(res.items, FontSize) {
      SetUnchanged(res.items, FontSize, r.size);
    }
    assert ReplaceBlock(res, FontSize, r.size) == res;
    if HasKey(res.items, FontWeight) {
      SetUnchanged(res.items, FontWeight, r.weight);
    }
  }

  // ---------------------------------------------------------------------------------------------
  // update_css_block on a whole page

  /** Every rule of the table holds values a declaration can hold. */
  lemma SmartRulesValid(elementType: string)
    ensures Rules(elementType).Some? ==> ValidRule(Rules(elementType).value)
  {
    RulesValid("label");
    RulesValid("title");
    RulesValid("description");
  }

  /**
   * Only the blocks of the class change: the page is cut into single characters and complete
   * `.name\s*{...}` matches, and the update replaces each match by the `replacer` of it and keeps
   * every other character where it was.
   */
  lemma UpdateOnlyBlocks(content: string, className: string, r: FontRule)
    ensures var pieces := Split(content, BlockPattern(className));
            && Original(pieces) == content
            && UpdateCssBlock(content, className, r) == Replaced(pieces, Replacer(r))
            && forall k :: 0 <= k < |pieces| && pieces[k].Matched? ==>
                 MatchLen(pieces[k].m, BlockPattern(className)) == Some(|pieces[k].m|)
  {
    SubBySplit(content, BlockPattern(className), Replacer(r));
  }

  /**
   * Running the update twice is running it once, on a page whose blocks for the class are all
   * well-formed.
   */
  lemma UpdateCssBlockIdempotent(content: string, className: string, r: FontRule)
    requires ValidName(className) && ValidRule(r)
    requires AllMatches(content, BlockPattern(className), m => IsBlock(className, m))
    ensures var once := UpdateCssBlock(content, className, r);
            UpdateCssBlock(once, className, r) == once
  {
    var f := Replacer(r);
    var P := m => IsBlock(className, m);
    var p := BlockPattern(className);
    forall m | P(m) ensures MatchLen(f(m), p) == Some(|f(m)|) && f(f(m)) == f(m) {
      var b :| ValidBlock(b) && m == BlockText(className, b);
      var b' := SmartBlock(b, r);
      UpdateBlockText(className, b, r);
      UpdateBlockText(className, b', r);
      SmartBlockIdempotent(b, r);
      BlockIsMatch(className, b');
    }
    BlockPatternWellBehaved(className);
    SubIdempotent(content, p, f, P);
  }

  /** A page without `.name` is left as it is. */
  lemma UpdateWithoutClass(content: string, className: string, r: FontRule)
    requires !Contains(content, "." + className)
    ensures UpdateCssBlock(content, className, r) == content
  {
    SubNoLit(content, BlockPattern(className), Replacer(r));
  }

  /** The `replacer` on the unterminated block: the size match swallows the family declaration. */
  lemma UnterminatedUpdate()
    ensures UpdateBlock(Unterminated, LabelRule) == BlockText("a", SizeOnly(LabelRule.size))
  {
    var r := LabelRule;
    var c1 := ".a { font-size: 1px " + Replacement(FontFamily, r.family) + " }";
    var b := SizeOnly(r.size);
    UnterminatedMentionsFamily();
    UnterminatedFamilySub(SmartDecl(FontFamily), r.family);
    assert SmartDecl(FontFamily).lit + [':'] == FontFamily + ":";
    ContainsFound(Unterminated, SmartDecl(FontFamily));
    assert FamilyStep(Unterminated, r.family) == c1;
    SoraValue();
    SwallowedSizeSub(SmartDecl(FontSize), r.family, r.size);
    assert SmartDecl(FontSize).lit + [':'] == FontSize + ":";
    ContainsFound(c1, SmartDecl(FontSize));
    SizeOnlyText(r.size);
    assert ReplaceStep(c1, FontSize, r.size) == BlockText("a", b);
    RulesValid("label");
    RuleValid(r);
    NameA();
    SizeOnlyFacts(r.size);
    ReplaceStepBlock("a", b, FontWeight, r.weight);
  }

  /**
   * The update is not idempotent on a malformed block: on `Unterminated`, with the label rule, the
   * first pass leaves only the size declaration, `.a { font-size: clamp(1rem, 2vw, 1.5rem); }`,
   * and the second pass inserts a family declaration.
   */
  lemma CssBlockNotIdempotent()
    ensures UpdateCssBlock(Unterminated, "a", LabelRule) == ".a { " + Replacement(FontSize, LabelRule.size) + " }"
    ensures var once := UpdateCssBlock(Unterminated, "a", LabelRule);
            UpdateCssBlock(once, "a", LabelRule) != once
  {
    var r := LabelRule;
    var p := BlockPattern("a");
    var b := SizeOnly(r.size);
    UnterminatedIsMatch();
    SubWhole(Unterminated, p, Replacer(r));
    UnterminatedUpdate();
    var once := BlockText("a", b);
    SizeOnlyText(r.size);
    assert UpdateCssBlock(Unterminated, "a", r) == once;
    RulesValid("label");
    RuleValid(r);
    NameA();
    SizeOnlyFacts(r.size);
    BlockIsMatch("a", b);
    SubWhole(once, p, Replacer(r));
    UpdateBlockText("a", b, r);
    SmartBlockSpec(b, r);
    assert UpdateCssBlock(once, "a", r) == BlockText("a", SmartBlock(b, r));
    FirstLead(SmartBlock(b, r));
    FirstLead(b);
  }

  // ---------------------------------------------------------------------------------------------
  // process_file

  /** One class name: when it is classified and its type has a rule, its blocks are updated. */
  function ApplyClass(content: string, className: string): string {
    match IdentifyType(className)
    case None => content
    case Some(t) =>
      match Rules(t)
      case None => content
      case Some(r) => UpdateCssBlock(content, className, r)
  }

  /** The class names applied in order. */
  function ApplyClasses(content: string, classNames: seq<string>): string {
    if classNames == [] then content
    else ApplyClass(ApplyClasses(content, classNames[..|classNames| - 1]), classNames[|classNames| - 1])
  }

  /** The report line of each class name applied: `name -> type`, in order. */
  function Modified(classNames: seq<string>): seq<string> {
    if classNames == [] then []
    else
      var last := classNames[|classNames| - 1];
      Modified(classNames[..|classNames| - 1])
        + match IdentifyType(last)
          case None => []
          case Some(t) => if Rules(t).Some? then [last + " -> " + t] else []
  }

  /**
   * One report line per classified name, in order: the `in RULES` test never rejects a type
   * `identify_type` produces.
   */
  lemma {:induction false} ModifiedSpec(classNames: seq<string>)
    ensures |Modified(classNames)| == |Classified(classNames)|
    ensures forall k :: 0 <= k < |Classified(classNames)| ==>
              Modified(classNames)[k] == Classified(classNames)[k] + " -> " + IdentifyType(Classified(classNames)[k]).value
    decreases |classNames|
  {
    if classNames != [] {
      var init, last := classNames[..|classNames| - 1], classNames[|classNames| - 1];
      ModifiedSpec(init);
      IdentifySpec(last);
      var m, c := Modified(init), Classified(init);
      if IdentifyType(last).Some? {
        var line := last + " -> " + IdentifyType(last).value;
        assert Modified(classNames) == m + [line];
        assert Classified(classNames) == c + [last];
        forall k | 0 <= k < |c| + 1
          ensures (m + [line])[k] == (c + [last])[k] + " -> " + IdentifyType((c + [last])[k]).value
        {
          if k < |c| {
            assert (m + [line])[k] == m[k] && (c + [last])[k] == c[k];
          }
        }
      } else {
        assert Modified(classNames) == m + [];
        assert Classified(classNames) == c + [];
      }
    }
  }

  /** Names with no keyword change nothing: applying the names is applying the classified ones. */
  lemma {:induction false} ApplyClassified(content: string, classNames: seq<string>)
    ensures ApplyClasses(content, classNames) == ApplyClasses(content, Classified(classNames))
    decreases |classNames|
  {
    if classNames != [] {
      var init, last := classNames[..|classNames| - 1], classNames[|classNames| - 1];
      ApplyClassified(content, init);
      var c := Classified(init);
      if IdentifyType(last).Some? {
        var cs := c + [last];
        assert Classified(classNames) == cs;
        assert cs[..|cs| - 1] == c && cs[|cs| - 1] == last;
      } else {
        assert Classified(classNames) == c + [] == c;
      }
    }
  }

  /** The class names `identify_type` classifies, in order. */
  function Classified(classNames: seq<string>): (r: seq<string>)
    ensures |r| <= |classNames|
    ensures forall k :: 0 <= k < |r| ==> IdentifyType(r[k]).Some? && r[k] in classNames
  {
    if classNames == [] then []
    else
      var init, last := classNames[..|classNames| - 1], classNames[|classNames| - 1];
      Classified(init) + (if IdentifyType(last).Some? then [last] else [])
  }

  /**
   * `process_file`: a file that cannot be read gives false and no report; otherwise the class
   * names are applied in order, and the file is written and the report returned exactly when
   * the text changed. The class names are those of `set(classes)`: distinct, in any order.
   */
  method ProcessFile(fs: FileSystem, path: string, classNames: seq<string>)
    returns (changed: bool, modified: seq<string>, files: FileSystem)
    requires forall i, j :: 0 <= i < j < |classNames| ==> classNames[i] != classNames[j]
    ensures path !in fs ==> !changed && modified == [] && files == fs
    ensures path in fs ==>
              var result := ApplyClasses(fs[path], classNames);
              && (changed <==> result != fs[path])
              && modified == (if changed then Modified(classNames) else [])
              && files == (if changed then fs[path := result] else fs)
  {
    if path !in fs {
      return false, [], fs;
    }
    var content := fs[path];
    var original := content;
    var report: seq<string> := [];
    var i := 0;
    while i < |classNames|
      invariant 0 <= i <= |classNames|
      invariant content == ApplyClasses(original, classNames[..i])
      invariant report == Modified(classNames[..i])
    {
      var prefix := classNames[..i + 1];
      assert prefix[..i] == classNames[..i] && prefix[i] == classNames[i];
      var className := classNames[i];
      var elementType := IdentifyType(className);
      if elementType.Some? && Rules(elementType.value).Some? {
        content := UpdateCssBlock(content, className, Rules(elementType.value).value);
        report := report + [className + " -> " + elementType.value];
      }
      i := i + 1;
    }
    assert classNames[..i] == classNames;
    if content != original {
      return true, report, fs[path := content];
    }
    return false, [], fs;
  }
}
