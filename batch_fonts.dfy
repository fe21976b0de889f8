/**
 * The enumerating font updater (tools/batch_update_fonts.py): for each listed module it tries
 * fourteen class names derived from the module's name and rewrites the font family, size and
 * weight declarations of every matching rule block according to the element type's rule.
 */
module BatchFonts {
  import opened Wrappers
  import opened Text
  import opened Files
  import opened CssScan
  import opened CssDecls

  /** The three values an element type's rule prescribes. */
  datatype FontRule = FontRule(family: string, size: string, weight: string)

  const LabelRule := FontRule("'Sora', sans-serif", "clamp(1rem, 2vw, 1.5rem)", "400")
  const TitleRule := FontRule("'Poppins', sans-serif", "clamp(2rem, 5vw, 3.75rem)", "700")
  const DescriptionRule := FontRule("'Sora', sans-serif", "clamp(1.125rem, 2vw, 1.75rem)", "300")

  /** `FONT_RULES`: label, title, description and subtitle (as description); no other type has a rule. */
  function FontRules(elementType: string): Option<FontRule> {
    if elementType == "label" then Some(LabelRule)
    else if elementType == "title" then Some(TitleRule)
    else if elementType == "description" then Some(DescriptionRule)
    else if elementType == "subtitle" then Some(DescriptionRule)
    else None
  }

  /**
   * The values the table uses: not empty, no `;` or `}`, and an `f` at most as the last letter
   * (so that no property name, all of which start with `fo`, occurs in them).
   */
  predicate TableValue(v: string) {
    v != [] && ';' !in v && '}' !in v && 'f' !in v[..|v| - 1]
  }

  predicate ValidRule(r: FontRule) {
    TableValue(r.family) && TableValue(r.size) && TableValue(r.weight)
  }

  /** A table value is one a declaration can hold. */
  lemma TableValueValid(v: string)
    requires TableValue(v)
    ensures ValidValue(v)
  {
    var x := v[..|v| - 1];
    assert v == x + [v[|v| - 1]];
    forall w | IsFontKey(w) ensures !Contains(v, w) {
      if Contains(v, w) {
        FoundF(x, v[|v| - 1], w);
      }
    }
  }

  lemma FoundF(x: string, c: char, w: string)
    requires IsFontKey(w) && Contains(x + [c], w)
    ensures 'f' in x
  {
    var s := x + [c];
    var i := ContainsOccurs(s, w);
    assert s[i] == s[i..i + |w|][0] == 'f';
    assert s[i] == x[i];
  }

  lemma RuleValid(r: FontRule)
    requires ValidRule(r)
    ensures ValidValue(r.family) && ValidValue(r.size) && ValidValue(r.weight)
  {
    TableValueValid(r.family);
    TableValueValid(r.size);
    TableValueValid(r.weight);
  }

  /** Every rule in the table holds values a declaration can hold. */
  lemma RulesValid(elementType: string)
    ensures FontRules(elementType).Some? ==> ValidRule(FontRules(elementType).value)
  {
    SoraValue();
    PoppinsValue();
    LabelSizeValue();
    TitleSizeValue();
    DescriptionSizeValue();
  }

  lemma SoraValue() ensures TableValue("'Sora', sans-serif") {}
  lemma PoppinsValue() ensures TableValue("'Poppins', sans-serif") {}
  lemma LabelSizeValue() ensures TableValue("clamp(1rem, 2vw, 1.5rem)") {}
  lemma TitleSizeValue() ensures TableValue("clamp(2rem, 5vw, 3.75rem)") {}
  lemma DescriptionSizeValue() ensures TableValue("clamp(1.125rem, 2vw, 1.75rem)") {}

  // ---------------------------------------------------------------------------------------------
  // The rewriting of one block, on its text

  /**
   * The font-family step: rewrite every `font-family:` declaration, or, when the block does not
   * mention the property, put `\n  font-family: V;` after its first `{`.
   */
  function FamilyStep(block: string, v: string): string {
    if Contains(block, FontFamily) then Sub(block, BatchDecl(FontFamily), Const(Replacement(FontFamily, v)))
    else ReplaceFirst(block, "{", "{" + "\n  " + Replacement(FontFamily, v))
  }

  /** The font-size step: rewrite every `font-size:` declaration; never add one. */
  function SizeStep(block: string, v: string): string {
    if Contains(block, FontSize) then Sub(block, BatchDecl(FontSize), Const(Replacement(FontSize, v)))
    else block
  }

  /**
   * The font-weight step: rewrite every `font-weight:` declaration, or, when the block does not
   * mention the property but mentions font-size, put `\n  font-weight: W;` after each size
   * declaration.
   */
  function WeightStep(block: string, v: string): string {
    if Contains(block, FontWeight) then Sub(block, BatchDecl(FontWeight), Const(Replacement(FontWeight, v)))
    else if Contains(block, FontSize) then Sub(block, BatchDecl(FontSize), Append("\n  " + Replacement(FontWeight, v)))
    else block
  }

  /** `replace_properties`: the three steps in order. */
  function ReplaceProperties(block: string, r: FontRule): string {
    WeightStep(SizeStep(FamilyStep(block, r.family), r.size), r.weight)
  }

  /** `update_font_properties`: every block of the class is rewritten; no rule, no change. */
  function UpdateFontProperties(content: string, className: string, elementType: string): string {
    match FontRules(elementType)
    case None => content
    case Some(r) => Sub(content, BlockPattern(className), block => ReplaceProperties(block, r))
  }

  // ---------------------------------------------------------------------------------------------
  // The same rewriting, on a block's declarations

  function FamilyItem(v: string): Item {
    Font("\n  ", FontFamily, " ", v)
  }

  function WeightItem(v: string): Item {
    Font("\n  ", FontWeight, " ", v)
  }

  function FamilyItems(items: seq<Item>, v: string): seq<Item> {
    if HasKey(items, FontFamily) then SetValue(items, FontFamily, v) else [FamilyItem(v)] + items
  }

  function SizeItems(items: seq<Item>, v: string): seq<Item> {
    if HasKey(items, FontSize) then SetValue(items, FontSize, v) else items
  }

  function WeightItems(items: seq<Item>, v: string): seq<Item> {
    if HasKey(items, FontWeight) then SetValue(items, FontWeight, v)
    else if HasKey(items, FontSize) then AddAfter(items, FontSize, WeightItem(v))
    else items
  }

  function BatchItems(items: seq<Item>, r: FontRule): seq<Item> {
    WeightItems(SizeItems(FamilyItems(items, r.family), r.size), r.weight)
  }

  lemma FamilyStepBlock(name: string, b: Block, v: string)
    requires ValidName(name) && ValidBlock(b) && ValidValue(v)
    ensures FamilyStep(BlockText(name, b), v) == BlockText(name, b.(items := FamilyItems(b.items, v)))
    ensures ValidBlock(b.(items := FamilyItems(b.items, v)))
  {
    BlockWords(name, b, FontFamily);
    if HasKey(b.items, FontFamily) {
      SetBlock(name, b, BatchDecl(FontFamily), FontFamily, v);
    } else {
      FamilyPrepended(name, b, v);
    }
  }

  /** Without a family declaration, the family step puts the new declaration first. */
  lemma FamilyPrepended(name: string, b: Block, v: string)
    requires ValidName(name) && ValidBlock(b) && ValidValue(v)
    ensures ReplaceFirst(BlockText(name, b), "{", "{" + "\n  " + Replacement(FontFamily, v)) == BlockText(name, b.(items := [FamilyItem(v)] + b.items))
    ensures ValidBlock(b.(items := [FamilyItem(v)] + b.items))
  {
    var it := FamilyItem(v);
    ReplacementDecl(FontFamily, v);
    assert "{" + ItemText(it) == "{" + "\n  " + Replacement(FontFamily, v);
    PrependBlock(name, b, it);
    SpaceSep(' ');
    assert ValidItem(it);
    var items := [it] + b.items;
    forall i | 0 <= i < |items| ensures ValidItem(items[i]) {
      if i > 0 {
        assert items[i] == b.items[i - 1];
      }
    }
  }

  lemma SizeStepBlock(name: string, b: Block, v: string)
    requires ValidName(name) && ValidBlock(b) && ValidValue(v)
    ensures SizeStep(BlockText(name, b), v) == BlockText(name, b.(items := SizeItems(b.items, v)))
    ensures ValidBlock(b.(items := SizeItems(b.items, v)))
  {
    BlockWords(name, b, FontSize);
    if HasKey(b.items, FontSize) {
      SetBlock(name, b, BatchDecl(FontSize), FontSize, v);
    } else {
      assert b.(items := b.items) == b;
    }
  }

  lemma WeightStepBlock(name: string, b: Block, v: string)
    requires ValidName(name) && ValidBlock(b) && ValidValue(v)
    ensures WeightStep(BlockText(name, b), v) == BlockText(name, b.(items := WeightItems(b.items, v)))
    ensures ValidBlock(b.(items := WeightItems(b.items, v)))
  {
    BlockWords(name, b, FontWeight);
    BlockWords(name, b, FontSize);
    if HasKey(b.items, FontWeight) {
      SetBlock(name, b, BatchDecl(FontWeight), FontWeight, v);
    } else if HasKey(b.items, FontSize) {
      var it := WeightItem(v);
      ReplacementDecl(FontWeight, v);
      SpaceSep(' ');
      assert ValidItem(it);
      AddBlock(name, b, BatchDecl(FontSize), FontSize, it);
    } else {
      assert b.(items := b.items) == b;
    }
  }

  /** On a well-formed block, the text rewriting is the declaration rewriting. */
  lemma ReplacePropertiesBlock(name: string, b: Block, r: FontRule)
    requires ValidName(name) && ValidBlock(b) && ValidRule(r)
    ensures ReplaceProperties(BlockText(name, b), r) == BlockText(name, b.(items := BatchItems(b.items, r)))
    ensures ValidBlock(b.(items := BatchItems(b.items, r)))
  {
    RuleValid(r);
    var b1 := b.(items := FamilyItems(b.items, r.family));
    FamilyStepBlock(name, b, r.family);
    var b2 := b1.(items := SizeItems(b1.items, r.size));
    SizeStepBlock(name, b1, r.size);
    WeightStepBlock(name, b2, r.weight);
  }

  // ---------------------------------------------------------------------------------------------
  // What the rewriting does to the declarations

  /**
   * After the rewriting the block declares the rule's family (inserted first when it had none),
   * declares a size exactly when it did before, declares a weight exactly when it declared a weight
   * or a size before, every one of those declarations holds the rule's value, and the other
   * declarations are kept in order.
   */
  lemma BatchItemsSpec(items: seq<Item>, r: FontRule)
    ensures var res := BatchItems(items, r);
            && HasKey(res, FontFamily) && Settled(res, FontFamily, r.family)
            && (!HasKey(items, FontFamily) ==> res[0] == FamilyItem(r.family))
            && HasKey(res, FontSize) == HasKey(items, FontSize) && Settled(res, FontSize, r.size)
            && HasKey(res, FontWeight) == (HasKey(items, FontWeight) || HasKey(items, FontSize))
            && Settled(res, FontWeight, r.weight)
            && Others(res) == Others(items)
  {
    var i1 := FamilyItems(items, r.family);
    var i2 := SizeItems(i1, r.size);
    var res := WeightItems(i2, r.weight);
    FamilyItemsSpec(items, r.family);
    SizeItemsSpec(i1, r.size, r.family);
    WeightItemsSpec(i2, r.weight, r.family, r.size);
    if !HasKey(items, FontFamily) {
      var fam := FamilyItem(r.family);
      assert i2[0] == fam;
      assert Here(fam, FontSize, WeightItem(r.weight)) == [fam];
    }
  }

  /** The family step declares the family, with the rule's value, and keeps everything else. */
  lemma FamilyItemsSpec(items: seq<Item>, v: string)
    ensures var res := FamilyItems(items, v);
            && (forall w :: HasKey(res, w) == (HasKey(items, w) || w == FontFamily))
            && Settled(res, FontFamily, v)
            && (!HasKey(items, FontFamily) ==> res[0] == FamilyItem(v))
            && Others(res) == Others(items)
  {
    var fam := FamilyItem(v);
    forall w ensures HasKey(FamilyItems(items, v), w) == (HasKey(items, w) || w == FontFamily) {
      if HasKey(items, FontFamily) {
        SetHasKey(items, FontFamily, v, w);
      } else {
        HasKeyAppend([fam], items, w);
      }
    }
    if HasKey(items, FontFamily) {
      SetSettles(items, FontFamily, v);
      SetOthers(items, FontFamily, v);
    } else {
      AbsentSettled(items, FontFamily, v);
      SettledAppend([fam], items, FontFamily, v);
      OthersAppend([fam], items);
      assert Others([fam]) == [] by {
        assert [fam][1..] == [];
      }
    }
  }

  /** The size step settles the size, keeps a settled family, and adds or removes nothing. */
  lemma SizeItemsSpec(items: seq<Item>, v: string, family: string)
    ensures var res := SizeItems(items, v);
            && (forall w :: HasKey(res, w) == HasKey(items, w))
            && Settled(res, FontSize, v)
            && (Settled(items, FontFamily, family) ==> Settled(res, FontFamily, family))
            && (items != [] && items[0].Font? && items[0].key == FontFamily ==> res[0] == items[0])
            && Others(res) == Others(items)
  {
    forall w ensures HasKey(SizeItems(items, v), w) == HasKey(items, w) {
      if HasKey(items, FontSize) {
        SetHasKey(items, FontSize, v, w);
      }
    }
    if HasKey(items, FontSize) {
      SetSettles(items, FontSize, v);
      SetKeepsSettled(items, FontSize, v, FontFamily, family);
      SetOthers(items, FontSize, v);
    } else {
      AbsentSettled(items, FontSize, v);
    }
  }

  /**
   * The weight step settles the weight, declaring it after the size when it was missing, keeps
   * a settled family and size, and adds nothing else.
   */
  lemma WeightItemsSpec(items: seq<Item>, v: string, family: string, size: string)
    ensures var res := WeightItems(items, v);
            && HasKey(res, FontFamily) == HasKey(items, FontFamily)
            && HasKey(res, FontSize) == HasKey(items, FontSize)
            && HasKey(res, FontWeight) == (HasKey(items, FontWeight) || HasKey(items, FontSize))
            && Settled(res, FontWeight, v)
            && (Settled(items, FontFamily, family) ==> Settled(res, FontFamily, family))
            && (Settled(items, FontSize, size) ==> Settled(res, FontSize, size))
            && Others(res) == Others(items)
  {
    var weight := WeightItem(v);
    if HasKey(items, FontWeight) {
      SetHasKey(items, FontWeight, v, FontFamily);
      SetHasKey(items, FontWeight, v, FontSize);
      SetHasKey(items, FontWeight, v, FontWeight);
      SetSettles(items, FontWeight, v);
      SetKeepsSettled(items, FontWeight, v, FontFamily, family);
      SetKeepsSettled(items, FontWeight, v, FontSize, size);
      SetOthers(items, FontWeight, v);
    } else if HasKey(items, FontSize) {
      AddHasKey(items, FontSize, weight, FontFamily);
      AddHasKey(items, FontSize, weight, FontSize);
      AddHasKey(items, FontSize, weight, FontWeight);
      AbsentSettled(items, FontWeight, v);
      AddKeepsSettled(items, FontSize, weight, FontWeight, v);
      AddKeepsSettled(items, FontSize, weight, FontFamily, family);
      AddKeepsSettled(items, FontSize, weight, FontSize, size);
      AddOthers(items, FontSize, weight);
    } else {
      AbsentSettled(items, FontWeight, v);
    }
  }

  /** Rewriting a rewritten block changes nothing. */
  lemma BatchItemsIdempotent(items: seq<Item>, r: FontRule)
    ensures BatchItems(BatchItems(items, r), r) == BatchItems(items, r)
  {
    var res := BatchItems(items, r);
    BatchItemsSpec(items, r);
    SetUnchanged(res, FontFamily, r.family);
    assert FamilyItems(res, r.family) == res;
    if HasKey(res, FontSize) {
      SetUnchanged(res, FontSize, r.size);
    }
    assert SizeItems(res, r.size) == res;
    if HasKey(res, FontWeight) {
      SetUnchanged(res, FontWeight, r.weight);
    }
    assert HasKey(res, FontSize) ==> HasKey(res, FontWeight);
  }

  // ---------------------------------------------------------------------------------------------
  // update_font_properties on a whole page

  /** The text of a well-formed block of class `name`. */
  ghost predicate IsBlock(name: string, m: string) {
    exists b :: ValidBlock(b) && m == BlockText(name, b)
  }

  /**
   * Running the update twice is running it once, on a page whose blocks for the class are all
   * well-formed.
   */
  lemma UpdateIdempotent(content: string, className: string, elementType: string)
    requires ValidName(className)
    requires AllMatches(content, BlockPattern(className), m => IsBlock(className, m))
    ensures var once := UpdateFontProperties(content, className, elementType);
            UpdateFontProperties(once, className, elementType) == once
  {
    if FontRules(elementType).Some? {
      var r := FontRules(elementType).value;
      RulesValid(elementType);
      var f := block => ReplaceProperties(block, r);
      var P := m => IsBlock(className, m);
      var p := BlockPattern(className);
      forall m | P(m) ensures MatchLen(f(m), p) == Some(|f(m)|) && f(f(m)) == f(m) {
        var b :| ValidBlock(b) && m == BlockText(className, b);
        var b' := b.(items := BatchItems(b.items, r));
        ReplacePropertiesBlock(className, b, r);
        ReplacePropertiesBlock(className, b', r);
        BatchItemsIdempotent(b.items, r);
        assert b'.(items := BatchItems(b'.items, r)) == b';
        BlockIsMatch(className, b');
      }
      BlockPatternWellBehaved(className);
      SubIdempotent(content, p, f, P);
    }
  }

  /** A page without `.name` is left as it is, so the presence test before each update is redundant. */
  lemma UpdateWithoutClass(content: string, className: string, elementType: string)
    requires !Contains(content, "." + className)
    ensures UpdateFontProperties(content, className, elementType) == content
  {
    if FontRules(elementType).Some? {
      var r := FontRules(elementType).value;
      SubNoLit(content, BlockPattern(className), block => ReplaceProperties(block, r));
    }
  }

  /**
   * Only the blocks of the class change: with a rule, the page is cut into single characters and
   * complete `.name\s*{...}` matches, and the update replaces each match by its rewriting and
   * keeps every other character where it was; with no rule, nothing changes.
   */
  lemma UpdateOnlyBlocks(content: string, className: string, elementType: string)
    ensures FontRules(elementType).None? ==> UpdateFontProperties(content, className, elementType) == content
    ensures FontRules(elementType).Some? ==>
              var pieces := Split(content, BlockPattern(className));
              var r := FontRules(elementType).value;
              && Original(pieces) == content
              && UpdateFontProperties(content, className, elementType) == Replaced(pieces, block => ReplaceProperties(block, r))
              && forall k :: 0 <= k < |pieces| && pieces[k].Matched? ==>
                   MatchLen(pieces[k].m, BlockPattern(className)) == Some(|pieces[k].m|)
  {
    if FontRules(elementType).Some? {
      var r := FontRules(elementType).value;
      SubBySplit(content, BlockPattern(className), block => ReplaceProperties(block, r));
    }
  }

  // ---------------------------------------------------------------------------------------------
  // A block the update does not settle

  /**
   * `.a { font-size: 1px font-family: x; }`: a block whose size declaration lacks its `;`, so a
   * size match runs on to the family declaration's `;`.
   */
  const Unterminated := ".a { font-size: 1px " + Decl(FontFamily, " ", "x") + " }"

  lemma NameA()
    ensures ValidName("a")
  {
    MissingChar("a", FontFamily, 0);
    MissingChar("a", FontSize, 0);
    MissingChar("a", FontWeight, 0);
  }

  lemma ValueX()
    ensures ValidValue("x")
  {
    MissingChar("x", FontFamily, 0);
    MissingChar("x", FontSize, 0);
    MissingChar("x", FontWeight, 0);
  }

  lemma UnterminatedHead()
    ensures BlockPattern("a").lit + " " + [BlockPattern("a").open.value] + " font-size: 1px " == ".a { font-size: 1px "
    ensures " " + [BlockPattern("a").term] == " }"
  {
  }

  lemma UnterminatedNoBrace()
    ensures '}' !in " font-size: 1px " + Decl(FontFamily, " ", "x") + " "
  {
    assert '}' !in " font-size: 1px ";
    assert '}' !in Decl(FontFamily, " ", "x");
  }

  lemma Regroup3(h: string, b1: string, d: string, b2: string, c: string)
    ensures h + (b1 + d + b2) + c == (h + b1) + d + (b2 + c)
  {
  }

  /** The whole text is one match of the block pattern of `a`. */
  lemma UnterminatedIsMatch()
    ensures MatchLen(Unterminated, BlockPattern("a")) == Some(|Unterminated|)
  {
    var p := BlockPattern("a");
    var d := Decl(FontFamily, " ", "x");
    var body := " font-size: 1px " + d + " ";
    UnterminatedHead();
    Regroup3(p.lit + " " + [p.open.value], " font-size: 1px ", d, " ", [p.term]);
    assert Assemble(p, " ", body) == Unterminated;
    UnterminatedNoBrace();
    MatchOfShape(p, " ", body);
  }

  lemma FamilyNotBefore()
    ensures !Contains(".a { font-size: 1px ", FontFamily)
  {
    MissingChar(".a { font-size: 1px ", FontFamily, 10);
  }

  lemma SizeNotBefore()
    ensures !Contains(".a { ", FontSize)
  {
    MissingChar(".a { ", FontSize, 0);
  }

  lemma KeysNotInClose()
    ensures !Contains(" }", FontFamily) && !Contains(" }", FontSize)
  {
    MissingChar(" }", FontFamily, 0);
    MissingChar(" }", FontSize, 0);
  }

  /** The block mentions `font-family`, followed by its colon. */
  lemma UnterminatedMentionsFamily()
    ensures Contains(Unterminated, FontFamily) && Contains(Unterminated, FontFamily + ":")
  {
    var d := Decl(FontFamily, " ", "x");
    ContainsMiddle(".a { font-size: 1px ", d, " }", FontFamily);
    ContainsMiddle(".a { font-size: 1px ", d, " }", FontFamily + ":");
  }

  /** Either updater's family substitution sets the one `font-family:` declaration. */
  lemma UnterminatedFamilySub(p: Pattern, v: string)
    requires DeclPattern(p, FontFamily)
    ensures Sub(Unterminated, p, Const(Replacement(FontFamily, v))) == ".a { font-size: 1px " + Replacement(FontFamily, v) + " }"
  {
    FamilyNotBefore();
    KeysNotInClose();
    ValueX();
    DeclIsMatch(p, FontFamily, " ", "x");
    SubOne(".a { font-size: 1px ", Decl(FontFamily, " ", "x"), " }", p, FontFamily, Const(Replacement(FontFamily, v)));
  }

  lemma SizeHead()
    ensures ".a { font-size: 1px " == ".a { " + (FontSize + ":") + " 1px "
    ensures " 1px " + (FontFamily + ": ") == " 1px font-family: "
  {
  }

  lemma Regroup5(h: string, k: string, sp: string, f: string, v: string, semi: string, c: string)
    ensures (h + k + sp) + (f + v + semi) + c == h + (k + (sp + f + v) + semi) + c
  {
  }

  /** After the family step, the size declaration's body runs on up to the family's `;`. */
  lemma Swallowed(v: string)
    ensures ".a { font-size: 1px " + Replacement(FontFamily, v) + " }"
            == ".a { " + (FontSize + ":" + (" 1px font-family: " + v) + ";") + " }"
  {
    SizeHead();
    Regroup5(".a { ", FontSize + ":", " 1px ", FontFamily + ": ", v, ";", " }");
  }

  /** Either updater's size substitution replaces the size declaration together with the family one. */
  lemma SwallowedSizeSub(p: Pattern, v: string, w: string)
    requires DeclPattern(p, FontSize) && ';' !in v
    ensures var c := ".a { font-size: 1px " + Replacement(FontFamily, v) + " }";
            Contains(c, FontSize) && Contains(c, FontSize + ":")
    ensures Sub(".a { font-size: 1px " + Replacement(FontFamily, v) + " }", p, Const(Replacement(FontSize, w)))
            == ".a { " + Replacement(FontSize, w) + " }"
  {
    var body := " 1px font-family: " + v;
    var m := FontSize + ":" + body + ";";
    Swallowed(v);
    assert ';' !in " 1px font-family: ";
    DeclBodyMatch(p, FontSize, body);
    SizeNotBefore();
    KeysNotInClose();
    ContainsMiddle(".a { ", m, " }", FontSize);
    ContainsMiddle(".a { ", m, " }", FontSize + ":");
    SubOne(".a { ", m, " }", p, FontSize, Const(Replacement(FontSize, w)));
  }

  /** The block holding only a size declaration. */
  function SizeOnly(v: string): Block {
    Block(" ", [Font(" ", FontSize, " ", v)], " ")
  }

  lemma OpenClose()
    ensures Head("a", " ") + " " == ".a { " && " " + "}" == " }"
  {
  }

  lemma Regroup1(h: string, sp: string, r: string, close: string)
    ensures h + ((sp + r + []) + (sp + close)) == (h + sp) + r + (sp + close)
  {
  }

  lemma SizeOnlyText(v: string)
    ensures BlockText("a", SizeOnly(v)) == ".a { " + Replacement(FontSize, v) + " }"
  {
    var it := Font(" ", FontSize, " ", v);
    assert [it][1..] == [];
    ReplacementDecl(FontSize, v);
    assert ItemsText([it]) == " " + Replacement(FontSize, v) + [];
    Regroup1(Head("a", " "), " ", Replacement(FontSize, v), "}");
    OpenClose();
  }

  lemma SizeOnlyFacts(v: string)
    ensures ValidValue(v) ==> ValidBlock(SizeOnly(v))
    ensures !HasKey(SizeOnly(v).items, FontFamily) && !HasKey(SizeOnly(v).items, FontWeight)
  {
    KeysDiffer();
    HasKeyOne(Font(" ", FontSize, " ", v), FontFamily);
    HasKeyOne(Font(" ", FontSize, " ", v), FontWeight);
  }

  /** The weight step puts the weight after a lone size declaration. */
  lemma SizeOnlyWeighted(v: string, w: string)
    ensures WeightItems(SizeOnly(v).items, w) == [Font(" ", FontSize, " ", v), WeightItem(w)]
  {
    var it := Font(" ", FontSize, " ", v);
    KeysDiffer();
    HasKeyOne(it, FontWeight);
    HasKeyOne(it, FontSize);
    assert [it][1..] == [];
    assert AddAfter([it], FontSize, WeightItem(w)) == [it, WeightItem(w)] + [];
  }

  /** The block holding a size and then a weight declaration. */
  function SizeWeight(v: string, w: string): Block {
    Block(" ", [Font(" ", FontSize, " ", v), WeightItem(w)], " ")
  }

  lemma SizeWeightFacts(v: string, w: string)
    requires ValidValue(v) && ValidValue(w)
    ensures ValidBlock(SizeWeight(v, w))
    ensures !HasKey(SizeWeight(v, w).items, FontFamily)
  {
    KeysDiffer();
    HasKeyTwo(Font(" ", FontSize, " ", v), WeightItem(w), FontFamily);
  }

  lemma Regroup(h: string, sp: string, r1: string, nl: string, r2: string, close: string)
    ensures h + ((sp + r1) + (nl + r2) + (sp + close)) == (h + sp) + r1 + nl + r2 + (sp + close)
  {
  }

  lemma SizeWeightText(v: string, w: string)
    ensures BlockText("a", SizeWeight(v, w)) == ".a { " + Replacement(FontSize, v) + "\n  " + Replacement(FontWeight, w) + " }"
  {
    ItemsTextTwo(Font(" ", FontSize, " ", v), WeightItem(w));
    ReplacementDecl(FontSize, v);
    ReplacementDecl(FontWeight, w);
    Regroup(Head("a", " "), " ", Replacement(FontSize, v), "\n  ", Replacement(FontWeight, w), "}");
    OpenClose();
  }

  /** The three steps on the unterminated block drop its family declaration. */
  lemma UnterminatedReplace()
    ensures ReplaceProperties(Unterminated, LabelRule) == BlockText("a", SizeWeight(LabelRule.size, LabelRule.weight))
  {
    var r := LabelRule;
    var c1 := ".a { font-size: 1px " + Replacement(FontFamily, r.family) + " }";
    UnterminatedMentionsFamily();
    UnterminatedFamilySub(BatchDecl(FontFamily), r.family);
    assert FamilyStep(Unterminated, r.family) == c1;
    SoraValue();
    SwallowedSizeSub(BatchDecl(FontSize), r.family, r.size);
    assert SizeStep(c1, r.size) == ".a { " + Replacement(FontSize, r.size) + " }";
    SizeOnlyText(r.size);
    SizeOnlyFacts(r.size);
    RulesValid("label");
    RuleValid(r);
    NameA();
    WeightStepBlock("a", SizeOnly(r.size), r.weight);
    SizeOnlyWeighted(r.size, r.weight);
  }

  /**
   * The update is not idempotent on a malformed block: on `Unterminated`, as a label, the size
   * match swallows the family declaration, so the first pass leaves
   * `.a { font-size: clamp(1rem, 2vw, 1.5rem);\n  font-weight: 400; }`, which has no family, and
   * the second pass inserts one.
   */
  lemma NotIdempotentOnUnterminated()
    ensures UpdateFontProperties(Unterminated, "a", "label")
            == ".a { " + Replacement(FontSize, LabelRule.size) + "\n  " + Replacement(FontWeight, LabelRule.weight) + " }"
    ensures var once := UpdateFontProperties(Unterminated, "a", "label");
            UpdateFontProperties(once, "a", "label") != once
  {
    var r := LabelRule;
    var p := BlockPattern("a");
    var f := block => ReplaceProperties(block, r);
    var b := SizeWeight(r.size, r.weight);
    UnterminatedIsMatch();
    SubWhole(Unterminated, p, f);
    UnterminatedReplace();
    var once := BlockText("a", b);
    SizeWeightText(r.size, r.weight);
    assert UpdateFontProperties(Unterminated, "a", "label") == once;
    RulesValid("label");
    RuleValid(r);
    NameA();
    SizeWeightFacts(r.size, r.weight);
    BlockIsMatch("a", b);
    SubWhole(once, p, f);
    ReplacePropertiesBlock("a", b, r);
    var res := BatchItems(b.items, r);
    BatchItemsSpec(b.items, r);
    var twice := BlockText("a", b.(items := res));
    assert UpdateFontProperties(once, "a", "label") == twice;
    FirstLead(b.(items := res));
    FirstLead(b);
  }

  /** The character right after `.a {` is the first declaration's leading whitespace. */
  lemma FirstLead(b: Block)
    requires b.ws == " " && b.items != [] && b.items[0].lead != []
    ensures BlockText("a", b)[4] == b.items[0].lead[0]
  {
    ItemsTextCons(b.items, b.tail + "}");
    assert |Head("a", b.ws)| == 4;
  }

  // ---------------------------------------------------------------------------------------------
  // process_module

  /** `module_name.replace('-', '_')`. */
  function ModulePrefix(moduleName: string): string {
    ReplaceAll(moduleName, "-", "_")
  }

  /** The fourteen class names tried for a module, each with its element type, in order. */
  function Candidates(prefix: string): seq<(string, string)> {
    [ (prefix + "_label", "label"), (prefix + "-label", "label"), (prefix + "__label", "label"),
      (prefix + "_subtitle", "subtitle"), (prefix + "-subtitle", "subtitle"), (prefix + "__subtitle", "subtitle"),
      (prefix + "_title", "title"), (prefix + "-title", "title"), (prefix + "__title", "title"),
      (prefix + "_description", "description"), (prefix + "-description", "description"),
      (prefix + "__description", "description"),
      (prefix + "_tag", "label"), (prefix + "-tag", "label") ]
  }

  /** One candidate: update when the page mentions `.name`. */
  function ApplyCandidate(content: string, candidate: (string, string)): string {
    if Contains(content, "." + candidate.0) then UpdateFontProperties(content, candidate.0, candidate.1) else content
  }

  /** The candidates applied in order. */
  function ApplyCandidates(content: string, candidates: seq<(string, string)>): string {
    if candidates == [] then content
    else ApplyCandidate(ApplyCandidates(content, candidates[..|candidates| - 1]), candidates[|candidates| - 1])
  }

  /**
   * The prefix is the module's name with every `-` turned into `_` and every other character kept
   * in place, so it holds no `-`; there are fourteen candidates, all named after the prefix, and
   * every one has a rule.
   */
  lemma CandidatesSpec(moduleName: string)
    ensures |ModulePrefix(moduleName)| == |moduleName|
    ensures forall i :: 0 <= i < |moduleName| ==>
              ModulePrefix(moduleName)[i] == (if moduleName[i] == '-' then '_' else moduleName[i])
    ensures '-' !in ModulePrefix(moduleName)
    ensures var cs := Candidates(ModulePrefix(moduleName));
            && |cs| == 14
            && (forall k :: 0 <= k < |cs| ==> FontRules(cs[k].1).Some?)
            && (forall k :: 0 <= k < |cs| ==> ModulePrefix(moduleName) <= cs[k].0)
  {
    DashesReplaced(moduleName);
  }

  lemma {:induction false} DashesReplaced(s: string)
    ensures |ReplaceAll(s, "-", "_")| == |s|
    ensures forall i :: 0 <= i < |s| ==> ReplaceAll(s, "-", "_")[i] == (if s[i] == '-' then '_' else s[i])
    ensures '-' !in ReplaceAll(s, "-", "_")
    decreases |s|
  {
    if s != [] {
      var rest := ReplaceAll(s[1..], "-", "_");
      DashesReplaced(s[1..]);
      var head: string := if s[0] == '-' then "_" else [s[0]];
      assert ReplaceAll(s, "-", "_") == head + rest;
      forall i | 0 < i < |s| ensures ReplaceAll(s, "-", "_")[i] == (if s[i] == '-' then '_' else s[i]) {
        assert (head + rest)[i] == rest[i - 1];
        assert s[1..][i - 1] == s[i];
      }
    }
  }

  /**
   * `process_module`: a missing section file gives false and writes nothing; otherwise the
   * candidates are applied in order and the file is written, and true returned, exactly when the
   * text changed.
   */
  method ProcessModule(fs: FileSystem, moduleName: string) returns (written: bool, files: FileSystem)
    ensures SectionPath(moduleName) !in fs ==> !written && files == fs
    ensures SectionPath(moduleName) in fs ==>
              var path := SectionPath(moduleName);
              var result := ApplyCandidates(fs[path], Candidates(ModulePrefix(moduleName)));
              && (written <==> result != fs[path])
              && files == (if written then fs[path := result] else fs)
  {
    var path := SectionPath(moduleName);
    if path !in fs {
      return false, fs;
    }
    var content := fs[path];
    var original := content;
    var candidates := Candidates(ModulePrefix(moduleName));
    var i := 0;
    while i < |candidates|
      invariant 0 <= i <= |candidates|
      invariant content == ApplyCandidates(original, candidates[..i])
    {
      assert candidates[..i + 1][..i] == candidates[..i];
      var (className, elementType) := candidates[i];
      if Contains(content, "." + className) {
        content := UpdateFontProperties(content, className, elementType);
      }
      i := i + 1;
    }
    assert candidates[..i] == candidates;
    if content != original {
      return true, fs[path := content];
    }
    return false, fs;
  }
}
