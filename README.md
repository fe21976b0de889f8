# Star-UI site tools in Dafny

Star-UI is a static site. Its pages are assembled from section fragments by a few Python
tools. This project models the logic of those tools and proves what they promise:

- **The page assembler** (`build` and `build_all` in tools/build.py) is module `Assembler`.
  `build` concatenates the global head, a `<body>` tag, one commented fragment per configured
  section that exists, a scripts marker and the global footer scripts. It writes the result to
  the configured output. `build_all` selects preset pages by key and builds them in table order.
  It runs the dynamic step (the social-links generator) only before the first page.
- **The two font updaters** rewrite the `font-family`, `font-size` and `font-weight`
  declarations of the rule blocks of chosen classes in a section file.
  - `BatchFonts` models tools/batch_update_fonts.py. Its class names are enumerated from the
    module name.
  - `SmartFonts` models tools/smart_font_updater.py. Its class names are classified by keywords.
  - Both rely on `CssScan`. It is a hand-written scanner for the three regular-expression shapes
    the updaters use, with `Sub` standing for `re.sub`.
  - Both also rely on `CssDecls`. It describes a well-formed rule block as a `Block` value: a
    selector, a list of declarations `Item`, and the closing brace. It proves that each textual
    rewrite acts on such a block as a simple operation on its declaration list.
- **The social-links generator** (tools/generate-social-links.py) is module `SocialLinks`. It
  produces the preamble, six lines per enabled link with a known icon, and a closing.
- **The resource-path rewriter** (update-resource-paths.py) is module `ResourcePaths`. It replaces,
  in table order, every old asset path of a module by its new path.

Shared pieces:

- `Text` holds Python's `in`, `str.replace`, `str.strip`, `str.upper`/`str.lower` and
  `"".join`/`"\n".join` on `seq<char>`.
- `Files` holds the file system, a `map` from path to contents; an absent key is a missing file.
- `Wrappers` holds `Option`.

The source's constant tables are constants of the model, with the same entries in the same order:
`Assembler.Pages` is `PAGES` (tools/build.py:12-48), `BatchFonts.FontRules` is `FONT_RULES`
(tools/batch_update_fonts.py:31-52), `SmartFonts.Rules` and the keyword lists are `RULES` and the
`*_KEYWORDS` lists (tools/smart_font_updater.py:10-33), `SocialLinks.Preamble`, `SiteMarkup` and
`Closing` are the fixed lines of tools/generate-social-links.py:26-101, 114-126, and
`ResourcePaths.ResourceMappings` is `RESOURCE_MAPPINGS` (update-resource-paths.py:11-45).

Printing, exceptions and the `main` drivers are not modelled. Each tool's effect is its return
value plus the new file map.

Points where the code's behaviour is easy to misread:

- `re.sub` rewrites every matching block of a class (tools/batch_update_fonts.py:107,
  tools/smart_font_updater.py:103).
- `font-size` is only ever replaced; neither updater inserts it
  (tools/batch_update_fonts.py:80-86, tools/smart_font_updater.py:84-90).
- Only the enumerating updater inserts `font-weight`, and it does so after each `font-size`
  declaration (tools/batch_update_fonts.py:96-103).
- The enumerating updater tries 14 class names; there is no `__tag` candidate
  (tools/batch_update_fonts.py:127-145).
- Applying an update twice is the same as applying it once only when the class's blocks are
  well-formed (see Left out).

## Model

| member | source | states |
|---|---|---|
| Assembler.BuildSpec | tools/build.py:73-174 | defines one `build` call as a value: the dynamic write, the three existence checks in the source's order, and the single output write with its report; its properties are `BuildVerdict`, `DynamicStepEffect` and `PartitionSummary` |
| Assembler.Build | tools/build.py:73-174 | the outcome is `BuildSpec`: the dynamic fragment is written first when asked; a missing config, head or footer fails with no report and no other write; otherwise the configured output gets head + body and the report lists found and skipped sections |
| Assembler.AssembleBody | tools/build.py:116-147 | the body is the body tag, then marker + fragment + newline for each configured section whose file exists (in configuration order), then the scripts marker and the footer; the two lists are the found and the missing sections |
| Assembler.SectionsStep | tools/build.py:124-140 | one more section appends its marker, fragment and newline to the text and its name to the found list, or appends its name to the missing list |
| Assembler.BuildVerdict | tools/build.py:86-152 | success iff config, head and footer exist after the dynamic step; failure reports nothing and changes nothing else; success writes exactly the configured output, which starts with the head and ends with the footer |
| Assembler.DynamicStepEffect | tools/build.py:78-83 | the dynamic step writes the generated fragment and no other file, and only when it is requested and produces output |
| Assembler.BodyTagClass | tools/build.py:116-118 | with a class holding a non-whitespace character the tag is `<body class="X">`, X the stripped class (non-empty, no edge whitespace); otherwise (absent or blank) `<body>` |
| Assembler.SectionsDistribute | tools/build.py:124-140 | text, found list and missing list of a concatenation of section lists are the concatenations of each part's, so configuration order is kept |
| Assembler.MissingContributesNothing | tools/build.py:128-140 | the sections text equals the text of the found sections alone |
| Assembler.PartitionSections | tools/build.py:121-140 | each name appears in the found list as often as configured when its file exists, and not at all otherwise; in the missing list the other way round, so duplicates are emitted once per occurrence |
| Assembler.PartitionSummary | tools/build.py:121-140 | found + missing is a permutation of the configured sections, their lengths add up, and membership is by file existence |
| Assembler.Failed | tools/build.py:209 | the failed results are empty iff every result succeeded |
| Assembler.SelectPages | tools/build.py:179-185 | defines the key selection of `build_all`: all of `PAGES` for no keys, else the table's pages whose key is among the lower-cased keys, or failure when a key is unknown; stated by `SelectPagesSpec` |
| Assembler.RunPages | tools/build.py:198-205 | defines the build loop of `build_all`: each page built in table order on the files the previous builds left, with the dynamic step for the first page; stated by `RunPagesReportsEveryPage` and `DynamicStepOnceSuffices` |
| Assembler.BuildAll | tools/build.py:177-224 | an unknown key fails with no build and no write; otherwise the selected pages are built in order, dynamic step first only, one result per page, and the verdict is true iff every page succeeded |
| Assembler.BuildPages | tools/build.py:198-205 | the loop's results and files are `RunPages` of the selected pages, one result per page |
| Assembler.PagesWithKeysSpec | tools/build.py:181 | the selected pages are exactly the table's pages whose key was requested, and selection distributes over concatenation (table order) |
| Assembler.PagesWithKeysAppend | tools/build.py:181 | selecting from a concatenation selects from each part in order |
| Assembler.SelectPagesSpec | tools/build.py:179-185 | no keys selects the whole table; otherwise a request fails iff some lower-cased key names no preset page, and else the pages selected are exactly the table's pages whose key was requested in any case |
| Assembler.RunPagesReportsEveryPage | tools/build.py:199-205 | every page is reported, in order, with its name and output, whatever earlier pages did |
| Assembler.DynamicStepOnceSuffices | tools/build.py:202 | when no output overwrites the fragment path, running the dynamic step only for the first page gives the same results and files as running it for every page, and the fragment is in place afterwards |
| Assembler.DynamicStepRedundant | tools/build.py:78-79 | with the fragment already in place, a build that runs the dynamic step equals one that does not |
| Assembler.BuildKeepsFragment | tools/build.py:150-152 | a build whose output is not the fragment path leaves the generated fragment in place |
| CssScan.Sub | tools/batch_update_fonts.py:107 | defines `re.sub` for the three pattern shapes: scanning left to right, each match replaced by `f` of it and the scan resumed after it, every other character kept; stated by `SubBySplit`, `SubKeep`, `SubTake` and `SubIdempotent` |
| CssScan.Found | tools/smart_font_updater.py:68 | defines `re.search(r'key\s*:', block)` as a truth value: the literal followed by whitespace and the opener occurs somewhere; stated by `FoundContains`, `ContainsFound` and `CssDecls.FoundBlock` |
| CssScan.IndexOfSpec | tools/batch_update_fonts.py:62 | the index found holds the character and none before it does; none is found iff the character does not occur |
| CssScan.MatchOfShape | tools/batch_update_fonts.py:62 | the literal, whitespace, the opener, a body without the terminator (non-empty when required) and the terminator together form one complete match |
| CssScan.ShapeOfMatch | tools/batch_update_fonts.py:62 | conversely, every match has that shape |
| CssScan.MatchLenSpec | tools/batch_update_fonts.py:62 | a match starts with the literal and ends at the first terminator after its body starts; the body is non-empty when required |
| CssScan.OpeningSpec | tools/smart_font_updater.py:70 | between the literal and the body lie only whitespace and the opener |
| CssScan.MatchExtends | tools/batch_update_fonts.py:62 | a complete match is the same match whatever text follows it (the lazy body stops at the first terminator) |
| CssScan.MatchPrefix | tools/batch_update_fonts.py:62 | a match is also a complete match on its own |
| CssScan.SubNoLit | tools/batch_update_fonts.py:107 | substitution leaves text without the literal unchanged |
| CssScan.SubKeep | tools/batch_update_fonts.py:107 | a prefix where no match can start is kept verbatim and the rest is substituted on its own |
| CssScan.SubTake | tools/batch_update_fonts.py:107 | a complete match at the start is replaced and the rest is substituted on its own |
| CssScan.SubWhole | tools/batch_update_fonts.py:107 | a text that is one complete match is replaced as a whole by `f` of it |
| CssScan.SubBySplit | tools/batch_update_fonts.py:107 | the text is cut into kept characters and complete matches that glue back to it; substitution replaces each match by `f` of it and keeps every other character in place |
| CssScan.NoMatchKept | tools/batch_update_fonts.py:107 | for a well-behaved pattern, rewriting a later match cannot create a match at an earlier position |
| CssScan.SubIdempotent | tools/batch_update_fonts.py:107 | substituting twice equals substituting once when `f` maps each match to a complete match that `f` fixes |
| CssScan.StillNoMatch | tools/batch_update_fonts.py:107 | a position where the first pass found no match has none in the second pass |
| CssScan.FoundContains | tools/smart_font_updater.py:68 | what `re.search` finds starts with the literal, which therefore occurs in the text |
| CssScan.ContainsFound | tools/smart_font_updater.py:68 | a text holding the literal directly followed by the opener is always found |
| CssDecls.KeysDistinct | tools/batch_update_fonts.py:69 | a property name followed by its colon holds no other property name |
| CssDecls.DeclWords | tools/batch_update_fonts.py:69 | a declaration holds exactly one property name: its own |
| CssDecls.ItemWords | tools/batch_update_fonts.py:69 | a declaration's text holds a property name iff it is a font declaration of that name, and ends with `;` |
| CssDecls.ItemsWords | tools/batch_update_fonts.py:69 | a declaration list's text holds a property name iff the list declares it |
| CssDecls.BlockWords | tools/batch_update_fonts.py:69 | `'font-…' in block` holds for a well-formed block iff the block declares that property |
| CssDecls.FoundBlock | tools/smart_font_updater.py:68 | `re.search(r'key\s*:')` finds something in a well-formed block iff the block declares `key` |
| CssDecls.DeclIsMatch | tools/batch_update_fonts.py:71 | a font declaration is one complete match of its property's pattern, in both updaters' forms |
| CssDecls.DeclBodyMatch | tools/batch_update_fonts.py:83 | `key:`, any non-empty body without `;`, and `;` form one complete match of the declaration pattern, even when the body holds another declaration |
| CssDecls.SubOne | tools/batch_update_fonts.py:70-74 | a declaration match between a prefix ending in a space and a suffix, neither holding the property name, is the only text the declaration substitution replaces |
| CssDecls.BlockIsMatch | tools/batch_update_fonts.py:62 | a well-formed block is one complete match of its class's block pattern |
| CssDecls.BlockPatternWellBehaved | tools/batch_update_fonts.py:62 | the block pattern of a valid class name cannot overlap itself |
| CssDecls.SubItems | tools/batch_update_fonts.py:70-74 | the declaration substitution runs over a declaration list one declaration at a time |
| CssDecls.SubBlock | tools/batch_update_fonts.py:70-74 | on a whole block the declaration substitution keeps the selector and the closing part |
| CssDecls.RewriteSet | tools/batch_update_fonts.py:70-74 | replacing each match by `key: v;` sets the value of every declaration of `key` |
| CssDecls.RewriteAdd | tools/batch_update_fonts.py:99-103 | appending a declaration's text to each match inserts that declaration after each declaration of `key` |
| CssDecls.SetBlock | tools/batch_update_fonts.py:70-74 | on a well-formed block, the replacement is `SetValue` on its declarations and keeps it well-formed |
| CssDecls.AddBlock | tools/batch_update_fonts.py:99-103 | on a well-formed block, the insertion is `AddAfter` on its declarations and keeps it well-formed |
| CssDecls.PrependBlock | tools/batch_update_fonts.py:77 | putting a declaration right after the first `{` makes it the first declaration |
| CssDecls.SetHasKey | tools/batch_update_fonts.py:70-74 | setting values neither adds nor removes any property |
| CssDecls.AddHasKey | tools/batch_update_fonts.py:99-103 | inserting after `key` adds the inserted property exactly when `key` was declared |
| CssDecls.SetSettles | tools/batch_update_fonts.py:70-74 | after setting, every declaration of `key` has the new value |
| CssDecls.SetUnchanged | tools/batch_update_fonts.py:70-74 | setting changes nothing iff every declaration of `key` already had the value |
| CssDecls.SetOthers | tools/batch_update_fonts.py:70-74 | setting keeps every other declaration, in order |
| CssDecls.AddOthers | tools/batch_update_fonts.py:99-103 | inserting font declarations keeps every other declaration, in order |
| BatchFonts.FontRules | tools/batch_update_fonts.py:31-52 | defines `FONT_RULES.get(element_type)`: description and subtitle share one rule; label and title have their own; every other type has none; stated by `RulesValid` |
| BatchFonts.UpdateFontProperties | tools/batch_update_fonts.py:55-108 | defines `update_font_properties`: no rule leaves the text alone, otherwise `re.sub` of the class's block pattern with `ReplaceProperties`; stated by `UpdateOnlyBlocks` and `UpdateIdempotent` |
| BatchFonts.ReplaceProperties | tools/batch_update_fonts.py:64-105 | defines `replace_properties`: the family, size and weight steps in that order; stated by `ReplacePropertiesBlock` and `BatchItemsSpec` |
| BatchFonts.FamilyStep | tools/batch_update_fonts.py:67-77 | defines the family step: `re.sub` of `font-family:` declarations when the block mentions the property, else insertion after the first `{`; stated by `FamilyStepBlock` |
| BatchFonts.SizeStep | tools/batch_update_fonts.py:79-86 | defines the size step: `re.sub` of `font-size:` declarations when the block mentions the property, else no change; stated by `SizeStepBlock` |
| BatchFonts.WeightStep | tools/batch_update_fonts.py:88-103 | defines the weight step: replace weight declarations, else append a weight declaration to each size declaration, else no change; stated by `WeightStepBlock` |
| BatchFonts.Candidates | tools/batch_update_fonts.py:127-145 | defines the fourteen (class name, element type) pairs tried for a module, in the source's order; stated by `CandidatesSpec` |
| BatchFonts.ApplyCandidates | tools/batch_update_fonts.py:127-154 | defines the candidate loop: each candidate whose `.name` occurs in the text so far is updated, in order; stated by `ProcessModule` and `UpdateWithoutClass` |
| BatchFonts.RulesValid | tools/batch_update_fonts.py:31-52 | every value of `FONT_RULES` is one a declaration can hold (no `;`, `}` or property name) |
| BatchFonts.FamilyStepBlock | tools/batch_update_fonts.py:67-77 | on a well-formed block, the family step sets every family declaration, or else prepends `\n  font-family: V;` |
| BatchFonts.FamilyPrepended | tools/batch_update_fonts.py:77 | replacing the first `{` inserts the family declaration as the first declaration |
| BatchFonts.SizeStepBlock | tools/batch_update_fonts.py:79-86 | the size step sets every size declaration and never adds one |
| BatchFonts.WeightStepBlock | tools/batch_update_fonts.py:88-103 | the weight step sets every weight declaration, or else inserts `\n  font-weight: W;` after each size declaration, or else changes nothing |
| BatchFonts.ReplacePropertiesBlock | tools/batch_update_fonts.py:64-105 | on a well-formed block the text rewriting is `BatchItems` on its declarations and keeps the block well-formed |
| BatchFonts.FamilyItemsSpec | tools/batch_update_fonts.py:67-77 | after the family step the family is declared with the rule's value (first when it was absent); other properties and declarations are kept |
| BatchFonts.SizeItemsSpec | tools/batch_update_fonts.py:79-86 | the size step settles the size, keeps a settled family, and adds or removes nothing |
| BatchFonts.WeightItemsSpec | tools/batch_update_fonts.py:88-103 | the weight step declares a weight iff a weight or a size was declared, settles it, and keeps family, size and other declarations |
| BatchFonts.BatchItemsSpec | tools/batch_update_fonts.py:64-105 | family declared and settled (first if new); size declared iff before; weight declared iff weight or size before; all settled; other declarations kept in order |
| BatchFonts.BatchItemsIdempotent | tools/batch_update_fonts.py:64-105 | rewriting a rewritten declaration list changes nothing |
| BatchFonts.UpdateIdempotent | tools/batch_update_fonts.py:55-108 | when every block of the class is well-formed, updating twice equals updating once |
| BatchFonts.UpdateWithoutClass | tools/batch_update_fonts.py:149-150 | a page without `.name` is left unchanged, so the presence test is redundant |
| BatchFonts.UnterminatedFamilySub | tools/batch_update_fonts.py:69-74 | on `.a { font-size: 1px font-family: x; }` (`Unterminated`) the family substitution, in either updater's form, sets the one family declaration |
| BatchFonts.SwallowedSizeSub | tools/batch_update_fonts.py:81-86 | after that, the size substitution (in either form) replaces `font-size: 1px font-family: V;` as one match, so the family declaration disappears |
| BatchFonts.UnterminatedReplace | tools/batch_update_fonts.py:64-105 | `replace_properties` turns that block into one with a size and a weight declaration and no family declaration |
| BatchFonts.NotIdempotentOnUnterminated | tools/batch_update_fonts.py:55-108 | updating `.a { font-size: 1px font-family: x; }` as a label gives `.a { font-size: clamp(1rem, 2vw, 1.5rem);\n  font-weight: 400; }` (stated as `font-size: ` and `font-weight: ` followed by the label rule's values), and updating that again changes it, because a family declaration is inserted; so the update is not idempotent on malformed blocks |
| BatchFonts.UpdateOnlyBlocks | tools/batch_update_fonts.py:55-108 | with no rule nothing changes; otherwise only complete `.name\s*{…}` matches are replaced, each by its rewriting, and every other character is kept in place |
| BatchFonts.CandidatesSpec | tools/batch_update_fonts.py:127-145 | the prefix has the module name's length and agrees with it character by character, except that each `-` becomes `_`, so it has no `-`; there are 14 candidates, each named after the prefix, each with a rule |
| BatchFonts.ProcessModule | tools/batch_update_fonts.py:111-164 | a missing file gives false and no write; otherwise the candidates present are applied in order, and the file is written and true returned iff the text changed |
| SmartFonts.Rules | tools/smart_font_updater.py:17-33 | defines `RULES`: a rule for label, title and description, none for any other type; stated by `SmartRulesValid` |
| SmartFonts.IdentifyType | tools/smart_font_updater.py:36-55 | defines `identify_type` on the lower-cased name: title before label before description; stated by `IdentifySpec`, `SubtitleIsLabel` and `IdentifyCaseInsensitive` |
| SmartFonts.BraceInsert | tools/smart_font_updater.py:76-81 | defines `re.sub(r'(\{)\s*', r'\1' + t, block, count=1)`: `t` after the first `{`, the whitespace after it dropped; stated by `FamilyInserted` |
| SmartFonts.FamilyStep | tools/smart_font_updater.py:67-81 | defines the family step: replace every `font-family\s*:` declaration when one is found, else `BraceInsert`; stated by `FamilyStepBlock` |
| SmartFonts.ReplaceStep | tools/smart_font_updater.py:83-99 | defines the size and weight steps: replace the declarations when one is found, else no change; stated by `ReplaceStepBlock` |
| SmartFonts.UpdateBlock | tools/smart_font_updater.py:63-101 | defines `replacer`: the family, size and weight steps in that order; stated by `UpdateBlockText` and `SmartBlockSpec` |
| SmartFonts.UpdateCssBlock | tools/smart_font_updater.py:58-103 | defines `update_css_block`: `re.sub` of the class's block pattern with `replacer`; stated by `UpdateOnlyBlocks` and `UpdateCssBlockIdempotent` |
| SmartFonts.ApplyClasses | tools/smart_font_updater.py:119-122 | defines the class loop: each name that is classified and has a rule gets `update_css_block`, in order; stated by `ApplyClassified` and `ProcessFile` |
| SmartFonts.Modified | tools/smart_font_updater.py:119-123 | defines `modified_classes`: `name -> type` for each name the loop updates, in order; stated by `ModifiedSpec` |
| SmartFonts.AnyKeywordSpec | tools/smart_font_updater.py:41-53 | a keyword list matches iff one of its keywords occurs |
| SmartFonts.IdentifyCaseInsensitive | tools/smart_font_updater.py:38 | a name and its lower-case form are classified alike |
| SmartFonts.IdentifySpec | tools/smart_font_updater.py:36-55 | title iff "title" or "heading" occurs without "subtitle"; else label iff "label", "tag" or "subtitle"; else description iff "desc"; else none; every type produced has a rule |
| SmartFonts.SubtitleIsLabel | tools/smart_font_updater.py:40-48 | a name containing "subtitle" is classified as label, never as title |
| SmartFonts.SmartRulesValid | tools/smart_font_updater.py:17-33 | every value of `RULES` is one a declaration can hold |
| SmartFonts.OpenedSpec | tools/smart_font_updater.py:76-81 | opening a block with a declaration keeps its selector whitespace, puts the declaration first, and keeps the other declarations and properties |
| SmartFonts.FamilyStepBlock | tools/smart_font_updater.py:67-81 | on a well-formed block, the family step sets every family declaration, or else inserts `\n    font-family: V;` after `{` and drops the whitespace after it |
| SmartFonts.FamilyInserted | tools/smart_font_updater.py:76-81 | the insertion after the first `{` makes the family declaration the first one |
| SmartFonts.ReplaceStepBlock | tools/smart_font_updater.py:83-99 | the size and weight steps set every existing declaration and never add one |
| SmartFonts.UpdateBlockText | tools/smart_font_updater.py:63-101 | on a well-formed block the `replacer` is `SmartBlock` on its declarations and keeps the block well-formed |
| SmartFonts.SmartBlockSpec | tools/smart_font_updater.py:63-101 | family declared and settled (first if new); size and weight declared iff before, and settled; other declarations kept in order |
| SmartFonts.SmartBlockIdempotent | tools/smart_font_updater.py:63-101 | rewriting a rewritten block changes nothing |
| SmartFonts.UpdateOnlyBlocks | tools/smart_font_updater.py:58-103 | only complete `.name\s*{…}` matches are replaced, each by the `replacer` of it; every other character is kept in place |
| SmartFonts.UpdateCssBlockIdempotent | tools/smart_font_updater.py:58-103 | when every block of the class is well-formed, updating twice equals updating once |
| SmartFonts.UpdateWithoutClass | tools/smart_font_updater.py:103 | a page without `.name` is left unchanged |
| SmartFonts.UnterminatedUpdate | tools/smart_font_updater.py:63-101 | the `replacer` turns `.a { font-size: 1px font-family: x; }` into a block holding only a size declaration |
| SmartFonts.CssBlockNotIdempotent | tools/smart_font_updater.py:58-103 | updating that block with the label rule gives `.a { font-size: clamp(1rem, 2vw, 1.5rem); }` (stated with the rule's size value), and updating that again changes it, because a family declaration is inserted |
| SmartFonts.Classified | tools/smart_font_updater.py:119-121 | the names kept are classified names of the input, at most as many |
| SmartFonts.ModifiedSpec | tools/smart_font_updater.py:119-123 | one report line `name -> type` per classified name, in order |
| SmartFonts.ApplyClassified | tools/smart_font_updater.py:119-122 | names without a keyword change nothing: applying all names equals applying the classified ones |
| SmartFonts.ProcessFile | tools/smart_font_updater.py:106-134 | for distinct class names, as `set(classes)` yields: a missing file gives (false, []) and no write; otherwise names are applied in order, and the file is written and (true, report) returned iff the text changed, else (false, []) |
| SocialLinks.Generated | tools/generate-social-links.py:18-126 | defines the lines `generate_social_links` builds: none when no link is enabled, else the preamble, the anchors and the closing; stated by `NothingEnabled` and `GeneratedShape` |
| SocialLinks.EnabledLinks | tools/generate-social-links.py:19 | defines the filter on `link.get('enabled', True)`, in order; stated by `EnabledSpec` and `EnabledAppend` |
| SocialLinks.Anchors | tools/generate-social-links.py:105-121 | defines the link loop: six anchor lines per link whose icon is known, a skipped link otherwise; stated by `AnchorsSpec` and `AnchorsRendered` |
| SocialLinks.GenerateSocialLinks | tools/generate-social-links.py:10-133 | the lines are `Generated`: none and no write when no link is enabled; otherwise their newline-joined text is written to the links section |
| SocialLinks.AnchorsStep | tools/generate-social-links.py:114-121 | each enabled link extends the lines by its anchor, or by nothing |
| SocialLinks.EnabledSpec | tools/generate-social-links.py:19 | a link is kept iff its `enabled` is true or absent; no more links than configured |
| SocialLinks.EnabledAppend | tools/generate-social-links.py:19 | filtering keeps configuration order |
| SocialLinks.NothingEnabled | tools/generate-social-links.py:21-23 | nothing is generated iff no link is enabled |
| SocialLinks.WithIconSpec | tools/generate-social-links.py:105-112 | a link gets an anchor iff its icon is a key of the icon table with a non-empty value |
| SocialLinks.AnchorsRendered | tools/generate-social-links.py:106-121 | the anchors are the rendering of exactly the links with a usable icon, in order |
| SocialLinks.RenderedSpec | tools/generate-social-links.py:114-121 | six lines per link; the k-th six lines are the k-th link's anchor (URL, icon markup, name) |
| SocialLinks.AnchorsSpec | tools/generate-social-links.py:106-121 | the anchor count is six times the links with a usable icon, and the k-th six lines are the anchor of the k-th such link |
| SocialLinks.GeneratedShape | tools/generate-social-links.py:26-126 | the output is the fixed preamble, 6n anchor lines and the two closing lines, with n at most the number of enabled links |
| ResourcePaths.MappingsFor | update-resource-paths.py:61 | defines `RESOURCE_MAPPINGS.get(module_name, {})` in the table's order; stated by `UnmappedModules` |
| ResourcePaths.ApplyMappings | update-resource-paths.py:67-74 | defines the mapping loop as a value: each old path that occurs in the text so far is replaced everywhere and counted once; stated by `ReplacePaths`, `CountBound`, `NoneApplies` and `ApplyAppend` |
| ResourcePaths.UpdateModulePaths | update-resource-paths.py:48-84 | a missing file gives false, no change and no write; otherwise the result is true, the count is the number of mappings that applied, and the file is rewritten iff that count is positive |
| ResourcePaths.ReplacePaths | update-resource-paths.py:67-74 | the loop's text and count are `ApplyMappings` of the table, and `updated` holds iff the count is positive |
| ResourcePaths.CountBound | update-resource-paths.py:69-74 | at most one change is counted per mapping |
| ResourcePaths.NoneApplies | update-resource-paths.py:70-79 | no mapping applies iff no old path occurs in the original text, and then the text is unchanged |
| ResourcePaths.ApplyAppend | update-resource-paths.py:70-74 | applying a table in two parts is applying the first part, then the second (table order) |
| ResourcePaths.UnmappedModules | update-resource-paths.py:61-65 | a module outside the table (`stats` and `cta` are) has no mapping, so whatever its text no mapping applies and the text is unchanged; with `UpdateModulePaths` the result is true, the count 0 and nothing is written |
| Text.Lower | tools/smart_font_updater.py:38 | `str.lower()` on ASCII: same length, each character lower-cased |
| Text.Upper | tools/build.py:132 | `str.upper()` on ASCII: same length, each character upper-cased |
| Text.Strip | tools/build.py:116 | defines `str.strip()` with Python's whitespace set; stated by `StripSpec` |
| Text.ReplaceAll | update-resource-paths.py:72 | defines `str.replace` at every non-overlapping occurrence, left to right; stated by `ReplaceAllLength`, `ReplaceAllBySelf` and `ReplaceAllAbsent` |
| Text.LowerIdempotent | tools/smart_font_updater.py:38 | lower-casing twice is lower-casing once |
| Text.ContainsIffOccurs | tools/batch_update_fonts.py:69 | `t in s` iff `t` occurs at some index of `s` |
| Text.ReplaceAllLength | update-resource-paths.py:72 | `str.replace` changes the length by the count times the difference of the lengths |
| Text.ReplaceAllBySelf | update-resource-paths.py:72 | replacing a text by itself changes nothing |
| Text.ReplaceAllAbsent | update-resource-paths.py:71-72 | a non-empty target occurs iff its count is positive; when absent, replacing leaves the text unchanged |
| Text.ReplaceFirstAfter | tools/batch_update_fonts.py:77 | `replace('{', '{' + t, 1)` inserts `t` right after the first brace |
| Text.StripSpec | tools/build.py:116 | `strip` removes exactly the surrounding whitespace; the result is empty iff the input is all whitespace |

## Left out

- File reading and writing: files are a map from path to contents, and a write is a map update.
  Printing, `mkdir` and exception handlers are left out. A read that fails for another reason
  than absence (permissions, encoding) is not modelled.
- Every path is a key of that one map, taken relative to the repository root. tools/build.py and
  update-resource-paths.py open paths relative to the working directory (tools/build.py:87, 98,
  107, 126 and 150; update-resource-paths.py:50), while tools/generate-social-links.py:129 and
  tools/batch_update_fonts.py:113 resolve theirs from the script's own location. The model assumes
  the first two run with the repository root as working directory. Only then is the fragment the
  generator writes the `sections/links/links.html` that `build` reads, which
  `Assembler.DynamicStepEffect`, `Assembler.BuildKeepsFragment` and
  `Assembler.DynamicStepOnceSuffices` rely on.
- Newline translation of Python's text-mode files is left out. Reading turns `\r\n` and `\r` into
  `\n`, and writing turns `\n` into the platform's line separator. The model keeps every `\r` it
  reads and writes text as it is, so a CRLF head, footer, fragment or section file keeps its `\r`
  characters in the assembled page and in rewritten files, where the tools would normalise them.
- The `main` functions are left out. So are the print-only wrappers tools/build-all.py,
  tools/build-explore.py, tools/build-solutions.py, tools/build-compose.py and
  tools/build-create.py, and the fixed `MODULES` list. These only print and loop over the modelled
  operations.
- js/star-ui.js and create-placeholders.py are not part of this model. The first is browser UI
  code and the second writes fixed templates.
- The dynamic step of `build` runs tools/generate-social-links.py in a subprocess. It is modelled
  by its effect only: the text it writes, if any, is a parameter. A failing generator is that
  parameter being `None`. `SocialLinks.Generated` joined by newlines is the text it writes; the
  two modules are connected by that parameter, not by a call.
- Configuration files (the build configs, tools/social-links.config.json) are given by their
  parsed values. JSON parsing is left out. So are the `KeyError` for an entry without `sections`,
  `output`, `url`, `name` or `icon` (those fields are required here) and JSON truthiness of a
  non-boolean `enabled`.
- The class-discovery regular expression of `process_file` and its `set()` are left out. The class
  names are an input sequence, applied in the given order, because set iteration order is
  unspecified.
- The general `re` engine is left out. Only the three pattern shapes the updaters use are
  scanned.
  - `re.escape` of the class name is implicit: names are matched literally.
  - Replacement templates are taken literally. This is exact for the table's values, which hold
    no backslash.
- `str.lower`/`str.upper` are modelled on ASCII letters only. Other Unicode case mappings are
  left out.
- The `'font-family' in rules` tests are always true for both rule tables, so they are not
  modelled as branches.
- BatchFonts.UpdateIdempotent: proved only when every block of the class is well-formed
  (declarations `key: value;` whose values hold no property name, `;` or `}`). For arbitrary text
  it fails. On `.a { font-size: 1px font-family: x; }` the size match swallows the family
  declaration, so a second run inserts a family declaration again;
  `BatchFonts.NotIdempotentOnUnterminated` proves this.
- SmartFonts.UpdateCssBlockIdempotent: the same restriction to well-formed blocks, for the same
  reason; `SmartFonts.CssBlockNotIdempotent` proves that the same block breaks it.
- The block-level results (`BatchFonts.ReplacePropertiesBlock`, `SmartFonts.UpdateBlockText` and
  the lemmas built on them) are stated for well-formed blocks. A declaration written
  `font-family : x;`, with a space before the colon, is not a `Font` item.
- The effect of one update on a page is proved as "only the class's blocks change, each by its
  block rewriting". Idempotence of a whole `process_module` or `process_file` run over several
  classes is not proved.
- ResourcePaths.UpdateModulePaths: returns `changes_made`, which the source only prints. That
  every new path lies under the module's own section directory is visible in the table but not
  stated as a lemma.
