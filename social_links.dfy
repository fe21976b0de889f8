/**
 * The social-links fragment generator (tools/generate-social-links.py): the enabled links of the
 * configuration, those whose icon is known, become six-line anchors between a fixed style and
 * section preamble and a fixed closing; the lines, joined by newlines, are the links section.
 */
module SocialLinks {
  import opened Wrappers
  import opened Text
  import opened Files

  /** One entry of the configuration's `links`; `enabled` is absent when the entry does not set it. */
  datatype Link = Link(name: string, url: string, icon: string, enabled: Option<bool>)

  /** `link.get('enabled', True)`. */
  predicate Enabled(link: Link) {
    link.enabled.GetOr(true)
  }

  /** The enabled links, in configuration order. */
  function EnabledLinks(links: seq<Link>): seq<Link> {
    if links == [] then []
    else EnabledLinks(links[..|links| - 1]) + (if Enabled(links[|links| - 1]) then [links[|links| - 1]] else [])
  }

  /** `available_icons.get(icon_name, '')`. */
  function IconPath(icons: map<string, string>, iconName: string): string {
    if iconName in icons then icons[iconName] else ""
  }

  /** The fixed text around a link's URL, icon markup and name in its anchor. */
  datatype Markup = Markup(hrefOpen: string, hrefClose: string, svgOpen: string, iconIndent: string,
                           svgClose: string, textOpen: string, textClose: string, anchorClose: string)

  /** The anchor markup the generator writes. */
  const SiteMarkup := Markup(
    "    <a href=\"",
    "\" class=\"social-link\" target=\"_blank\" rel=\"noopener noreferrer\">",
    "      <svg class=\"social-link-icon\" viewBox=\"0 0 24 24\" xmlns=\"http://www.w3.org/2000/svg\">",
    "        ",
    "      </svg>",
    "      <span class=\"social-link-text\">",
    "</span>",
    "    </a>")

  /** The six lines of one link's anchor: the URL in the first, the icon in the third, the name in the fifth. */
  function AnchorLines(m: Markup, link: Link, iconPath: string): seq<string> {
    [ m.hrefOpen + link.url + m.hrefClose,
      m.svgOpen,
      m.iconIndent + iconPath,
      m.svgClose,
      m.textOpen + link.name + m.textClose,
      m.anchorClose ]
  }

  /** A link's anchor, or nothing when its icon is unknown or empty. */
  function LinkLines(m: Markup, link: Link, icons: map<string, string>): seq<string> {
    var iconPath := IconPath(icons, link.icon);
    if iconPath == "" then [] else AnchorLines(m, link, iconPath)
  }

  /** The anchors of the links, in order. */
  function Anchors(m: Markup, links: seq<Link>, icons: map<string, string>): seq<string> {
    if links == [] then []
    else Anchors(m, links[..|links| - 1], icons) + LinkLines(m, links[|links| - 1], icons)
  }

  /** The links whose icon is known and non-empty, in order. */
  function WithIcon(links: seq<Link>, icons: map<string, string>): seq<Link> {
    if links == [] then []
    else
      var last := links[|links| - 1];
      WithIcon(links[..|links| - 1], icons) + (if IconPath(icons, last.icon) != "" then [last] else [])
  }

  /** The style sheet and the opening of the section, before the anchors. */
  const Preamble: seq<string> := [
      "<!-- 社交媒体链接区域 -->",
      "<!-- 此文件由 tools/generate-social-links.py 自动生成 -->",
      "<!-- 请勿手动编辑! 修改 tools/social-links.config.json 然后重新运行构建 -->",
      "",
      "<style>",
      ".social-links {",
      "  padding: var(--spacing-xl) 0;",
      "  background: var(--color-bg);",
      "}",
      "",
      ".social-links-container {",
      "  max-width: var(--container-width);",
      "  margin: 0 auto;",
      "  padding: 0 var(--spacing-lg);",
      "  display: flex;",
      "  justify-content: space-between;",
      "  align-items: center;",
      "  flex-wrap: wrap;",
      "  gap: 2rem;",
      "}",
      "",
      ".social-link {",
      "  display: flex;",
      "  align-items: center;",
      "  gap: 0.75rem;",
      "  text-decoration: none;",
      "  transition: all var(--transition);",
      "  opacity: 0.8;",
      "}",
      "",
      ".social-link:hover {",
      "  opacity: 1;",
      "  transform: translateY(-2px);",
      "}",
      "",
      ".social-link-icon {",
      "  width: 32px;",
      "  height: 32px;",
      "  fill: var(--color-text);",
      "  flex-shrink: 0;",
      "}",
      "",
      ".social-link-text {",
      "  color: var(--color-text);",
      "  font-size: 1rem;",
      "  font-weight: 500;",
      "  white-space: nowrap;",
      "}",
      "",
      "/* 响应式设计 */",
      "@media (max-width: 991px) {",
      "  .social-links-container {",
      "    justify-content: center;",
      "    gap: 1.5rem;",
      "  }",
      "}",
      "",
      "@media (max-width: 767px) {",
      "  .social-links-container {",
      "    gap: 1rem;",
      "  }",
      "  ",
      "  .social-link-icon {",
      "    width: 28px;",
      "    height: 28px;",
      "  }",
      "  ",
      "  .social-link-text {",
      "    font-size: 0.9rem;",
      "  }",
      "}",
      "</style>",
      "",
      "<section class=\"social-links\">",
      "  <div class=\"social-links-container\">"
    ]

  /** The closing of the section, after the anchors. */
  const Closing: seq<string> := ["  </div>", "</section>"]

  /** Where the generated fragment is written: the `links` section. */
  const LinksPath := SectionPath("links")

  /** The lines the generator produces: none when no link is enabled. */
  function Generated(links: seq<Link>, icons: map<string, string>): Option<seq<string>> {
    var enabled := EnabledLinks(links);
    if enabled == [] then None else Some(Preamble + Anchors(SiteMarkup, enabled, icons) + Closing)
  }

  /**
   * `generate_social_links`: with no enabled link nothing is written; otherwise the preamble, one
   * anchor per enabled link with a known icon and the closing are built line by line, and their
   * newline-joined text is written to the links section.
   */
  method GenerateSocialLinks(fs: FileSystem, links: seq<Link>, icons: map<string, string>)
    returns (lines: Option<seq<string>>, files: FileSystem)
    ensures lines == Generated(links, icons)
    ensures lines.None? ==> files == fs
    ensures lines.Some? ==> files == fs[LinksPath := JoinWith(lines.value, "\n")]
  {
    var enabled := EnabledLinks(links);
    if enabled == [] {
      return None, fs;
    }
    var parts := Preamble;
    var i := 0;
    while i < |enabled|
      invariant 0 <= i <= |enabled|
      invariant parts == Preamble + Anchors(SiteMarkup, enabled[..i], icons)
    {
      var link := enabled[i];
      AnchorsStep(SiteMarkup, Preamble, enabled, i, icons);
      var iconPath := IconPath(icons, link.icon);
      if iconPath != "" {
        parts := parts + AnchorLines(SiteMarkup, link, iconPath);
      }
      i := i + 1;
    }
    assert enabled[..i] == enabled;
    parts := parts + Closing;
    return Some(parts), fs[LinksPath := JoinWith(parts, "\n")];
  }

  lemma AnchorsStep(m: Markup, pre: seq<string>, links: seq<Link>, i: nat, icons: map<string, string>)
    requires i < |links|
    ensures pre + Anchors(m, links[..i + 1], icons) == (pre + Anchors(m, links[..i], icons)) + LinkLines(m, links[i], icons)
  {
    var next := links[..i + 1];
    assert next[..i] == links[..i] && next[i] == links[i];
    SeqAssoc(pre, Anchors(m, links[..i], icons), LinkLines(m, links[i], icons));
  }

  // ---------------------------------------------------------------------------------------------
  // Properties

  /** A link is kept exactly when its `enabled` is true or absent; order is kept. */
  lemma {:induction false} EnabledSpec(links: seq<Link>)
    ensures forall l :: l in EnabledLinks(links) <==> l in links && Enabled(l)
    ensures |EnabledLinks(links)| <= |links|
    decreases |links|
  {
    if links != [] {
      var init, last := links[..|links| - 1], links[|links| - 1];
      EnabledSpec(init);
      assert links == init + [last];
    }
  }

  /** Filtering a concatenation filters each part: the enabled links keep their relative order. */
  lemma {:induction false} EnabledAppend(a: seq<Link>, b: seq<Link>)
    ensures EnabledLinks(a + b) == EnabledLinks(a) + EnabledLinks(b)
    decreases |b|
  {
    if b != [] {
      var init, last := b[..|b| - 1], b[|b| - 1];
      EnabledAppend(a, init);
      assert (a + b)[..|a + b| - 1] == a + init && (a + b)[|a + b| - 1] == last;
    } else {
      assert a + b == a;
    }
  }

  /** Nothing is generated exactly when no link is enabled. */
  lemma NothingEnabled(links: seq<Link>, icons: map<string, string>)
    ensures Generated(links, icons).None? <==> forall l :: l in links ==> !Enabled(l)
  {
    EnabledSpec(links);
    if EnabledLinks(links) != [] {
      assert EnabledLinks(links)[0] in EnabledLinks(links);
    }
  }

  /** The links with a usable icon are those of the list whose icon is known and non-empty. */
  lemma {:induction false} WithIconSpec(links: seq<Link>, icons: map<string, string>)
    ensures forall l :: l in WithIcon(links, icons) <==> l in links && l.icon in icons && icons[l.icon] != ""
    ensures |WithIcon(links, icons)| <= |links|
    decreases |links|
  {
    if links != [] {
      var init, last := links[..|links| - 1], links[|links| - 1];
      WithIconSpec(init, icons);
      assert links == init + [last];
    }
  }

  /** The anchors of links that all have a usable icon, one after the other. */
  function Rendered(m: Markup, links: seq<Link>, icons: map<string, string>): seq<string> {
    if links == [] then []
    else
      var last := links[|links| - 1];
      Rendered(m, links[..|links| - 1], icons) + AnchorLines(m, last, IconPath(icons, last.icon))
  }

  /** The anchors are the rendering of exactly the links with a usable icon, in order. */
  lemma {:induction false} AnchorsRendered(m: Markup, links: seq<Link>, icons: map<string, string>)
    ensures Anchors(m, links, icons) == Rendered(m, WithIcon(links, icons), icons)
    decreases |links|
  {
    if links != [] {
      var init, last := links[..|links| - 1], links[|links| - 1];
      AnchorsRendered(m, init, icons);
      var w := WithIcon(init, icons);
      if IconPath(icons, last.icon) != "" {
        var w' := w + [last];
        assert w'[..|w'| - 1] == w && w'[|w'| - 1] == last;
      } else {
        assert WithIcon(links, icons) == w + [] == w;
        assert Anchors(m, init, icons) + [] == Anchors(m, init, icons);
      }
    }
  }

  /** Six lines per link, in order: the `k`-th six lines are the anchor of the `k`-th link. */
  lemma {:induction false} RenderedSpec(m: Markup, links: seq<Link>, icons: map<string, string>)
    ensures |Rendered(m, links, icons)| == 6 * |links|
    ensures forall k :: 0 <= k < |links| ==>
              Rendered(m, links, icons)[6 * k..6 * k + 6] == AnchorLines(m, links[k], IconPath(icons, links[k].icon))
    decreases |links|
  {
    if links != [] {
      var init, last := links[..|links| - 1], links[|links| - 1];
      RenderedSpec(m, init, icons);
      var a := Rendered(m, init, icons);
      var ll := AnchorLines(m, last, IconPath(icons, last.icon));
      assert Rendered(m, links, icons) == a + ll;
      forall k | 0 <= k < |links|
        ensures (a + ll)[6 * k..6 * k + 6] == AnchorLines(m, links[k], IconPath(icons, links[k].icon))
      {
        if k < |init| {
          SliceLeft(a, ll, 6 * k, 6 * k + 6);
          assert links[k] == init[k];
        } else {
          SliceRight(a, ll);
        }
      }
    }
  }

  /**
   * The anchors in order: the `k`-th six lines are the anchor of the `k`-th link with a usable
   * icon, holding its URL, its icon markup and its name; links without one contribute nothing.
   */
  lemma AnchorsSpec(m: Markup, links: seq<Link>, icons: map<string, string>)
    ensures |Anchors(m, links, icons)| == 6 * |WithIcon(links, icons)|
    ensures forall k :: 0 <= k < |WithIcon(links, icons)| ==>
              var l := WithIcon(links, icons)[k];
              Anchors(m, links, icons)[6 * k..6 * k + 6] == AnchorLines(m, l, IconPath(icons, l.icon))
  {
    AnchorsRendered(m, links, icons);
    RenderedSpec(m, WithIcon(links, icons), icons);
  }

  /**
   * The generated lines: the fixed preamble, six lines for every enabled link with a usable icon,
   * and the fixed closing.
   */
  lemma GeneratedShape(links: seq<Link>, icons: map<string, string>)
    requires Generated(links, icons).Some?
    ensures var lines := Generated(links, icons).value;
            var n := |WithIcon(EnabledLinks(links), icons)|;
            && |lines| == |Preamble| + 6 * n + 2
            && lines[..|Preamble|] == Preamble
            && lines[|lines| - 2..] == Closing
            && n <= |EnabledLinks(links)|
  {
    var enabled := EnabledLinks(links);
    AnchorsSpec(SiteMarkup, enabled, icons);
    WithIconSpec(enabled, icons);
    var lines := Preamble + Anchors(SiteMarkup, enabled, icons) + Closing;
    assert lines[..|Preamble|] == Preamble;
    assert lines[|lines| - 2..] == Closing;
  }
}
