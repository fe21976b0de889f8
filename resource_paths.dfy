/**
 * The resource-path rewriter (update-resource-paths.py): in a module's section file every old asset
 * path of the module's table is replaced, in table order and at every occurrence, by its new path
 * under the module's own section directory.
 */
module ResourcePaths {
  import opened Text
  import opened Files

  /** An old path and the path that replaces it. */
  type Mapping = (string, string)

  /** `RESOURCE_MAPPINGS`: each module's mappings, in the table's order. */
  const ResourceMappings: map<string, seq<Mapping>> :=
    map[
      "navigation" := [
        ("assets/images/logo.svg", "sections/navigation/logo.svg")
      ],
      "hero" := [
        ("assets/images/hero-1.jpg", "sections/hero/hero-1.svg"),
        ("assets/images/hero-2.jpg", "sections/hero/hero-2.svg"),
        ("assets/images/featured-video.jpg", "sections/hero/featured-video.svg"),
        ("assets/videos/hero-1.mp4", "sections/hero/hero-1.mp4"),
        ("assets/videos/hero-2.mp4", "sections/hero/hero-2.mp4"),
        ("assets/videos/featured.mp4", "sections/hero/featured.mp4")
      ],
      "gallery" := [
        ("assets/images/gallery-1.jpg", "sections/gallery/gallery-1.svg"),
        ("assets/images/gallery-2.jpg", "sections/gallery/gallery-2.svg"),
        ("assets/images/gallery-3.jpg", "sections/gallery/gallery-3.svg"),
        ("assets/images/gallery-4.jpg", "sections/gallery/gallery-4.svg"),
        ("assets/images/gallery-5.jpg", "sections/gallery/gallery-5.svg"),
        ("assets/images/gallery-6.jpg", "sections/gallery/gallery-6.svg"),
        ("assets/videos/gallery-1.mp4", "sections/gallery/gallery-1.mp4"),
        ("assets/videos/gallery-2.mp4", "sections/gallery/gallery-2.mp4"),
        ("assets/videos/gallery-3.mp4", "sections/gallery/gallery-3.mp4"),
        ("assets/videos/gallery-4.mp4", "sections/gallery/gallery-4.mp4"),
        ("assets/videos/gallery-5.mp4", "sections/gallery/gallery-5.mp4"),
        ("assets/videos/gallery-6.mp4", "sections/gallery/gallery-6.mp4")
      ],
      "features" := [
        ("assets/images/feature-1.jpg", "sections/features/feature-1.svg"),
        ("assets/images/feature-2.jpg", "sections/features/feature-2.svg"),
        ("assets/images/feature-3.jpg", "sections/features/feature-3.svg"),
        ("assets/images/feature-4.jpg", "sections/features/feature-4.svg")
      ],
      "footer" := [
        ("assets/images/logo.svg", "sections/footer/logo.svg")
      ]
    ]

  /** `RESOURCE_MAPPINGS.get(module_name, {})`. */
  function MappingsFor(moduleName: string): seq<Mapping> {
    if moduleName in ResourceMappings then ResourceMappings[moduleName] else []
  }

  /**
   * The mappings applied in order to `content`: an old path that occurs is replaced everywhere and
   * counted once; the text at the end and the number of mappings that applied.
   */
  function ApplyMappings(content: string, mappings: seq<Mapping>): (string, nat) {
    if mappings == [] then (content, 0)
    else
      var (text, count) := ApplyMappings(content, mappings[..|mappings| - 1]);
      var (oldPath, newPath) := mappings[|mappings| - 1];
      if Contains(text, oldPath) then (ReplaceAll(text, oldPath, newPath), count + 1) else (text, count)
  }

  /**
   * `update_module_paths`: a missing section file gives false and nothing is written; otherwise the
   * result is true, the module's mappings are applied in order, and the file is rewritten exactly
   * when at least one of them applied. `changes` is the number of mappings that applied.
   */
  method UpdateModulePaths(fs: FileSystem, moduleName: string) returns (result: bool, changes: nat, files: FileSystem)
    ensures SectionPath(moduleName) !in fs ==> !result && changes == 0 && files == fs
    ensures SectionPath(moduleName) in fs ==>
              var path := SectionPath(moduleName);
              var (text, count) := ApplyMappings(fs[path], MappingsFor(moduleName));
              && result
              && changes == count
              && files == (if count > 0 then fs[path := text] else fs)
  {
    var path := SectionPath(moduleName);
    if path !in fs {
      return false, 0, fs;
    }
    var mappings := MappingsFor(moduleName);
    if mappings == [] {
      return true, 0, fs;
    }
    var content, changesMade, updated := ReplacePaths(fs[path], mappings);
    if updated {
      return true, changesMade, fs[path := content];
    }
    return true, changesMade, fs;
  }

  /**
   * The loop of `update_module_paths`: each mapping in turn, when its old path occurs in the text
   * so far, is replaced everywhere and counted; `updated` records whether any mapping applied.
   */
  method ReplacePaths(original: string, mappings: seq<Mapping>) returns (content: string, changesMade: nat, updated: bool)
    ensures (content, changesMade) == ApplyMappings(original, mappings)
    ensures updated <==> changesMade > 0
  {
    content := original;
    changesMade := 0;
    updated := false;
    var i := 0;
    while i < |mappings|
      invariant 0 <= i <= |mappings|
      invariant (content, changesMade) == ApplyMappings(original, mappings[..i])
      invariant updated <==> changesMade > 0
    {
      assert mappings[..i + 1][..i] == mappings[..i] && mappings[..i + 1][i] == mappings[i];
      var (oldPath, newPath) := mappings[i];
      if Contains(content, oldPath) {
        content := ReplaceAll(content, oldPath, newPath);
        changesMade := changesMade + 1;
        updated := true;
      }
      i := i + 1;
    }
    assert mappings[..i] == mappings;
  }

  // ---------------------------------------------------------------------------------------------
  // Properties

  /** At most one change per mapping. */
  lemma {:induction false} CountBound(content: string, mappings: seq<Mapping>)
    ensures ApplyMappings(content, mappings).1 <= |mappings|
    decreases |mappings|
  {
    if mappings != [] {
      CountBound(content, mappings[..|mappings| - 1]);
    }
  }

  /**
   * No mapping applies exactly when no old path occurs in the original text, and then the text is
   * unchanged.
   */
  lemma {:induction false} NoneApplies(content: string, mappings: seq<Mapping>)
    ensures ApplyMappings(content, mappings).1 == 0 <==> forall k :: 0 <= k < |mappings| ==> !Contains(content, mappings[k].0)
    ensures ApplyMappings(content, mappings).1 == 0 ==> ApplyMappings(content, mappings).0 == content
    decreases |mappings|
  {
    if mappings != [] {
      var init, last := mappings[..|mappings| - 1], mappings[|mappings| - 1];
      NoneApplies(content, init);
      forall k | 0 <= k < |init| ensures init[k] == mappings[k] {
      }
      if ApplyMappings(content, init).1 != 0 {
        var k :| 0 <= k < |init| && Contains(content, init[k].0);
        assert Contains(content, mappings[k].0);
      }
    }
  }

  /** Applying a table in two parts is applying the first part, then the second: the order is the table's. */
  lemma {:induction false} ApplyAppend(content: string, a: seq<Mapping>, b: seq<Mapping>)
    ensures var (mid, m) := ApplyMappings(content, a);
            var (text, n) := ApplyMappings(mid, b);
            ApplyMappings(content, a + b) == (text, m + n)
    decreases |b|
  {
    if b == [] {
      assert a + b == a;
    } else {
      var init, last := b[..|b| - 1], b[|b| - 1];
      ApplyAppend(content, a, init);
      assert (a + b)[..|a + b| - 1] == a + init && (a + b)[|a + b| - 1] == last;
    }
  }

  /**
   * A module outside the table, such as `stats` or `cta`, has no mapping: whatever its text, no
   * mapping applies and the text stays as it is, so `update_module_paths` returns true, counts
   * nothing and writes nothing.
   */
  lemma UnmappedModules(moduleName: string, content: string)
    requires moduleName !in ResourceMappings
    ensures MappingsFor(moduleName) == []
    ensures ApplyMappings(content, MappingsFor(moduleName)) == (content, 0)
    ensures "stats" !in ResourceMappings && "cta" !in ResourceMappings
  {
  }
}
