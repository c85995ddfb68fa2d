/** Resolution of every mod reference and rendering of the Nix manifest
    (`generateNix`). The catalog responses and the prefetcher's output are
    parameters: they come from the network and from a subprocess. */
module Manifest {
  import opened Base
  import opened Hasher
  import opened Catalog

  /** Where a mod comes from, with `value` already read as the identifier
      its source expects. */
  datatype ModSource = CurseForge(projectId: int) | Modrinth(slug: string) | DirectUrl(url: string)

  /** One entry of `mods`; an absent or `null` flag is `None`. */
  datatype ModDefinition = ModDefinition(name: string, source: ModSource, server: Option<bool>, client: Option<bool>)

  /** The outside world as the generator sees it: the file list CurseForge
      returns for a project id, the version list Modrinth returns for a slug,
      and what `nix-prefetch-url` prints for a URL. */
  datatype Env = Env(
    curseforge: int -> seq<CurseForgeFile>,
    modrinth: string -> seq<ModrinthVersion>,
    prefetch: string -> string)

  /** The `switch (mod.source)` that sets `url`. */
  function ResolveUrl(mod: ModDefinition, version: string, env: Env): (r: Result<string>)
    ensures r.Err? ==> !mod.source.DirectUrl?
  {
    match mod.source
    case CurseForge(id) => CurseForgeUrl(env.curseforge(id), version)
    case Modrinth(slug) => ModrinthUrl(env.modrinth(slug), version)
    case DirectUrl(url) => Ok(url)
  }

  /** A direct URL is used exactly as given: whatever the catalogs hold and
      whatever the target version, no lookup decides it. */
  lemma DirectUrlIsUsedAsGiven(name: string, url: string, server: Option<bool>, client: Option<bool>,
                               v1: string, e1: Env, v2: string, e2: Env)
    ensures ResolveUrl(ModDefinition(name, DirectUrl(url), server, client), v1, e1) ==
            ResolveUrl(ModDefinition(name, DirectUrl(url), server, client), v2, e2) == Ok(url)
  {
  }

  /** `flag ? "true" : "false"`: only a flag that is present and true renders
      as `true`. */
  function FlagText(flag: Option<bool>): (r: string)
    ensures r == "true" || r == "false"
    ensures r == "true" <==> flag == Some(true)
  {
    if flag == Some(true) then "true" else "false"
  }

  /** The block the template literal at lines 141-149 of generate-mods.ts
      renders for one mod, character for character: the exact text is what the
      source promises. */
  function RenderEntry(name: string, client: string, server: string, url: string, hash: string): string
  {
    "\n  " + name + " = {\n    client = " + client + ";\n    server = " + server + ";\n" +
    "    src = pkgs.fetchurl {\n      url = " + url + ";\n      sha256 = \"" + hash + "\";\n    };\n  };"
  }

  /** Each entry is one attribute of the manifest's set: it opens `name = {`
      on a fresh line and closes with `};`. */
  lemma RenderEntryIsOneAttribute(name: string, client: string, server: string, url: string, hash: string)
    ensures var r := RenderEntry(name, client, server, url, hash);
      && |r| >= |name| + 12
      && r[..|name| + 7] == "\n  " + name + " = {"
      && r[|r| - 5..] == "\n  };"
  {
  }

  /** What the async callback for one mod resolves to: a block exactly when
      its URL resolves, rendered with its name, its two flags, its URL and the
      cleaned prefetcher output for that URL, which holds no line break; a
      failure keeps the resolution error. */
  function ModBlock(mod: ModDefinition, version: string, env: Env): (r: Result<string>)
    ensures r.Ok? <==> ResolveUrl(mod, version, env).Ok?
    ensures r.Err? ==> r.error == ResolveUrl(mod, version, env).error
    ensures r.Ok? ==>
      var url := ResolveUrl(mod, version, env).value;
      var hash := CleanHash(env.prefetch(url));
      && (forall k :: 0 <= k < |hash| ==> !IsLineBreak(hash[k]))
      && r.value == RenderEntry(mod.name, FlagText(mod.client), FlagText(mod.server), url, hash)
  {
    match ResolveUrl(mod, version, env)
    case Err(e) => Err(e)
    case Ok(url) =>
      Ok(RenderEntry(mod.name, FlagText(mod.client), FlagText(mod.server), url, CleanHash(env.prefetch(url))))
  }

  /** The callback as the source writes it: `let url` set in a switch, then
      the hash computed for that URL and the block rendered. */
  method PrepareMod(mod: ModDefinition, version: string, env: Env) returns (r: Result<string>)
    ensures r == ModBlock(mod, version, env)
  {
    var url: string;
    match mod.source {
      case CurseForge(id) =>
        var found := GetCurseForgeUrl(version, id, env.curseforge);
        if found.Err? {
          return Err(found.error);
        }
        url := found.value;
      case Modrinth(slug) =>
        var found := ModrinthUrl(env.modrinth(slug), version);
        if found.Err? {
          return Err(found.error);
        }
        url := found.value;
      case DirectUrl(u) =>
        url := u;
    }
    var hash := CleanHash(env.prefetch(url));
    r := Ok(RenderEntry(mod.name, FlagText(mod.client), FlagText(mod.server), url, hash));
  }

  /** `mods.map(...)`: one pending block per mod, in input order. */
  function Blocks(mods: seq<ModDefinition>, version: string, env: Env): (r: seq<Result<string>>)
    ensures |r| == |mods|
  {
    seq(|mods|, i requires 0 <= i < |mods| => ModBlock(mods[i], version, env))
  }

  /** `Promise.all`: the values collected by position, not by completion
      order; one failure fails the whole collection. The error kept is that of
      the first failure in input order. */
  function CollectAll<T>(results: seq<Result<T>>): (r: Result<seq<T>>)
    ensures r.Ok? <==> forall i :: 0 <= i < |results| ==> results[i].Ok?
    ensures r.Ok? ==> |r.value| == |results|
    ensures r.Ok? ==> forall i :: 0 <= i < |results| ==> r.value[i] == results[i].value
    ensures r.Err? ==>
      exists k :: 0 <= k < |results| && results[k] == Err(r.error) &&
        (forall j :: 0 <= j < k ==> results[j].Ok?)
  {
    if results == [] then Ok([])
    else
      match results[0]
      case Err(e) => Err(e)
      case Ok(b) =>
        match CollectAll(results[1..])
        case Err(e) =>
          ghost var k :| 0 <= k < |results| - 1 && results[1..][k] == Err(e) &&
            (forall j :: 0 <= j < k ==> results[1..][j].Ok?);
          assert results[k + 1] == Err(e);
          Err(e)
        case Ok(bs) =>
          Ok([b] + bs)
  }

  /** `blocks.join('')`: no separator is added, so the text is empty exactly
      when every block is. */
  function Concat(blocks: seq<string>): (r: string)
    ensures r == "" <==> forall i :: 0 <= i < |blocks| ==> blocks[i] == ""
  {
    if blocks == [] then "" else blocks[0] + Concat(blocks[1..])
  }

  lemma {:induction false} ConcatAppend(a: seq<string>, b: seq<string>)
    ensures Concat(a + b) == Concat(a) + Concat(b)
  {
    if a == [] {
      assert a + b == b;
    } else {
      assert (a + b)[0] == a[0];
      assert (a + b)[1..] == a[1..] + b;
      ConcatAppend(a[1..], b);
    }
  }

  /** `text` holds `block` starting at index `start`. */
  predicate BlockAt(text: string, start: int, block: string) {
    0 <= start && start + |block| <= |text| && text[start..start + |block|] == block
  }

  /** Each block sits in the joined text right after the blocks before it. */
  lemma ConcatPlacesBlock(blocks: seq<string>, i: nat)
    requires i < |blocks|
    ensures BlockAt(Concat(blocks), |Concat(blocks[..i])|, blocks[i])
    ensures |Concat(blocks[..i + 1])| == |Concat(blocks[..i])| + |blocks[i]|
  {
    assert blocks == blocks[..i] + ([blocks[i]] + blocks[i + 1..]);
    ConcatAppend(blocks[..i], [blocks[i]] + blocks[i + 1..]);
    assert Concat([blocks[i]] + blocks[i + 1..]) == blocks[i] + Concat(blocks[i + 1..]);
    assert blocks[..i + 1] == blocks[..i] + [blocks[i]];
    ConcatAppend(blocks[..i], [blocks[i]]);
    assert Concat([blocks[i]]) == blocks[i] + Concat([]);
  }

  const Header: string := "{ pkgs }:\n\n{"
  const Footer: string := "\n}\n"

  /** The manifest text `generateNix` writes, or the error that aborts the
      run before anything is written. All or nothing: a manifest is produced
      exactly when every mod resolves, and otherwise the error is that of a
      mod that failed to resolve. */
  function GenerateNix(version: string, mods: seq<ModDefinition>, env: Env): (r: Result<string>)
    ensures r.Ok? <==> forall i :: 0 <= i < |mods| ==> ResolveUrl(mods[i], version, env).Ok?
    ensures r.Err? ==> exists k :: 0 <= k < |mods| && ResolveUrl(mods[k], version, env) == Err(r.error)
  {
    BlocksFollowResolution(mods, version, env);
    match CollectAll(Blocks(mods, version, env))
    case Err(e) => Err(e)
    case Ok(blocks) => Ok(Header + Concat(blocks) + Footer)
  }

  lemma BlocksFollowResolution(mods: seq<ModDefinition>, version: string, env: Env)
    ensures forall i :: 0 <= i < |mods| ==>
      (Blocks(mods, version, env)[i].Ok? <==> ResolveUrl(mods[i], version, env).Ok?) &&
      (Blocks(mods, version, env)[i].Err? ==> ResolveUrl(mods[i], version, env) == Blocks(mods, version, env)[i])
  {
  }

  /** Where block `i` sits in a manifest text made of the given blocks. */
  lemma ManifestPlacesBlock(blocks: seq<string>, i: nat)
    requires i < |blocks|
    ensures
      var m := Header + Concat(blocks) + Footer;
      var start := |Header| + |Concat(blocks[..i])|;
      && m[..|Header|] == Header
      && m[|m| - |Footer|..] == Footer
      && |m| == |Header| + |Concat(blocks)| + |Footer|
      && BlockAt(m, start, blocks[i])
      && |Header| + |Concat(blocks[..i + 1])| == start + |blocks[i]|
      && (i + 1 == |blocks| ==> start + |blocks[i]| == |m| - |Footer|)
  {
    var body := Concat(blocks);
    var m := Header + body + Footer;
    ConcatPlacesBlock(blocks, i);
    assert blocks[..|blocks|] == blocks;
    var start := |Concat(blocks[..i])|;
    assert m[|Header| + start..|Header| + start + |blocks[i]|] == body[start..start + |blocks[i]|];
  }

  /** For every mod list, the empty one included: when every mod resolves, the
      manifest is the header, the joined blocks and the footer, and nothing
      else; with no mods it is the empty attribute set `{ pkgs }:\n\n{\n}\n`. */
  lemma ManifestIsHeaderBlocksFooter(version: string, mods: seq<ModDefinition>, env: Env)
    requires forall j :: 0 <= j < |mods| ==> ResolveUrl(mods[j], version, env).Ok?
    ensures GenerateNix(version, mods, env).Ok?
    ensures CollectAll(Blocks(mods, version, env)).Ok?
    ensures
      var m := GenerateNix(version, mods, env).value;
      var blocks := CollectAll(Blocks(mods, version, env)).value;
      && |blocks| == |mods|
      && m[..|Header|] == Header
      && m[|m| - |Footer|..] == Footer
      && |m| == |Header| + |Concat(blocks)| + |Footer|
      && (mods == [] ==> m == "{ pkgs }:\n\n{\n}\n")
  {
    BlocksFollowResolution(mods, version, env);
    if mods == [] {
      assert Blocks(mods, version, env) == [];
    }
  }

  /** The manifest is the header, then one block per mod in input order, then
      the footer: block `i` is the block of `mods[i]`, starts right after the
      blocks of `mods[..i]`, and the next block (or, after the last block, the
      footer) starts right where it ends. */
  lemma ManifestListsModsInOrder(version: string, mods: seq<ModDefinition>, env: Env, i: nat)
    requires forall j :: 0 <= j < |mods| ==> ResolveUrl(mods[j], version, env).Ok?
    requires i < |mods|
    ensures GenerateNix(version, mods, env).Ok?
    ensures CollectAll(Blocks(mods, version, env)).Ok?
    ensures
      var m := GenerateNix(version, mods, env).value;
      var blocks := CollectAll(Blocks(mods, version, env)).value;
      var start := |Header| + |Concat(blocks[..i])|;
      && |blocks| == |mods|
      && m[..|Header|] == Header
      && m[|m| - |Footer|..] == Footer
      && |m| == |Header| + |Concat(blocks)| + |Footer|
      && BlockAt(m, start, blocks[i])
      && |Header| + |Concat(blocks[..i + 1])| == start + |blocks[i]|
      && (i + 1 == |mods| ==> start + |blocks[i]| == |m| - |Footer|)
      && ModBlock(mods[i], version, env) == Ok(blocks[i])
  {
    var results := Blocks(mods, version, env);
    var blocks := CollectAll(results).value;
    assert results[i] == ModBlock(mods[i], version, env);
    ManifestPlacesBlock(blocks, i);
  }
}

/** Concrete runs of the generator. */
module ManifestExamples {
  import opened Base
  import opened Text
  import opened Hasher
  import opened Catalog
  import opened Manifest

  function StubPrefetch(url: string): string {
    if url == "http://x/y.jar" then "HASH_A\n" else "HASH_B\n"
  }

  /** The two blocks the stub prefetcher gives for two direct-URL mods. */
  lemma TwoDirectUrlBlocks(env: Env)
    requires env.prefetch == StubPrefetch
    ensures
      var a := ModDefinition("a", DirectUrl("http://x/y.jar"), Some(false), Some(true));
      var b := ModDefinition("b", DirectUrl("http://x/z.jar"), Some(true), Some(false));
      CollectAll(Blocks([a, b], "1.17.1", env)) == Ok([
        RenderEntry("a", "true", "false", "http://x/y.jar", "HASH_A"),
        RenderEntry("b", "false", "true", "http://x/z.jar", "HASH_B")])
  {
    var a := ModDefinition("a", DirectUrl("http://x/y.jar"), Some(false), Some(true));
    var b := ModDefinition("b", DirectUrl("http://x/z.jar"), Some(true), Some(false));
    CleanHashStripsNewline("HASH_A");
    CleanHashStripsNewline("HASH_B");
    assert "HASH_A" + "\n" == "HASH_A\n" && "HASH_B" + "\n" == "HASH_B\n";
    assert StubPrefetch("http://x/y.jar") == "HASH_A\n";
    assert "http://x/z.jar" != "http://x/y.jar";
    assert StubPrefetch("http://x/z.jar") == "HASH_B\n";
    var x := RenderEntry("a", "true", "false", "http://x/y.jar", "HASH_A");
    var y := RenderEntry("b", "false", "true", "http://x/z.jar", "HASH_B");
    assert ModBlock(a, "1.17.1", env) == Ok(x);
    assert ModBlock(b, "1.17.1", env) == Ok(y);
    var blocks := Blocks([a, b], "1.17.1", env);
    assert blocks[0] == Ok(x) && blocks[1] == Ok(y);
    var collected := CollectAll(blocks);
    assert collected.Ok? && |collected.value| == 2;
    assert collected.value == [x, y];
  }

  /** Two direct-URL mods with a stub prefetcher give this exact text. */
  lemma TwoDirectUrlMods(catalogs: Env)
    ensures
      var env := Env(catalogs.curseforge, catalogs.modrinth, StubPrefetch);
      var a := ModDefinition("a", DirectUrl("http://x/y.jar"), Some(false), Some(true));
      var b := ModDefinition("b", DirectUrl("http://x/z.jar"), Some(true), Some(false));
      GenerateNix("1.17.1", [a, b], env) == Ok(
        Header +
        (RenderEntry("a", "true", "false", "http://x/y.jar", "HASH_A") +
         RenderEntry("b", "false", "true", "http://x/z.jar", "HASH_B")) +
        Footer)
  {
    var env := Env(catalogs.curseforge, catalogs.modrinth, StubPrefetch);
    TwoDirectUrlBlocks(env);
    var x := RenderEntry("a", "true", "false", "http://x/y.jar", "HASH_A");
    var y := RenderEntry("b", "false", "true", "http://x/z.jar", "HASH_B");
    assert [x, y][1..] == [y];
    assert Concat([y]) == y;
    assert Concat([x, y]) == x + y;
  }

  /** A CurseForge project whose file list is empty: "1.17.1" misses, "1.17"
      misses, and the whole run fails, even with a resolvable mod beside it. */
  lemma EmptyCatalogFailsTheRun(catalogs: Env)
    requires catalogs.curseforge(999999) == []
    ensures
      var broken := ModDefinition("broken", CurseForge(999999), None, None);
      var fine := ModDefinition("fine", DirectUrl("http://x/y.jar"), None, None);
      GenerateNix("1.17.1", [fine, broken], catalogs) == Err(UnknownMod)
  {
    var broken := ModDefinition("broken", CurseForge(999999), None, None);
    MajorMinorExamples();
    CurseForgeUrlFallsBack([], "1.17.1");
    CurseForgeUrlFallsBack([], "1.17");
    assert ResolveUrl(broken, "1.17.1", catalogs) == Err(UnknownMod);
    var fine := ModDefinition("fine", DirectUrl("http://x/y.jar"), None, None);
    var blocks := Blocks([fine, broken], "1.17.1", catalogs);
    assert blocks[1] == Err(UnknownMod);
    assert blocks[0].Ok?;
    assert blocks[1..] == [Err(UnknownMod)];
  }
}
