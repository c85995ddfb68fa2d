# generate-mods: mod reference resolution and Nix manifest rendering

This project models the core of `generate-mods`, the script that turns a list of
Minecraft mod references into a Nix expression. Each reference names a source:
a CurseForge project id, a Modrinth slug, or a direct URL. For each one the
script finds a download URL for the target game version, hashes it with
`nix-prefetch-url`, and renders a `pkgs.fetchurl` block. The model covers:

- **Catalog lookups** (`Catalog`).
  - CurseForge sorts the project's files by descending `id`, in place, and
    takes the first file whose `gameVersion` lists the target.
  - Modrinth takes the first version, in the order the catalog returns them,
    whose `game_versions` lists the target, and answers with that version's
    `files[0].url`.
  - The catalog responses are parameters. The same list answers the refetch
    that the fallback makes.
- **Version fallback** (`Fallback`, `Text`). One provider-agnostic search,
  shared by both lookups. It tries the exact version first. When nothing
  matches and `version.split(".")` has at least three parts, it retries once
  with `parts[0] + "." + parts[1]`. Otherwise it fails with "unknown mod".
- **Hash cleaning** (`Hasher`). Every `\n` and `\r` is removed from the
  prefetcher's output.
- **Dispatch and rendering** (`Manifest`).
  - Each mod is dispatched on its source.
  - The flags render as `true` only when present and true.
  - `Promise.all` is modelled as a positional collect: the first failure in
    input order fails the run.
  - The manifest is `{ pkgs }:\n\n{`, then the blocks in input order, then
    `\n}\n`.

Modules: `Base` (Option, Result, the two errors), `Text` (JavaScript `split`,
`join`, major.minor truncation), `Hasher`, `Fallback`, `Catalog`, `Manifest`,
`ManifestExamples`.

The model follows the code in three places where a reader might expect otherwise:
- The hash cleaning removes every line break, not only trailing ones.
- A matched Modrinth version whose `files` list is empty makes
  `files[0].url` throw a TypeError. This is modelled as the error
  `NoFileInVersion`. It is not excluded by a precondition, and the search does
  not move on to the next version.
- Any failing mod aborts the whole run. No partial manifest is produced.

## Model

| member | source | states |
|---|---|---|
| Text.Split | pkgs/generate-mods/generate-mods.ts:85 | `version.split(".")` as JavaScript computes it, empty parts included: it never returns an empty array |
| Text.SplitCountsSeparators | pkgs/generate-mods/generate-mods.ts:85 | `split(".")` gives exactly one part more than the version has dots |
| Text.JoinSplit | pkgs/generate-mods/generate-mods.ts:85 | `split(".")` loses nothing: joining its parts with "." gives the version back |
| Text.SplitPartsHaveNoSeparator | pkgs/generate-mods/generate-mods.ts:85 | no part produced by `split(".")` contains a dot |
| Text.MajorMinor | pkgs/generate-mods/generate-mods.ts:87 | `parts[0] + "." + parts[1]` splits into exactly those two parts, so the retry has fewer than three parts and cannot truncate again |
| Text.MajorMinorDropsPatch | pkgs/generate-mods/generate-mods.ts:85-87 | for dot-free `major`, `minor`: a version `major.minor.rest` has at least three parts and truncates to `major.minor`, whatever `rest` is |
| Text.MajorMinorExamples | pkgs/generate-mods/generate-mods.ts:85-87 | "1.17.1" and "1.17.1.2" both have at least three parts and both truncate to "1.17" |
| Hasher.CleanHash | pkgs/generate-mods/generate-mods.ts:111 | the cleaned hash contains no `\n` or `\r` and is no longer than the prefetcher output |
| Hasher.CleanHashAppend | pkgs/generate-mods/generate-mods.ts:111 | cleaning distributes over concatenation, so the kept characters stay in their original order |
| Hasher.CleanHashCounts | pkgs/generate-mods/generate-mods.ts:111 | each character other than a line break occurs as often in the result as in the output; line breaks occur zero times |
| Hasher.CleanHashKeepsCleanText | pkgs/generate-mods/generate-mods.ts:111 | a string without line breaks is left unchanged |
| Hasher.CleanHashIdempotent | pkgs/generate-mods/generate-mods.ts:111 | cleaning twice gives the same as cleaning once |
| Hasher.CleanHashStripsNewline | pkgs/generate-mods/generate-mods.ts:107-111 | a digest followed by a newline, the prefetcher's usual output, cleans to the digest |
| Fallback.Search | pkgs/generate-mods/generate-mods.ts:83-89 | the shared retry of both lookups: a URL found, or an error thrown, comes from the lookup at the exact version or, after a miss there, from the lookup at its major.minor truncation; every other outcome is "unknown mod" |
| Fallback.SearchAtMostTwoProbes | pkgs/generate-mods/generate-mods.ts:83-89 | an exact hit is returned with no retry; a miss at fewer than three parts fails with "unknown mod"; otherwise the result is the lookup at major.minor, and a second miss there fails with "unknown mod" |
| Fallback.SearchReadsOnlyTwoVersions | pkgs/generate-mods/generate-mods.ts:98-104 | two catalogs that agree at the exact version and, when it is retried, at its major.minor give the same result: no other version is consulted |
| Catalog.FirstIndex | pkgs/generate-mods/generate-mods.ts:96 | `find` stops at an element satisfying the predicate, with none before it, or finds nothing when no element satisfies it |
| Catalog.Find | pkgs/generate-mods/generate-mods.ts:81 | `find` returns the first element of the list that satisfies the predicate (it satisfies it, and no element before it does), and returns nothing exactly when no element satisfies it |
| Catalog.Insert | pkgs/generate-mods/generate-mods.ts:80 | one insertion step of the sort adds exactly one entry; its order is stated by `InsertKeepsDescending`, its contents by `InsertIsPermutation`, its stability by `InsertWithId` |
| Catalog.InsertWithId | pkgs/generate-mods/generate-mods.ts:80 | inserting a file puts it before the entries of its own id and changes nothing else about them |
| Catalog.SortedByIdDesc | pkgs/generate-mods/generate-mods.ts:80 | `files.sort((a, b) => b.id - a.id)` keeps the length; permutation and order are stated by `SortedByIdDescIsSortedPermutation`, stability by `SortedByIdDescIsStable` |
| Catalog.SortedByIdDescIsSortedPermutation | pkgs/generate-mods/generate-mods.ts:80 | the sorted file list is a permutation of the fetched list, with ids in descending order |
| Catalog.SortedByIdDescIsStable | pkgs/generate-mods/generate-mods.ts:80 | the sort is stable: the files of any one id come out in the order the catalog returned them |
| Catalog.SortByIdDescending | pkgs/generate-mods/generate-mods.ts:80 | the in-place sort of the fetched array leaves exactly the stable descending-id order of the original contents |
| Catalog.InsertIntoSortedSuffix | pkgs/generate-mods/generate-mods.ts:80 | one step of the in-place sort inserts `a[i]` into the sorted suffix and leaves the prefix untouched |
| Catalog.BestMatchIsLatestEarliest | pkgs/generate-mods/generate-mods.ts:80-83 | the reference scan finds no file exactly when none lists the version; otherwise it finds the file of largest id, the earliest in the fetched list among equal ids |
| Catalog.FindInSortedIsBestMatch | pkgs/generate-mods/generate-mods.ts:80-81 | finding the first match after sorting by descending id gives the same file as the reference scan of the unsorted list |
| Catalog.ProbeCurseForge | pkgs/generate-mods/generate-mods.ts:80-83 | one sort-and-find at one version misses exactly when no file lists the version, never throws, and otherwise gives the `downloadUrl` of the matching file of largest id, earliest among equal ids |
| Catalog.CurseForgeUrl | pkgs/generate-mods/generate-mods.ts:76-90 | the CurseForge lookup fails only with "unknown mod"; a URL it returns is the `downloadUrl` of the latest file listing the exact version or, when the version has three parts or more, its major.minor truncation |
| Catalog.CurseForgeUrlPicksLatestFile | pkgs/generate-mods/generate-mods.ts:80-83 | if some file lists the version, the CurseForge lookup returns the `downloadUrl` of the matching file of largest id (earliest among equal ids), with no truncated retry |
| Catalog.CurseForgeUrlFallsBack | pkgs/generate-mods/generate-mods.ts:85-89 | if no file lists the version, the lookup fails with "unknown mod" below three parts, and otherwise equals the lookup at major.minor |
| Catalog.GetCurseForgeUrl | pkgs/generate-mods/generate-mods.ts:76-90 | the recursive function as written (fresh array from the response, in-place sort, find, truncate and recurse) returns exactly the CurseForge lookup result |
| Catalog.ProbeModrinth | pkgs/generate-mods/generate-mods.ts:96-98 | one find at one version misses exactly when no entry lists the version; otherwise the earliest entry listing it gives its `files[0].url`, or the TypeError when it has no files |
| Catalog.ModrinthUrl | pkgs/generate-mods/generate-mods.ts:92-105 | a URL the Modrinth lookup returns is `files[0].url` of an entry listing the exact version or its major.minor truncation; the no-file error comes from such an entry with an empty `files` |
| Catalog.ModrinthUrlPicksEarliestVersion | pkgs/generate-mods/generate-mods.ts:96-98 | if entry `k` is the earliest to list the version, the result is its `files[0].url`, or the TypeError when it has no files, with no truncated retry |
| Catalog.ModrinthUrlFallsBack | pkgs/generate-mods/generate-mods.ts:100-104 | if no entry lists the version, the lookup fails with "unknown mod" below three parts, and otherwise equals the lookup at major.minor |
| Manifest.ResolveUrl | pkgs/generate-mods/generate-mods.ts:129-139 | the per-source dispatch can fail only for catalog sources, never for a direct URL |
| Manifest.DirectUrlIsUsedAsGiven | pkgs/generate-mods/generate-mods.ts:137-138 | a direct-URL mod resolves to its value exactly, whatever the target version and catalogs |
| Manifest.FlagText | pkgs/generate-mods/generate-mods.ts:143-144 | a flag renders as "true" when it is present and true, and as "false" otherwise (false or absent) |
| Manifest.RenderEntryIsOneAttribute | pkgs/generate-mods/generate-mods.ts:141-149 | the template `RenderEntry` (lines 141-149, character for character) renders one attribute of the manifest's set: it opens `name = {` on a fresh line and closes with `};` |
| Manifest.ModBlock | pkgs/generate-mods/generate-mods.ts:126-149 | a mod has a block exactly when its URL resolves; the block is the template filled with its name, both flags, the URL and the cleaned hash of that URL, which has no line break; a failure keeps the resolution error |
| Manifest.PrepareMod | pkgs/generate-mods/generate-mods.ts:126-149 | the per-mod callback (url set in the switch, hash of that URL, block rendered) returns exactly that mod's block or its resolution error |
| Manifest.Blocks | pkgs/generate-mods/generate-mods.ts:126 | `mods.map` gives one pending block per mod |
| Manifest.BlocksFollowResolution | pkgs/generate-mods/generate-mods.ts:126-139 | each pending block succeeds exactly when its mod's URL resolves, and otherwise fails with that resolution's error |
| Manifest.CollectAll | pkgs/generate-mods/generate-mods.ts:154 | `Promise.all` succeeds exactly when every result does, giving the values by position; otherwise it gives the error of the first failure, with everything before it successful |
| Manifest.Concat | pkgs/generate-mods/generate-mods.ts:154 | `join('')` adds no separator: the joined text is empty exactly when every block is |
| Manifest.ConcatAppend | pkgs/generate-mods/generate-mods.ts:154 | joining two lists of blocks one after the other gives the join of the first followed by the join of the second |
| Manifest.ConcatPlacesBlock | pkgs/generate-mods/generate-mods.ts:154 | in `join('')`, block `i` starts right after the blocks before it, and the blocks up to and including `i` are exactly as long as those before it plus block `i` |
| Manifest.GenerateNix | pkgs/generate-mods/generate-mods.ts:122-156 | all or nothing: a manifest is produced exactly when every mod resolves; otherwise the run fails with the error of a mod that failed |
| Manifest.ManifestPlacesBlock | pkgs/generate-mods/generate-mods.ts:152-156 | the manifest text starts with `{ pkgs }:\n\n{`, ends with `\n}\n`, is exactly as long as header, joined blocks and footer together, and holds block `i` after the header and the blocks before it; the next block, or after the last block the footer, starts right where block `i` ends |
| Manifest.ManifestIsHeaderBlocksFooter | pkgs/generate-mods/generate-mods.ts:152-156 | for every mod list, the empty one included: when every mod resolves a manifest is produced, starting with the header, ending with the footer and exactly as long as header, joined blocks and footer; with no mods it is `{ pkgs }:\n\n{\n}\n` |
| Manifest.ManifestListsModsInOrder | pkgs/generate-mods/generate-mods.ts:126-156 | when every mod resolves a manifest is produced, and in it the `i`-th block is the block of `mods[i]`, sits after the header and the blocks of `mods[..i]`, and is followed directly by the next block or, after the last one, by the footer: input order, one block per mod, nothing in between |
| ManifestExamples.TwoDirectUrlBlocks | pkgs/generate-mods/generate-mods.ts:126-150 | two direct-URL mods with a stub prefetcher printing "HASH_A\n" and "HASH_B\n" collect to block a (client true, server false) and block b (client false, server true), in that order |
| ManifestExamples.TwoDirectUrlMods | pkgs/generate-mods/generate-mods.ts:141-156 | two direct-URL mods with a stub prefetcher printing "HASH_A\n" and "HASH_B\n" give the header, block a (client true, server false), block b (client false, server true) and the footer |
| ManifestExamples.EmptyCatalogFailsTheRun | pkgs/generate-mods/generate-mods.ts:76-90 | a CurseForge project with an empty file list misses at "1.17.1" and at "1.17"; the whole run fails with "unknown mod", even beside a mod that resolves |

## Left out

- Network fetches and JSON decoding of the catalog responses (lines 77-78, 93-94). Each response is a function parameter from project id or slug to the decoded list. Network and decode failures are therefore not modelled, and the refetch in the recursion sees the same list.
- The `nix-prefetch-url` subprocess (lines 108-110). It is an opaque function `Env.prefetch` from URL to its raw output. A failing subprocess is not modelled, and neither is the fact that each resolved URL is hashed exactly once.
- Command-line parsing with yargs (lines 8-22), the Ajv schema validation and input reading (lines 50-74, 114-124), console logging, and `Deno.writeTextFile` (line 159). The model takes a typed, valid mod list. `GenerateNix` returns the manifest text. An `Err` result stands for a run that writes nothing.
- The `Number(...)` and `String(...)` coercions of `value` (lines 132, 135). A mod's source carries its identifier already typed: `int` for CurseForge, `string` for Modrinth and direct URLs.
- CurseForge ids are mathematical integers. The comparator `b.id - a.id` on JavaScript numbers is modelled as integer comparison, so NaN and precision effects are not captured.
- Manifest.CollectAll: `Promise.all` rejects with whichever rejection happens first in time. The model reports the first failing mod in input order. The set of runs that fail is the same, but which error is reported may differ.
- Concurrency of the per-mod resolutions. Only the positional order of the results is observable, and a sequential map captures that.
- pkgs/minecraft-custom-launcher/src-backend/index.ts, pkgs/minecraft-custom-launcher/svelte.config.js and pkgs/minecraft-custom-launcher/src-backend/build.mjs are not part of this model: they hold launcher and build glue with no resolution logic.
