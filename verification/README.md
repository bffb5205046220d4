# Evolution paths, condition labels and the record cache of a PokeAPI explorer

This project models, in Dafny, the part of the browser explorer in
`assets/js/app.js` that does more than fetch and draw:

- **Evolution paths** (`loadEvolutions` and the identical block of
  `renderEvolutionCatalog`). An evolution-chain tree is walked depth first
  into one root-to-leaf path of steps `{name, id, cond}` per leaf. Each path
  is collapsed so that no species follows itself. Paths are then deduplicated
  by their `>`-joined species signature, keeping the first one. The catalog
  also folds a chain's paths into one sorted, `|`-joined chain signature and
  skips a chain whose signature it has already drawn. The module also covers
  the label drawn between two steps and the list of species names fetched
  ahead of drawing.
- **Condition labels** (`formatEvoCondition`). An evolution-condition record
  becomes a Spanish label. Up to fifteen fragments appear in a fixed field
  order, joined by ` • `. When no fragment applies the label is `→`.
- **The record cache** (`cache`, `ensurePokemon`). The argument is normalised
  to a key by stripping a `…/pokemon/` location prefix and one trailing `/`.
  A hit is answered from the in-memory map. On a miss the record is fetched
  and registered under both `String(id)` and its name. The network is a
  function parameter.
- **Small helpers and selections**: `idFmt`, `cap`, the favourites toggle and
  the comparison selection capped at six.

Modules: `Wrappers` (Option/Result), `Text` (join, `String(n)`, `padStart`,
`cap`, `idFmt`), `Sorting` (string `sort()`), `EvoCondition` (formatter),
`EvoChain` (tree and walk), `EvoPaths` (collapse, dedup, chain signature,
catalog), `PokemonCache`, `Favorites`, `Compare`.

The code fetches each record under its species name (`ensurePokemon(n)`,
app.js:412) and does not resolve a default variety first; `ResolveAll`
models that.

## Model

| member | source | states |
|---|---|---|
| EvoChain.EdgeCondition | assets/js/app.js:393-396 | An edge's condition is the first entry of its `evolution_details`, and it is absent exactly when the list is missing or empty |
| EvoChain.RawPathsAreRootToLeafPaths | assets/js/app.js:389-398 | The walk emits exactly one path per leaf, and the i-th raw path is the path to the i-th leaf counted depth first, children in order (`LeafPathAt`). The emitted paths are exactly the root-to-leaf paths: each starts at the root step with no condition, and each later step is a child of the step before it and carries that child's edge condition |
| EvoChain.WalkCount | assets/js/app.js:390-397 | From any node, the walk emits as many paths as the node has leaves |
| EvoChain.WalkSound | assets/js/app.js:390-397 | Every path emitted from a node is the path so far followed by a chain path from that node down to a leaf |
| EvoChain.WalkComplete | assets/js/app.js:390-397 | Every chain path from a node down to a leaf is emitted after the path so far |
| EvoChain.WalkInLeafOrder | assets/js/app.js:390-397 | From any node, the walk's i-th path is the path so far followed by the path to the node's i-th leaf, where child k owns the leaf numbers after those of the children before it. This fixes both the depth-first, children-in-order order and one path per leaf |
| EvoPaths.Collapse | assets/js/app.js:404 | The collapsed path keeps the first step and the last species, is no longer than the raw path, and has no two neighbouring steps with the same name |
| EvoPaths.CollapseSubsequence | assets/js/app.js:404 | The collapsed path is an order-preserving subsequence of the raw path |
| EvoPaths.CollapseKeepsFirstOfRun | assets/js/app.js:404 | The collapsed path is the raw path read at `KeptIndices`: the positions that are 0 or whose name differs from the step before, in increasing order, none missing. So the first step of every run of equal names is the one kept, with its condition |
| EvoPaths.CollapseKeepsNames | assets/js/app.js:404 | Collapsing loses no species: the set of names is unchanged |
| EvoPaths.CollapseFixpoint | assets/js/app.js:404 | A path is left unchanged exactly when no two neighbouring steps share a name |
| EvoPaths.CollapseIdempotent | assets/js/app.js:404 | Collapsing twice is the same as collapsing once |
| EvoPaths.SignatureMatchesNames | assets/js/app.js:405 | For non-empty paths whose names contain no `>`, two signatures are equal exactly when the species sequences are equal |
| EvoPaths.Dedupe | assets/js/app.js:400-408 | Deduplication never adds paths, and a non-empty list of raw paths keeps at least one |
| EvoPaths.DedupeIsFirstOccurrences | assets/js/app.js:400-408 | The loop output equals an independent reference list: for each signature, the first collapsed raw path with it, in raw-path order |
| EvoPaths.DedupeSignatures | assets/js/app.js:400-408 | The kept paths have pairwise different signatures and species sequences. Their signatures are exactly those of the collapsed raw paths |
| EvoPaths.ChainPathsShape | assets/js/app.js:389-408 | A chain with a root yields at least one path, and each is the collapse of a root-to-leaf path starting at the root step. A missing root yields no paths |
| EvoPaths.ChainSigPermutation | assets/js/app.js:744 | Two path lists that are permutations of each other have the same chain signature |
| EvoPaths.ChainSigDeterminesSignatures | assets/js/app.js:744 | When no path signature contains `\|`, equal chain signatures of non-empty path lists mean the same multiset of path signatures |
| EvoPaths.DrawOnceProperties | assets/js/app.js:723-746 | The skip-if-rendered loop never draws a key twice or a key rendered before. Together with the earlier keys, the drawn keys are exactly the keys present. Only present entries are drawn, and the drawn list equals `FirstKeyed`: entries in listing order, each kept exactly when it is present, its key was not rendered before, and no earlier present entry has that key |
| EvoPaths.DrawOnceIsFirstKeyed | assets/js/app.js:723-746 | The loop over the listed entries with `has`/`add` on the rendered set draws exactly the `FirstKeyed` entries, in listing order |
| EvoPaths.CatalogDrawsEachChainOnce | assets/js/app.js:723-746 | The drawn chains have pairwise different chain signatures. The drawn signatures are exactly those of the listed chains, and only listed chains are drawn. The cards come in listing order, and for each signature the first listed chain is the one drawn (`FirstKeyed`) |
| EvoPaths.CatalogSkipsReorderedChains | assets/js/app.js:744-746 | No two drawn chains have path lists that are reorderings of each other |
| EvoPaths.EdgeLabel | assets/js/app.js:427-428 | The chip before a step is the formatter's label for that step's condition, and `→` when the step has none. The `\|\| '→'` fallback never fires |
| EvoPaths.UniqueNames | assets/js/app.js:411 | The names to prefetch have no repeats, and they are exactly the names occurring in the paths |
| EvoPaths.UniqueNamesInFirstSeenOrder | assets/js/app.js:411 | The prefetch list equals `FirstNames` of all step names: a name is kept exactly where it first occurs, path after path, so the list keeps the insertion order of the `Set` |
| EvoCondition.TriggerLabel | assets/js/app.js:442-447 | `trade` gives `Intercambio`. `level-up` and a missing name give nothing. Any other trigger gives its capitalised name |
| EvoCondition.TimeOfDayLabel | assets/js/app.js:451 | `day` gives `Día` and `night` gives `Noche`. The empty string gives nothing. Any other value is capitalised |
| EvoCondition.GenderLabel | assets/js/app.js:455 | Gender 1 gives `Hembra`, 2 gives `Macho`, and anything else gives nothing |
| EvoCondition.RelativeStatsLabel | assets/js/app.js:457-458 | 1 gives `Atk>Def`, -1 gives `Def>Atk`, and anything else gives nothing |
| EvoCondition.LevelToHappinessLabels | assets/js/app.js:439-448 | The level, item, held-item, trigger and happiness fragments appear exactly when the level is a non-zero number, the item names are present, the trigger is present and not `level-up`, and the happiness is a non-zero number |
| EvoCondition.BeautyToKnownMoveLabels | assets/js/app.js:449-453 | The beauty, affection, time-of-day, location and known-move fragments appear exactly when their numbers are non-zero, the time of day is non-empty, and the names are present |
| EvoCondition.MoveTypeToUpsideDownLabels | assets/js/app.js:454-459 | The move-type, gender, rain, relative-stats and upside-down fragments appear exactly when the type is present, gender is 1 or 2, rain is required, the stats value is 1 or -1, and the console must be turned upside down |
| EvoCondition.Format | assets/js/app.js:437-461 | The label is never empty. It is `→` when no field applies, and otherwise the applicable fragments joined by ` • ` |
| EvoCondition.FragmentsEmptyIffNothingApplies | assets/js/app.js:438-460 | No fragment is produced exactly when every field is absent, zero, empty, false, the `level-up` trigger, or an unlisted gender or stats value |
| EvoCondition.FragmentsFollowFieldOrder | assets/js/app.js:438-459 | There is one fragment per applicable field and no other: fragment i is the label of the i-th applicable field in the fixed order (`Positions` lists those fields in strictly increasing order and misses none). Every applicable field's fragment appears, and of two applicable fields the earlier one's fragment comes first |
| EvoCondition.FormatDeterminesFragments | assets/js/app.js:460 | When no fragment contains `•`, equal labels mean equal fragment lists |
| EvoCondition.LevelUpShowsLevelOnly | assets/js/app.js:439-446 | A level threshold with the `level-up` trigger shows `Lv n` only |
| EvoCondition.TradeOnly | assets/js/app.js:442-444 | A bare trade trigger shows `Intercambio` |
| EvoCondition.LevelAtNight | assets/js/app.js:439-451 | A level threshold at night shows `Lv n • Noche`, level first |
| Text.Cap | assets/js/app.js:67 | `cap` keeps the length, upper-cases the first character, and leaves the rest and the empty string alone |
| Text.CapIdempotent | assets/js/app.js:67 | Capitalising twice is the same as capitalising once |
| Text.PadStart | assets/js/app.js:66 | `padStart` returns a string of at least the width, made of fill characters followed by the input |
| Text.IdFmt | assets/js/app.js:66 | `idFmt` is `#` followed by the zero-padded decimal id, at least five characters long |
| Text.IdFmtRoundTrip | assets/js/app.js:66 | The digits after `#` read back as the id, and ids below 10000 take exactly five characters |
| Text.NatToString | assets/js/app.js:66 | `String(n)` is a non-empty string of digits with no leading zero |
| Text.ParseNatToString | assets/js/app.js:66 | Reading back the decimal rendering gives the number |
| Sorting.Sort | assets/js/app.js:744 | `sort()` returns a sorted permutation of its input |
| Sorting.SortPermutationInvariant | assets/js/app.js:744 | Permutations of the same strings sort to the same sequence |
| PokemonCache.StripPokemonPrefix | assets/js/app.js:167 | A string with no match is unchanged. Otherwise everything up to the last reachable `/pokemon/` is removed |
| PokemonCache.LastMatchEnd | assets/js/app.js:167 | The search finds the greatest match end, or reports that there is none |
| PokemonCache.TrimTrailingSlash | assets/js/app.js:167 | Exactly one trailing `/` is removed, if there is one |
| PokemonCache.NormalizeKeyPlain | assets/js/app.js:167 | A key that does not start with `http` and does not end in `/` normalises to itself |
| PokemonCache.NormalizeKeyOfId | assets/js/app.js:167 | `String(id)` normalises to itself |
| PokemonCache.NormalizeKeyOfUrl | assets/js/app.js:167 | The API location of a key, with or without a trailing `/`, normalises back to the key. This needs a key without `/` other than `pokemon` |
| PokemonCache.Register | assets/js/app.js:172 | After write-back, both `String(id)` and the name give the record. No other key changes, and nothing is removed |
| PokemonCache.EnsurePokemon | assets/js/app.js:166-174 | A hit returns the cached record with no request and an unchanged cache. A miss requests the argument or the API location of the key. Success registers the record, and failure leaves the cache as it was |
| PokemonCache.RegisterKeepsInvariants | assets/js/app.js:172 | Write-back keeps two facts: for every cached record, its id key and its name key are both present, and every key is its record's id or name. A later record with the same name may take over the name key, as the code's overwrite does |
| PokemonCache.EnsurePokemonKeepsInvariants | assets/js/app.js:166-174 | `ensurePokemon` keeps both cache invariants and never drops a key |
| PokemonCache.FetchedThenCached | assets/js/app.js:166-174 | After a fetch, asking again by `String(id)`, by the API location of the id, or by the name (when the name is its own key) returns the record with no request, whatever the network would answer |
| PokemonCache.MissWithForeignKeyRefetches | assets/js/app.js:167-173 | If the fetched record is stored under neither key asked for, asking again the same way requests it again |
| PokemonCache.ResolveAll | assets/js/app.js:411-412 | Resolving the names gives one result per name, makes at most one request per name, and forgets no cache key |
| PokemonCache.ResolveAllAligned | assets/js/app.js:412 | Result i is what looking up name i gives against the cache left by the lookups of the names before it, and the final cache is the one left after the last name |
| PokemonCache.ResolveAllFailures | assets/js/app.js:412 | A name comes back empty only when fetching that name's record failed; the `catch` turns such a failure into `null` |
| PokemonCache.ResolveAllRegisters | assets/js/app.js:412 | Resolving keeps the cache invariants, and for every record resolved, its id key and its name key are both present afterwards (the name key may hold a later record of the same name) |
| PokemonCache.ResolveAllWarm | assets/js/app.js:412 | When every name is already cached, nothing is requested, the cache is unchanged, and the cached records come back in order |
| PokemonCache.ByName | assets/js/app.js:413 | The name map holds exactly the names of the records resolved, skipping failures; each name maps to the last record resolved with that name, as `new Map` keeps the last entry for a repeated key |
| Favorites.Toggle | assets/js/app.js:94 | On the stored set read by `all()`, the toggle reports `true` exactly when the id string was not a favourite, and the id is in the set to save exactly then. No other id changes |
| Favorites.ToggleTwice | assets/js/app.js:94 | Toggling the same id twice restores the set and reports the original membership |
| Compare.AddToCompare | assets/js/app.js:583-589 | A new id added to a full selection of six is refused with the alert and changes nothing. Any other addition adds the id with no alert |
| Compare.RemoveFromCompare | assets/js/app.js:590-591 | The id is gone afterwards, and every other id is unchanged |
| Compare.SelectionStaysBounded | assets/js/app.js:583-591 | Adding or removing never takes a selection of at most six past six |
| Compare.AddThenRemove | assets/js/app.js:584-591 | Removing an id that was just accepted as new restores the selection |

## Left out

- Network access (`fetchJSON`, the species and evolution-chain requests) is left out as I/O. Fetching a record is the parameter `fetch` of `EnsurePokemon`. The chain tree, and a possibly missing chain resource, are inputs.
- Persisting the record cache in local storage is left out. That copy is best effort, and its errors are swallowed. `Get` reads only the in-memory map, not the stored copy that the code's `get` falls back to.
- Favorites.Toggle: local storage is the favourites state itself; there is no in-memory set. Every call reads the stored set afresh (app.js:91), and the model takes that set as its input. When storage cannot be read, `all()` gives the empty set, and when it cannot be written, `save` drops the change (app.js:91-92). The toggle then reports `true`, and nothing is remembered. The model does not cover that failure: it returns the set to be saved and treats the save as done. Ids are the strings `String(p.id)` (app.js:116), as in the model.
- `pMap` runs requests concurrently, with a bound of 8 in the panel (app.js:412) and 6 in the catalog (app.js:748). `ResolveAll` runs them one after another instead. Results keep the order of the names in both.
- DOM rendering, the modal, tabs, the compare bar, theme, URL and hash synchronisation are left out as browser glue.
- Floating-point display arithmetic (height, weight, stat bars, `hexAlpha`) is left out.
- The regular expressions that extract the species id and the chain id from URLs are left out. The id is a field of each chain node, and it is 0 when the URL has none, as `Number('')` gives.
- EvoChain.EdgeCondition: later alternatives in `evolution_details` are dropped, as in the code. The model does not cover a non-array `evolution_details` value, which the API never sends.
- Sorting.Sort: JavaScript compares UTF-16 code units, and the model compares Dafny characters (code points). The two orders differ only for characters outside the Basic Multilingual Plane.
- Text.Cap: `toUpperCase` is modelled for the ASCII letters only. Other characters are left unchanged.
- Text.IntToString: numbers in conditions and ids are whole numbers. JavaScript's rendering of fractions and exponents is not modelled.
- EvoCondition.Format: the condition fields are typed as the API sends them (numbers, names, booleans, a time-of-day string). Other JSON values that JavaScript would test for truthiness are not modelled.
- PokemonCache.EnsurePokemon: the argument is a string. A numeric id enters as `String(id)`, which is `IntToString`.
- Stale-result generation tokens and a default-variety step are not in the code, so they are not modelled. The generation filter of the list view (`getGenNames`, `applyGenerationFilter`) is list-view glue and is left out with it.
- A failed species or evolution-chain request (app.js:384-387, 726-729), and in the catalog a failed record request for a listed species (app.js:721), throws and aborts the whole evolution panel or the rest of the catalog (caught at app.js:434 and 765). `Catalog` takes the chains as inputs, and its `Option` entries stand only for a chain that is absent; it cannot express an abort part way through.
- Item records and their cache (`itemCache`, `ensureItem`) follow the same pattern as creature records and are not modelled.
