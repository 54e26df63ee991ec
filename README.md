# Lonestar theme core, modelled in Dafny

This project models the decision logic of the Lonestar WordPress theme. Lonestar is a parent theme with a
module system, ACF and native blocks, a Google Tag Manager module and a self-updater that reads GitHub
releases. The model covers these parts of the theme:

- **Module keys and the module catalog** (`ModulesCatalog`):
  - keys of the form `source__slug`, and splitting them back;
  - source priority (child theme 20, parent 10, other 0);
  - slug and label derivation;
  - the metadata fallback chains, docblock header and README parsing;
  - de-duplicated admin links;
  - the flat-file/folder merge of the catalog scan.
- **The enabled-module computation** (`ModulesState`):
  - toggle maps with their default-on and legacy-slug rules;
  - forced-disable configuration;
  - switching off modules that have gone missing;
  - override resolution between parent and child modules, through the shared `Override` module;
  - normalisation of filtered key lists.
- **Block state** (`BlocksState`): source and relative path of a block directory, block type, key and identity, block override resolution, enabled block keys and the filtering of block directories.
- **The module admin screen** (`ModulesAdmin`): settings-page slugs, tab normalisation and selection, tab URL arguments, display paths, changelog normalisation, the toggle map saved from the form, and grouping by source.
- **Block asset registration** (`BlocksEnqueue`): source contexts, theme-relative asset paths, Vite dev URLs, `file:` asset detection, handle collection and fallbacks, source-file candidates, manifest lookups and the registration map.
- **Module bootstrap** (`ModulesBootstrap`): boot-once loading, the folder-mode rule, globbed file merging by basename with debug-only filtering, base-directory normalisation and the convention globs. A `Loader` class holds the per-request boot map and the list of files loaded.
- **Helper and shortcode autoloading** (`ThemeAutoload`): a child theme's files replace the parent's by basename, and files load in basename order.
- **The number-with-unit ACF field** (`NumberWithUnit`): unit parsing, field-settings update, validation, save, format and value normalisation.
- **Google Tag Manager** (`GtmScript`, `GtmSettings`): container-ID normalisation, head and body markup, tab insertion, settings sanitisation, the legacy ACF migration and the POST handler. A `SettingsStore` class holds the option, cache and notice.
- **Parent-theme updates** (`ThemeUpdates`): release payload selection from the decoded GitHub release, the update-transient injection (an `UpdateTransient` class) and the theme-information guard. The tag prefix `LONESTAR_UPDATE_TAG_PREFIX` is a parameter, since a site may define it before the theme does; its default is `DefaultTagPrefix`, 'lonestar-v'.
- **Vite build helpers** (`ViteEntryPoints`, `ViteBlockDiscovery`):
  - entry-key derivation and the block entry-point map;
  - block roots;
  - the recursive block directory walk, over an abstract directory tree, through a `BlockDirectoryFinder` class.
  - the build failure when `readdirSync` meets a path that exists but is not a directory (`modules` or a block root).
- **Small filters** (`BlocksAcf`, `ThemeFilters`, `DisableEmoji`): the block category filter and the block-cache acceptance rule, the ACF taxonomy location rule, the AVIF MIME filter, and the emoji TinyMCE/DNS-prefetch filters.

Shared modules:

- `Strings` models the PHP and WordPress string primitives the theme calls: `sanitize_key`, `sanitize_text_field`, `trim`, `wp_normalize_path`, `basename`, `strpos`, `explode`/`implode`.
- `Order` models PHP ordered arrays: `$a[$k] = $v`, `ksort`, `array_unique`, `array_filter` and sorting (lexicographic order in place of natural order; see Left out).
- `JsonValues` models decoded JSON and PHP values: `is_array`, `isset`, `(string)`.

Loops in the source are methods with loop invariants. Each is proved equal to a specification function, and the properties are proved about those functions.

Several things are parameters of the model rather than computed by it:

- WordPress state and I/O: options, transients, the filesystem (sets of readable paths, directory listings, glob results, an abstract tree), decoded JSON and HTTP responses;
- `apply_filters`;
- hashing (`md5`);
- `version_compare`;
- `esc_url` wherever a URL is escaped (the GTM markup's `esc_url`/`esc_attr` are taken as the identity on a normalised container ID, which holds only [A-Z0-9-]);
- numeric parsing (`is_numeric` and canonical numbers).

## Model

| member | source | states |
|---|---|---|
| ModulesCatalog.NormalizeSource | inc/core/modules_catalog.php:27-35 | the normalised source is a non-empty key; '' reads as 'template' |
| ModulesCatalog.NormalizeSourceIdempotent | inc/core/modules_catalog.php:27-35 | normalising a normalised source changes nothing |
| ModulesCatalog.NormalizeSourceOfKey | inc/core/modules_catalog.php:27-35 | a non-empty key is its own normalised source |
| ModulesCatalog.SourcePriority | inc/core/modules_catalog.php:61-72 | the priority is 20, 10 or 0 |
| ModulesCatalog.ChildOutranksParent | inc/core/modules_catalog.php:61-72 | 'stylesheet' outranks 'template', which outranks any other source; '' counts as 'template' |
| ModulesCatalog.BuildKey | inc/core/modules_catalog.php:81-90 | the key is a sanitised key, and is '' exactly when the sanitised slug is '' |
| ModulesCatalog.BuildKeySanitized | inc/core/modules_catalog.php:81-90 | the key equals sanitize_key(normalised source . '__' . sanitised slug) |
| ModulesCatalog.JoinIsKey | inc/core/modules_catalog.php:81-90 | source + '__' + slug is a key when both parts are keys |
| ModulesCatalog.SplitKey | inc/core/modules_catalog.php:98-121 | both halves are keys; the source is '' exactly when the sanitised key is '' |
| ModulesCatalog.SplitBuild | inc/core/modules_catalog.php:81-121 | splitting a built key gives back the normalised source and sanitised slug, for a source without '__' and without a trailing '_' |
| ModulesCatalog.ThemeSourcesSplit | inc/core/modules_catalog.php:81-121 | 'template' and 'stylesheet' meet the side condition of SplitBuild |
| ModulesCatalog.SplitBuildTrailingUnderscore | inc/core/modules_catalog.php:81-121 | a source ending in '_' splits at the wrong place: ('a_', 'b') comes back as ('a', '_b') |
| ModulesCatalog.BuildSplit | inc/core/modules_catalog.php:81-121 | rebuilding a key from the halves around its first '__' gives the key back |
| ModulesCatalog.SplitLegacy | inc/core/modules_catalog.php:98-121 | a key without '__' is a legacy key: source 'template', slug the whole key |
| ModulesCatalog.SlugFromEntryFile | inc/core/modules_catalog.php:363-371 | the slug is a key, and is non-empty only when the file name starts with 'module.' |
| ModulesCatalog.SlugOfEntryFileName | inc/core/modules_catalog.php:363-371 | the file 'module.<slug>.php' yields slug |
| ModulesCatalog.LabelFromSlug | inc/core/modules_catalog.php:379-387 | the label is '' exactly when the sanitised slug is '' |
| ModulesCatalog.LabelFromSlugWords | inc/core/modules_catalog.php:379-387 | the lower-cased label is the sanitised slug with '-' and '_' read as spaces |
| ModulesCatalog.LabelCharAt | inc/core/modules_catalog.php:379-387 | no label character is '-' or '_', and every word starts with a character that is not lower case |
| ModulesCatalog.FirstNonEmptyAt | inc/core/modules_catalog.php:410-440 | the value chosen is the first non-empty candidate |
| ModulesCatalog.FirstNonEmptyFallback | inc/core/modules_catalog.php:410-440 | with every candidate empty the fallback is chosen |
| ModulesCatalog.PickFirstCandidate | inc/core/modules_catalog.php:410-440 | the loop returns the first candidate non-blank once cleaned, else the fallback |
| ModulesCatalog.DescriptionOr | inc/core/modules_catalog.php:437-440 | the description is never empty; a present description is kept |
| ModulesCatalog.ResolveMetadata | inc/core/modules_catalog.php:398-472 | title, description, version and author are each the first non-empty candidate in the source's order; the title falls back to the label, the description to 'Module: <title>' |
| ModulesCatalog.NormalizeHeaderKey | inc/core/modules_catalog.php:569-588 | only module/name/description/version/author are accepted, 'name' read as 'module' |
| ModulesCatalog.DocMetaKeys | inc/core/modules_catalog.php:557-591 | the docblock metadata has only accepted keys, each with a non-empty value |
| ModulesCatalog.MetaOfLast | inc/core/modules_catalog.php:557-591 | a later header overwrites an earlier one for the same key |
| ModulesCatalog.MetaOfAbsent | inc/core/modules_catalog.php:557-591 | a key no header gives is absent |
| ModulesCatalog.ExtractDocblockMetadata | inc/core/modules_catalog.php:530-594 | the method returns the header map of the file's docblock lines |
| ModulesCatalog.CollectHeaders | inc/core/modules_catalog.php:557-591 | the header loop computes that header map |
| ModulesCatalog.FirstReadmeLineChoice | inc/core/modules_catalog.php:682-695 | the README description is '' exactly when every line is blank, a heading or a comment |
| ModulesCatalog.FirstReadmeLineAt | inc/core/modules_catalog.php:682-695 | otherwise it is the first such line kept, trimmed and sanitised |
| ModulesCatalog.ExtractReadmeDescription | inc/core/modules_catalog.php:665-696 | a missing file or blank contents give ''; otherwise the first kept line |
| ModulesCatalog.FirstSummaryLineChoice | inc/core/modules_catalog.php:704-743 | the summary is '' exactly when every docblock line is blank or a tag |
| ModulesCatalog.SummaryKeptNonEmpty | inc/core/modules_catalog.php:704-743 | a docblock line that is kept gives a non-empty summary |
| ModulesCatalog.ExtractDocblockSummary | inc/core/modules_catalog.php:704-743 | the loop returns the first kept docblock line |
| ModulesCatalog.AddAdminPageLink | inc/core/modules_catalog.php:903-930 | an empty or seen slug, or an empty URL, changes nothing; otherwise exactly one link is appended and the slug marked seen |
| ModulesCatalog.AddAdminPageLinks | inc/core/modules_catalog.php:903-930 | over many pages, earlier links are kept and one link is added per newly accepted distinct page; the added links are exactly NewLinks: a 'Settings' link for each page whose slug and URL are non-empty and whose slug was not seen before, in page order |
| ModulesCatalog.AcceptedPagesMembers | inc/core/modules_catalog.php:903-930 | a page is accepted exactly when some listed page sanitises to it and has a non-empty URL |
| ModulesCatalog.ScanFlatFiles | inc/core/modules_catalog.php:228-355 | the flat-file loop assigns each module file with a slug under its key |
| ModulesCatalog.ScanFolders | inc/core/modules_catalog.php:228-355 | the folder loop assigns each module folder with a slug under its key |
| ModulesCatalog.ScanSource | inc/core/modules_catalog.php:228-355 | one source's scan is flat files then folders |
| ModulesCatalog.BuildCatalog | inc/core/modules_catalog.php:228-355 | the catalog is the ksorted result of scanning every source, in key order |
| ModulesCatalog.ScanFolderWins | inc/core/modules_catalog.php:228-355 | a folder module replaces a flat module file with the same key |
| ModulesCatalog.CatalogWellFormed | inc/core/modules_catalog.php:228-355 | every catalog entry sits under the key built from its source and slug |
| ModulesCatalog.CatalogHasFlat | inc/core/modules_catalog.php:228-355 | every flat module file with a slug has a catalog entry |
| ModulesCatalog.CatalogHasFolder | inc/core/modules_catalog.php:228-355 | every module folder with a slug has a catalog entry |
| ModulesCatalog.BuildKeyInjective | inc/core/modules_catalog.php:81-90 | within one source the key determines the slug |
| ModulesState.SlugOfKey | inc/core/modules_state.php:223-227 | the slug is the split key's slug, a key |
| ModulesState.SourceOfKey | inc/core/modules_state.php:235-239 | the source is never ''; it is the split source, or 'template' for an empty key |
| ModulesState.KeyHalves | inc/core/modules_state.php:223-239 | a key built for 'template' or 'stylesheet' gives back its source and slug |
| ModulesState.ToggleMapOf | inc/core/modules_state.php:485-503 | every key of the toggle map is a non-empty sanitised key |
| ModulesState.ToggleMapLast | inc/core/modules_state.php:485-503 | the last stored entry for a key wins |
| ModulesState.ToggleValue | inc/core/modules_state.php:276-291 | the exact key decides, else the legacy slug, else the module is on |
| ModulesState.ToggleOffOnlyByFalse | inc/core/modules_state.php:276-291 | a module is off exactly when its key, or failing that its slug, maps to false |
| ModulesState.ForcedDisabledSlugs | inc/core/modules_state.php:153-175 | the forced list is sorted and holds exactly the non-empty sanitised configured entries, MODULES_DISABLED first |
| ModulesState.ForcedAreKeys | inc/core/modules_state.php:153-175 | every forced entry is a non-empty key |
| ModulesState.ForcedDisabledIff | inc/core/modules_state.php:249-264 | a module is force-disabled exactly when its key or its slug is configured |
| ModulesState.PersistMissing | inc/core/modules_state.php:187-215 | the method computes the persisted map, and writes exactly when it differs |
| ModulesState.PersistedChanges | inc/core/modules_state.php:187-215 | the key set is unchanged, and an entry changes exactly when it was true and the module is missing |
| ModulesState.PersistIdempotent | inc/core/modules_state.php:187-215 | persisting again changes nothing and writes nothing |
| ModulesState.MissingStaysOff | inc/core/modules_state.php:187-215 | a module switched off while missing stays off when it returns |
| ModulesState.ModuleOverrideState | inc/core/modules_state.php:305-383 | the method computes the slug groups, each group's winner and the overridden-by map |
| ModulesState.ModuleOverride | inc/core/modules_state.php:305-383 | each module is in its slug group; it is overridden exactly when it is not the winner, and then maps to the winner, which beats it |
| ModulesState.ChildOverridesParent | inc/core/modules_state.php:305-383 | a child-theme module overrides the parent module with the same slug |
| ModulesState.ResolveConflicts | inc/core/modules_state.php:394-424 | the method computes the resolved key list |
| ModulesState.ResolvedKeys | inc/core/modules_state.php:394-424 | with a catalog, the result is sorted and is exactly the enabled catalog keys not overridden |
| ModulesState.ResolvedFromEnabled | inc/core/modules_state.php:394-424 | every resolved key was enabled |
| ModulesState.SameGroupOverridden | inc/core/modules_state.php:305-383 | of two modules in one slug group, one is overridden |
| ModulesState.ResolvedOnePerGroup | inc/core/modules_state.php:394-424 | two modules of one slug group are never both enabled after resolution |
| ModulesState.NormalizeEnabledKeys | inc/core/modules_state.php:436-478 | the method builds the slug map and maps each candidate through it, sorted and de-duplicated |
| ModulesState.NormalizeMembers | inc/core/modules_state.php:436-478 | the result is sorted, without repeats, and holds exactly what some candidate picks |
| ModulesState.PickAvailable | inc/core/modules_state.php:436-478 | an available key is kept as it is; one that sanitises to '' is dropped |
| ModulesState.PickBySlug | inc/core/modules_state.php:436-478 | a bare slug picks a key exactly when that key is the only available key with the slug |
| ModulesState.SlugGroup | inc/core/modules_state.php:436-478 | the slug map lists the available keys of each slug, in order, without repeats |
| ModulesState.NormalizedAvailable | inc/core/modules_state.php:436-478 | normalisation returns only available keys |
| ModulesState.CollectEnabled | inc/core/modules_state.php:77-93 | the main loop keeps the modules that are switched on and not forced off |
| ModulesState.EnabledKeys | inc/core/modules_state.php:57-123 | the method computes the enabled list; with every module forced off it is empty |
| ModulesState.EnabledAvailable | inc/core/modules_state.php:118-122 | the enabled list is sorted, without repeats, and made of available keys |
| ModulesState.EnabledPassThrough | inc/core/modules_state.php:57-123 | with pass-through filters, a key is enabled exactly when not every module is forced off and the key is non-empty, available, switched on, not forced off, and (with a catalog) catalogued and not overridden |
| ModulesState.FinalKeysPassThrough | inc/core/modules_state.php:95-123 | with both filters passing their input through, a key survives filtering exactly when it was enabled and, with a catalog, is catalogued and not overridden |
| ModulesState.ResolveKeeps | inc/core/modules_state.php:394-424 | override resolution keeps a non-empty key that is catalogued and not overridden |
| ModulesState.ResolvedSubset | inc/core/modules_state.php:394-424 | resolution only drops keys |
| Override.GroupsOfGet | inc/core/modules_state.php:321-339 | the group stored under a name holds exactly that name's members, and is never empty |
| Override.OneGroup | inc/core/modules_state.php:321-339 | a key belongs to its own group and no other |
| Override.BestBeats | inc/core/modules_state.php:341-371 | the winner beats every other candidate: highest priority, then first in key order |
| Override.BestUnique | inc/core/modules_state.php:341-371 | only one candidate beats all others |
| Override.OverriddenOfGet | inc/core/modules_state.php:370-379 | a key is overridden exactly when it is not its group's winner, and then maps to the winner |
| Override.ComputeOverride | inc/core/modules_state.php:305-383 | the loops compute the groups, winners and overridden map |
| Override.OverrideResolution | inc/core/modules_state.php:305-383 | each key is in the group of its pair; the group's winner beats every other member; a key is overridden exactly when it is not the winner |
| Override.WinnerNotOverridden | inc/core/modules_state.php:305-383 | a group's winner is never overridden |
| Override.AtMostOneStanding | inc/core/modules_state.php:305-383 | two keys of one group are never both left standing |
| Override.LowerPriorityOverridden | inc/core/modules_state.php:305-383 | of two keys in one group, the one of lower priority is overridden |
| Override.ResolveKept | inc/core/modules_state.php:394-424 | the kept keys come back sanitised, sorted and without repeats |
| BlocksState.BlockRoots | inc/core/blocks-state.php:20-32 | roots are the parent directory under 'template', then the child directory under 'stylesheet' when it differs |
| BlocksState.SourceForPathRule | inc/core/blocks-state.php:40-60 | a path at or below the parent root is 'template'; below only a distinct child root, 'stylesheet'; otherwise 'template' |
| BlocksState.RelativePathRebuilds | inc/core/blocks-state.php:69-93 | the relative path is '' for an unknown source, the root itself or a path outside it; otherwise root + '/' + relative path rebuilds the path |
| BlocksState.BlockType | inc/core/blocks-state.php:101-112 | 'acf' is checked before 'native', else 'unknown' |
| BlocksState.BlockKeyParts | inc/core/blocks-state.php:123-133 | a block key is source__type__slug__hash with sanitised parts, slug 'block' when none survives |
| BlocksState.BlockKeysDifferByHash | inc/core/blocks-state.php:123-133 | blocks whose path hashes differ get different keys |
| BlocksState.Identity | inc/core/blocks-state.php:168-196 | the identity is 'name:', else 'path:type:path', else 'slug:', else 'key:', else 'key:unknown' |
| BlocksState.IdentityFirstChar | inc/core/blocks-state.php:168-196 | a named block's identity starts with 'n', every other with 'p', 's' or 'k' |
| BlocksState.NamedIdentity | inc/core/blocks-state.php:168-196 | a named block shares its identity exactly with blocks of the same normalised name |
| BlocksState.BlockSourcePriority | inc/core/blocks-state.php:143-159 | the priority is the modules' source priority, or 20/10/0 without the module core |
| BlocksState.BlockSourcePriorityAgrees | inc/core/blocks-state.php:143-159 | both branches agree on every source that sanitises to a non-empty key |
| BlocksState.BlockOverrideState | inc/core/blocks-state.php:210-281 | the method computes identity groups, winners and the overridden map |
| BlocksState.BlockOverride | inc/core/blocks-state.php:240-278 | each block is in its identity group; it is overridden exactly when it is not the winner, and then maps to the winner, which beats it |
| BlocksState.ChildBlockOverridesParent | inc/core/blocks-state.php:240-278 | a child-theme block overrides the parent block of the same identity |
| BlocksState.ChildBlockOverridesSameName | inc/core/blocks-state.php:240-278 | a child-theme block overrides the parent block of the same name |
| BlocksState.SameIdentityOverridden | inc/core/blocks-state.php:240-278 | of two blocks with one identity, one is overridden |
| BlocksState.ResolveBlockConflicts | inc/core/blocks-state.php:290-326 | the method computes the resolved block keys |
| BlocksState.BlockResolvedKeys | inc/core/blocks-state.php:290-326 | the result is sorted; with a catalog it is the enabled catalog keys not overridden, without one the sanitised enabled keys |
| BlocksState.BlockResolvedOnePerIdentity | inc/core/blocks-state.php:290-326 | two blocks of one identity are never both enabled |
| BlocksState.BuildCatalogSubset | inc/core/blocks-state.php:473-479 | the loop collects the catalog entries of the available keys |
| BlocksState.CatalogSubsetGet | inc/core/blocks-state.php:473-479 | the subset holds exactly the catalog entries of available keys, each once |
| BlocksState.EnabledBlockKeys | inc/core/blocks-state.php:431-484 | the method computes the enabled block keys |
| BlocksState.BlockFinalMembers | inc/core/blocks-state.php:445-483 | whatever the filter returns, the result is sorted, available, and with a catalog non-empty and not overridden |
| BlocksState.BlockEnabledAvailable | inc/core/blocks-state.php:445-483 | every enabled block key is an available key, sorted into place |
| BlocksState.BlockEnabledPassThrough | inc/core/blocks-state.php:445-483 | with a pass-through filter, a key is enabled exactly when it is available, not switched off and not overridden |
| BlocksState.SwitchedOffBlockDisabled | inc/core/blocks-state.php:445-483 | a block with an explicit false in the toggle map is never enabled |
| BlocksState.CollectEnabledDirs | inc/core/blocks-state.php:507-517 | the lookup loop collects the directories of enabled blocks |
| BlocksState.KeepEnabledDirs | inc/core/blocks-state.php:519-535 | the filter loop keeps the given directories that belong to an enabled block |
| BlocksState.FilterEnabledDirectories | inc/core/blocks-state.php:492-536 | the method computes the filtered directory list |
| BlocksState.EnabledDirsMembers | inc/core/blocks-state.php:492-536 | with a catalog, exactly the normalised given directories of enabled blocks, sorted; without one, the normalised directories, each once |
| ModulesAdmin.SettingsPageSlugs | inc/core/modules_admin.php:53-65 | among keys, exactly the two settings page slugs open the page; '' does not |
| ModulesAdmin.NormalizeTabs | inc/core/modules_admin.php:85-105 | the normalisation loop computes the kept tabs |
| ModulesAdmin.NormalizedTabsKeys | inc/core/modules_admin.php:85-105 | a key is a tab exactly when some entry with a non-empty label sanitises to it; tabs are well formed |
| ModulesAdmin.NormalizedTabsLabel | inc/core/modules_admin.php:85-105 | the label of a tab is that of the last entry with its key |
| ModulesAdmin.SettingsTabsOf | inc/core/modules_admin.php:72-117 | the tabs are never empty and well formed; default tabs stand in for a non-array or empty result |
| ModulesAdmin.DefaultTabsOk | inc/core/modules_admin.php:72-117 | the default tabs are well formed |
| ModulesAdmin.CurrentTabIsTab | inc/core/modules_admin.php:125-141 | the current tab is the requested one when it is a tab, else the first tab |
| ModulesAdmin.SettingsTabUrlArgs | inc/core/modules_admin.php:150-174 | the method computes the query arguments |
| ModulesAdmin.TabUrlArgsKeys | inc/core/modules_admin.php:158-171 | 'page' and 'tab' are always present; an extra argument is present exactly when it has a non-empty sanitised key and a scalar value |
| ModulesAdmin.DisplayPathRebuilds | inc/core/modules_admin.php:208-218 | below root + '/', root + '/' + the display path rebuilds the path; elsewhere the path is shown whole |
| ModulesAdmin.ReplaceCrlfDropsCr | inc/core/modules_admin.php:226-240 | CRLF replacement only drops carriage returns, and leaves text without them unchanged |
| ModulesAdmin.ChangelogContents | inc/core/modules_admin.php:226-240 | an empty or unreadable path gives ''; otherwise the contents are '' or start and end with a non-trim character, and contents without carriage returns are just trimmed |
| ModulesAdmin.ReplaceCrlfLine | inc/core/modules_admin.php:238 | a CRLF pair becomes a single LF |
| ModulesAdmin.ReplaceCrlfLoneCr | inc/core/modules_admin.php:238 | a CR not followed by LF is kept |
| ModulesAdmin.BuildSavedToggles | inc/core/modules_admin.php:469-497 | the loop computes the saved toggle map |
| ModulesAdmin.ModuleTogglesToSave | inc/core/modules_admin.php:469-477 | the Modules tab saves the toggle map of the module catalog |
| ModulesAdmin.BlockTogglesToSave | inc/core/modules_admin.php:489-497 | the Blocks tab saves the toggle map of the block catalog |
| ModulesAdmin.SavedTogglesDistinct | inc/core/modules_admin.php:469-497 | the saved map holds each catalog key once |
| ModulesAdmin.SavedTogglesGet | inc/core/modules_admin.php:469-497 | the saved map has exactly the catalog keys; overridden keys are false, others true exactly when selected |
| ModulesAdmin.SavedToggleRead | inc/core/modules_admin.php:469-497 | read back through the toggle map, each catalog key gets its saved value |
| ModulesAdmin.SavedBlocksEnabled | inc/core/modules_admin.php:489-497 | after saving the Blocks tab, every enabled block was selected and is not overridden |
| ModulesAdmin.SourceGroup | inc/core/modules_admin.php:531-559 | every item gets a non-empty group |
| ModulesAdmin.GroupCatalogBySource | inc/core/modules_admin.php:531-559 | the loop computes the groups |
| ModulesAdmin.GroupBySourceGet | inc/core/modules_admin.php:531-559 | 'template' and 'stylesheet' come first; each item sits under its key in its source's group and no other |
| BlocksEnqueue.FirstContext | inc/core/blocks-acf-enqueue.php:193-213 | the index is that of the first context that claims the path |
| BlocksEnqueue.SourceContextKeyFor | inc/core/blocks-acf-enqueue.php:193-213 | the loop computes the source context key |
| BlocksEnqueue.SourceContextOfTheme | inc/core/blocks-acf-enqueue.php:152-213 | below the parent directory gives 'template'; below only a distinct child directory, 'stylesheet'; anything else 'template' |
| BlocksEnqueue.ThemeRelativeRebuilds | inc/core/blocks-acf-enqueue.php:414-433 | the relative path is '' unless the path lies below root + '/'; otherwise it has no leading '/' and rebuilds the path |
| BlocksEnqueue.DevAssetUrlShape | inc/core/blocks-acf-enqueue.php:441-455 | the URL is '' exactly without a server or relative path; otherwise server without trailing '/', '/', relative path |
| BlocksEnqueue.BlockUsesFileAssets | inc/core/blocks-acf-enqueue.php:341-371 | the loop decides whether any of the seven fields holds a 'file:' string |
| BlocksEnqueue.ValueHandles | inc/core/blocks-acf-enqueue.php:567-590 | the handles of a field are exactly its non-empty non-'file:' strings |
| BlocksEnqueue.CollectMetadataHandles | inc/core/blocks-acf-enqueue.php:567-590 | the loops compute the collected handles |
| BlocksEnqueue.CollectedHandlesMembers | inc/core/blocks-acf-enqueue.php:567-590 | handles are distinct, are exactly the field handles and the non-empty fallback, and a new fallback comes last |
| BlocksEnqueue.CollectedHandlesShape | inc/core/blocks-acf-enqueue.php:567-590 | handles are distinct and non-empty, and include a non-empty fallback |
| BlocksEnqueue.CssFallback | inc/core/blocks-acf-enqueue.php:634-636 | the style handle is the name with every '/' replaced by '-' |
| BlocksEnqueue.JsFallback | inc/core/blocks-acf-enqueue.php:634-636 | the script handle is the text after the last '/', or the whole name |
| BlocksEnqueue.FirstReadable | inc/core/blocks-acf-enqueue.php:380-406 | the index is the first readable candidate |
| BlocksEnqueue.FindBlockSourceFile | inc/core/blocks-acf-enqueue.php:380-406 | the loop computes the source file |
| BlocksEnqueue.BlockSourceFileOrder | inc/core/blocks-acf-enqueue.php:380-406 | slug.js before index.js, slug.css before style.css; '' when neither exists or the type is neither |
| BlocksEnqueue.ManifestBuiltFileShape | inc/core/blocks-acf-enqueue.php:535-557 | a built file is found only for a manifest key whose entry has a usable string 'file'; the result is that file without leading '/' |
| BlocksEnqueue.BlockRegistrationHandles | inc/core/blocks-acf-enqueue.php:598-647 | a block registers exactly when its metadata has a name and no 'file:' assets; the handles include the fallbacks, distinct and non-empty |
| BlocksEnqueue.RegisterBlock | inc/core/blocks-acf-enqueue.php:606-643 | the loop body computes one block's registration |
| BlocksEnqueue.BuildRegistrationMap | inc/core/blocks-acf-enqueue.php:598-647 | the loop computes the registration map |
| ModulesBootstrap.BaseDirs | inc/core/modules_bootstrap.php:139-160 | each directory is normalised |
| ModulesBootstrap.ReadableDirs | inc/core/modules_bootstrap.php:139-160 | the kept directories are the non-empty readable ones |
| ModulesBootstrap.NormalizeBaseDirectories | inc/core/modules_bootstrap.php:139-160 | the loop computes the normalised directory list |
| ModulesBootstrap.NormalizeBaseDirsMembers | inc/core/modules_bootstrap.php:139-160 | the list is duplicate-free and holds exactly the non-empty readable normalised directories |
| ModulesBootstrap.Assignments | inc/core/modules_bootstrap.php:94-126 | every assignment is keyed by its file's basename, and its file is kept and globbed |
| ModulesBootstrap.BuildFileMap | inc/core/modules_bootstrap.php:94-126 | the nested loops compute the file map |
| ModulesBootstrap.FileMapEntries | inc/core/modules_bootstrap.php:94-126 | every file-map entry is keyed by basename, not skipped and globbed |
| ModulesBootstrap.GlobbedFilesOrder | inc/core/modules_bootstrap.php:84-131 | nothing for an empty pattern or no directory; else basename order, no skipped or debug-only file without WP_DEBUG |
| ModulesBootstrap.GlobbedFilesLast | inc/core/modules_bootstrap.php:84-131 | a file is included exactly when it is the last one assigned to its basename |
| ModulesBootstrap.LaterDirectoryWins | inc/core/modules_bootstrap.php:118-119 | a file of the last directory replaces every file with its basename from earlier ones |
| ModulesBootstrap.LastAssignmentWins | inc/core/modules_bootstrap.php:118-130 | a value survives assignment and ksort exactly when it was the last assigned to its key |
| ModulesBootstrap.ConventionGlobsDebug | inc/core/modules_bootstrap.php:167-178 | only the helper glob is debug-sensitive, and the globs are distinct |
| ModulesBootstrap.RequireAllLoads | inc/core/modules_bootstrap.php:64-74 | loading keeps what was loaded, loads every file, and loads none twice |
| ModulesBootstrap.ModuleFilesRule | inc/core/modules_bootstrap.php:38-56 | support files only for a folder module with a directory; the entry file only when readable |
| ModulesBootstrap.NewlyBooted | inc/core/modules_bootstrap.php:17-30 | the keys booted are exactly the enabled keys not yet booted, without repeats |
| ModulesBootstrap.BootAgainLoadsNothing | inc/core/modules_bootstrap.php:17-30 | once every enabled module is booted, booting loads nothing |
| ModulesBootstrap.Loader.IncludeGlobbedFiles | inc/core/modules_bootstrap.php:84-131 | the loaded list grows by the globbed files |
| ModulesBootstrap.Loader.IncludeSupportFiles | inc/core/modules_bootstrap.php:64-74 | the loaded list grows by the support files |
| ModulesBootstrap.Loader.BootSingleModule | inc/core/modules_bootstrap.php:38-56 | the loaded list grows by the module's files |
| ModulesBootstrap.Loader.BootThemeModules | inc/core/modules_bootstrap.php:17-30 | every enabled key is marked booted, and the files of modules not yet booted are loaded |
| ModulesBootstrap.BootTwice | inc/core/modules_bootstrap.php:17-30 | booting the same catalog twice loads its files once |
| ThemeAutoload.ByBasenameEntries | inc/core/helpers.php:17-33 | each globbed file is assigned under its basename, in glob order |
| ThemeAutoload.CollectThemeFiles | inc/core/helpers.php:17-33 | the loops compute the file map, child files after the parent's |
| ThemeAutoload.SortedThemeFilesOrder | inc/core/helpers.php:35 | after ksort files are keyed by basename, in basename order, each basename once |
| ThemeAutoload.SortedThemeFilesLast | inc/core/helpers.php:17-35 | a file is included exactly when it is the last with its basename |
| ThemeAutoload.ChildReplacesParent | inc/core/helpers.php:25-33 | a child file replaces the parent file with its basename |
| ThemeAutoload.ChildGuardSavesRescan | inc/core/helpers.php:25-33 | without a child theme, rescanning the same directory would change nothing |
| ThemeAutoload.HelperIncludesRule | inc/core/helpers.php:36-47 | each helper at most once, in basename order; debug-only helpers only with WP_DEBUG |
| ThemeAutoload.LoadHelpers | inc/core/helpers.php:17-47 | the script loads the helper files of HelperIncludes |
| ThemeAutoload.IncludeHelpers | inc/core/helpers.php:41-47 | the include loop loads the non-skipped helpers in order |
| ThemeAutoload.LoadShortcodes | inc/core/shortcodes.php:16-36 | the script loads the merged shortcode files in basename order |
| NumberWithUnit.UnitsOfMembers | modules/module.acf-number-with-unit.php:280-292 | units are non-empty, made of unit characters, without repeats, one per distinct cleaned item |
| NumberWithUnit.ParseUnitsMembers | modules/module.acf-number-with-unit.php:280-292 | parse_units gives non-empty unit-character strings without repeats |
| NumberWithUnit.ReparseUnits | modules/module.acf-number-with-unit.php:123-124 | parsing the stored comma-joined unit list gives the same list |
| NumberWithUnit.ParseJoinedUnits | modules/module.acf-number-with-unit.php:123-124 | joining distinct units and parsing gives them back |
| NumberWithUnit.ReturnFormat | modules/module.acf-number-with-unit.php:126 | the format is 'array' exactly for an 'array' setting, else 'string' |
| NumberWithUnit.UpdateField | modules/module.acf-number-with-unit.php:121-137 | units, default unit and format are all set, the format normalised |
| NumberWithUnit.UpdateFieldIdempotent | modules/module.acf-number-with-unit.php:121-137 | saving keeps units and format, and saving again changes nothing |
| NumberWithUnit.Validate | modules/module.acf-number-with-unit.php:139-176 | incoming invalidity is kept; a non-array is invalid; otherwise valid exactly when parts present, numeric and unit allowed |
| NumberWithUnit.ValidateOrder | modules/module.acf-number-with-unit.php:155-165 | the required check comes first, then numeric, then unit |
| NumberWithUnit.UpdateValue | modules/module.acf-number-with-unit.php:178-214 | null for a non-array or empty value; an allowed unit is kept, otherwise the default unit is stored |
| NumberWithUnit.ValidatedValueSaved | modules/module.acf-number-with-unit.php:178-214 | a value that passed validation is saved with its own unit and canonical number |
| NumberWithUnit.EmptyUnitListUsesDefault | modules/module.acf-number-with-unit.php:163-200 | with an empty unit list any unit validates but the default unit is saved |
| NumberWithUnit.FormatValue | modules/module.acf-number-with-unit.php:216-250 | null when both parts are empty; otherwise number + unit, or value/unit/combined for the array format |
| NumberWithUnit.SavedValueFormats | modules/module.acf-number-with-unit.php:178-250 | a saved value formats to its number followed by its unit |
| NumberWithUnit.NormalizeValue | modules/module.acf-number-with-unit.php:252-272 | array parts fall back per part to the defaults; an unmatched string gives the defaults |
| NumberWithUnit.MatchCombined | modules/module.acf-number-with-unit.php:261-266 | a number token followed by a unit word splits back into the two |
| NumberWithUnit.FormatNormalizeRoundTrip | modules/module.acf-number-with-unit.php:216-272 | a formatted combined string normalises back into its number and unit |
| GtmScript.NormalizeRule | modules/gtm/inc/inc.gtm-script.php:13-31 | the ID is upper-cased and stripped of whitespace; it must be 'GTM-' then one or more of [A-Z0-9], else '' |
| GtmScript.NormalizeIdempotent | modules/gtm/inc/inc.gtm-script.php:13-31 | normalising a normalised ID changes nothing |
| GtmScript.ContainerIdFixed | modules/gtm/inc/inc.gtm-script.php:13-31 | a well-formed container ID is left unchanged |
| GtmScript.BlankGivesEmpty | modules/gtm/inc/inc.gtm-script.php:15-20 | blank input gives '' |
| GtmScript.BareIdGetsPrefix | modules/gtm/inc/inc.gtm-script.php:22-24 | an all-[A-Z0-9] ID without prefix gets 'GTM-' |
| GtmScript.NormalizeExample | modules/gtm/inc/inc.gtm-script.php:15-24 | ' abc 123 ' becomes 'GTM-ABC123' |
| GtmScript.HeadMarkup | modules/gtm/inc/inc.gtm-script.php:39-53 | the head markup is '' exactly for an invalid ID, and otherwise embeds the normalised ID |
| GtmScript.BodyMarkup | modules/gtm/inc/inc.gtm-script.php:61-79 | the body markup is '' exactly for an invalid ID, and otherwise embeds the normalised ID |
| GtmScript.MarkupAgree | modules/gtm/inc/inc.gtm-script.php:39-79 | head and body markup are both empty or both present, and unchanged by pre-normalising |
| GtmSettings.GtmTabPlacement | modules/gtm/inc/inc.settings.php:47-63 | the GTM tab lands right after the first 'blocks' tab, or last; removing it gives back the tabs |
| GtmSettings.InsertGtmTab | modules/gtm/inc/inc.settings.php:47-63 | the loop computes that placement |
| GtmSettings.TabsWithGtmFresh | modules/gtm/inc/inc.settings.php:47-63 | over tabs without a 'gtm' key, the loop puts the GTM tab right after the first 'blocks' tab, or last when there is none |
| GtmSettings.LoopDone | modules/gtm/inc/inc.settings.php:47-63 | after the loop, the tab is in place or appended |
| GtmSettings.RegisterTab | modules/gtm/inc/inc.settings.php:37-64 | a non-array, or tabs where isset('gtm') holds, come back unchanged; otherwise (no 'gtm' or a null one) the tabs are rebuilt with the GTM tab placed as above |
| GtmSettings.NullGtmTabFilled | modules/gtm/inc/inc.settings.php:41-63 | a null 'gtm' entry before 'blocks' is filled in with the GTM label |
| GtmSettings.NullGtmTabAfterBlocks | modules/gtm/inc/inc.settings.php:41-63 | a null 'gtm' entry after 'blocks' overwrites the GTM label the loop inserted after 'blocks', so the tabs come back unchanged |
| GtmSettings.EnabledRule | modules/gtm/inc/inc.settings.php:78-92 | 'enabled' is true only for true, a positive number or numeric string, or 1/true/yes/on, and only with a valid ID |
| GtmSettings.SanitizeIdempotent | modules/gtm/inc/inc.settings.php:72-98 | sanitising stored settings gives them back |
| GtmSettings.SanitizeStored | modules/gtm/inc/inc.settings.php:72-98 | a stored array is re-normalised and keeps its flag only with an ID |
| GtmSettings.SanitizeNonArray | modules/gtm/inc/inc.settings.php:72-98 | a non-array sanitises like the empty array |
| GtmSettings.ReadSettings | modules/gtm/inc/inc.settings.php:126-147 | cached settings first; else the stored option sanitised; else the legacy values, written only when they have an ID |
| GtmSettings.MigrationWritesIffId | modules/gtm/inc/inc.settings.php:140-143 | the migration writes exactly when the legacy fields give a valid ID |
| GtmSettings.NoAcfNoMigration | modules/gtm/inc/inc.settings.php:105-117 | without ACF the migration gives disabled settings and writes nothing |
| GtmSettings.MigratedOptionReadsBack | modules/gtm/inc/inc.settings.php:126-147 | after migration, a later request reads the same settings |
| GtmSettings.AfterPost | modules/gtm/inc/inc.settings.php:155-178 | the option changes only on the 'gtm' tab for a permitted user |
| GtmSettings.SettingsStore.GetSettings | modules/gtm/inc/inc.settings.php:126-147 | the store returns and records ReadSettings |
| GtmSettings.SettingsStore.HandlePost | modules/gtm/inc/inc.settings.php:155-178 | the store's option and notice follow AfterPost |
| ThemeUpdates.VersionOf | inc/core/theme-updates.php:106-116 | the version is made of [0-9A-Za-z._-] |
| ThemeUpdates.VersionOfTag | inc/core/theme-updates.php:106-116 | prefix + version characters gives those characters back |
| ThemeUpdates.AssetEntry | inc/core/theme-updates.php:118-144 | a usable asset has a non-empty name and URL |
| ThemeUpdates.PackageRule | inc/core/theme-updates.php:118-144 | the exactly named asset wins anywhere; else the first 'lonestar-*.zip'; no match gives '' |
| ThemeUpdates.SelectPackage | inc/core/theme-updates.php:118-144 | the asset loop computes the package URL |
| ThemeUpdates.ReleasePayload | inc/core/theme-updates.php:102-156 | an empty prefix gives none; a payload exists exactly for a non-draft, non-prerelease release whose tag starts with the non-empty prefix and leaves a non-empty version, with a package |
| ThemeUpdates.LatestReleasePayload | inc/core/theme-updates.php:102-156 | the method computes that payload |
| ThemeUpdates.PayloadRule | inc/core/theme-updates.php:102-116 | drafts and prereleases give none; any payload has a clean non-empty version and a package, and its tag is strictly longer than the non-empty prefix it starts with |
| ThemeUpdates.InjectDecision | inc/core/theme-updates.php:164-204 | untouched without checked/slug/payload; dropped when not newer; otherwise offered with new_version and package |
| ThemeUpdates.Apply | inc/core/theme-updates.php:186-201 | the decision removes or sets only the theme's entry |
| ThemeUpdates.ApplyIdempotent | inc/core/theme-updates.php:164-204 | running the filter again changes nothing more |
| ThemeUpdates.MaybeInject | inc/core/theme-updates.php:164-204 | the transient's response becomes Apply of the decision; checked is unchanged |
| ThemeUpdates.ProvideInfo | inc/core/theme-updates.php:214-252 | information only for the theme's own request with a payload, and then with its version and package |
| ViteEntryPoints.StripOfExtension | vite-entry-points.mjs:14-18 | the last extension is stripped |
| ViteEntryPoints.EntryKeyShape | vite-entry-points.mjs:13-22 | an entry key holds only [a-z0-9_-], has no leading or trailing '-' and no '--' |
| ViteEntryPoints.PlainPathKey | vite-entry-points.mjs:13-22 | in a plain path separators become '-' and nothing else changes |
| ViteEntryPoints.EntryKeyExample | vite-entry-points.mjs:13-22 | 'blocks/acf/example-acf' gives 'blocks-acf-example-acf' |
| ViteEntryPoints.BlockUsesFileAssets | vite-entry-points.mjs:30-60 | the loop decides whether some asset field holds a 'file:' string |
| ViteEntryPoints.FirstExisting | vite-entry-points.mjs:85-100 | the first existing candidate is chosen |
| ViteEntryPoints.AddIfFree | vite-entry-points.mjs:88-100 | an entry is added only for a found file under an unused key |
| ViteEntryPoints.AddBlockRule | vite-entry-points.mjs:78-100 | 'file:' blocks add nothing; otherwise slug.css/style.css under base-css, slug.js/index.js under base-js, when free |
| ViteEntryPoints.AddBlocksKeeps | vite-entry-points.mjs:73-104 | entries are only appended |
| ViteEntryPoints.AddBlocksDistinct | vite-entry-points.mjs:73-104 | no key is entered twice |
| ViteEntryPoints.FirstClaimWins | vite-entry-points.mjs:88-100 | a key once entered keeps its file |
| ViteEntryPoints.EntryPointsRule | vite-entry-points.mjs:68-105 | 'main' is always the first entry, pointing at main.js, and keys are distinct |
| ViteEntryPoints.VisitBlock | vite-entry-points.mjs:78-101 | the callback adds the block's entries and keeps the used set equal to the keys |
| ViteEntryPoints.VisitRoot | vite-entry-points.mjs:73-104 | the callback fails exactly when the root exists but is not a directory, and otherwise adds the root's blocks |
| ViteEntryPoints.VisitRoots | vite-entry-points.mjs:73-104 | the loop fails exactly when some root exists but is not a directory, and otherwise adds every root's blocks in order |
| ViteEntryPoints.GetBlockEntryPoints | vite-entry-points.mjs:68-105 | the build fails (readdirSync throws) exactly when 'modules' or a block root exists but is not a directory; otherwise the nested loops compute the entry points |
| ViteBlockDiscovery.WalkListed | vite-block-discovery.mjs:51-68 | a path is listed exactly when it lies below the start and holds block metadata, through descendable directories |
| ViteBlockDiscovery.WalkBelow | vite-block-discovery.mjs:51-68 | every listed path lies below the start |
| ViteBlockDiscovery.WalkPreorder | vite-block-discovery.mjs:51-68 | a directory is listed before its descendants |
| ViteBlockDiscovery.BlockDirectoryFinder.WalkFrom | vite-block-discovery.mjs:51-68 | the recursive walk appends exactly Walk's list |
| ViteBlockDiscovery.BlockDirectories | vite-block-discovery.mjs:44-73 | a missing root gives [] |
| ViteBlockDiscovery.FindBlockDirectories | vite-block-discovery.mjs:44-73 | the call fails (readdirSync throws) exactly when the root exists but is not a directory; otherwise it computes BlockDirectories |
| ViteBlockDiscovery.GetBlockRoots | vite-block-discovery.mjs:13-36 | the call fails (readdirSync throws) exactly when 'modules' exists but is not a directory; otherwise it computes BlockRoots |
| ViteBlockDiscovery.PushModuleRoots | vite-block-discovery.mjs:22-33 | one module directory pushes its existing acf then native roots |
| ViteBlockDiscovery.BlockRootsRule | vite-block-discovery.mjs:13-36 | roots start with blocks/acf and blocks/native, are distinct, and the rest are existing module block roots |
| BlocksAcf.AddThemeCategory | inc/core/blocks-acf.php:130-147 | a list with the category is unchanged; otherwise one entry is appended after the unchanged list |
| BlocksAcf.AddThemeCategoryOnce | inc/core/blocks-acf.php:130-147 | afterwards there is a theme category, and exactly one at the end when there was none |
| BlocksAcf.AddThemeCategoryIdempotent | inc/core/blocks-acf.php:130-147 | applying the filter twice is applying it once |
| BlocksAcf.AcceptedCache | inc/core/blocks-acf.php:31-40 | a cache is accepted only with the same namespace and an array of blocks |
| BlocksAcf.BlocksToLoad | inc/core/blocks-acf.php:24-121 | an accepted cache is used as is; otherwise the found paths, de-duplicated, are used and stored |
| BlocksAcf.CacheRoundTrip | inc/core/blocks-acf.php:24-121 | what one run stores the next run in the same namespace accepts; another namespace rejects it |
| ThemeFilters.TaxonomyOf | inc/inc.filters.php:36-41 | the taxonomy is the text before the last '_', none without '_' |
| ThemeFilters.MatchTaxonomy | inc/inc.filters.php:21-47 | a truthy result passes through; otherwise the result is true or unchanged |
| ThemeFilters.MatchTaxonomyRule | inc/inc.filters.php:29-44 | with a falsy result, it matches exactly when the rule value is non-empty and precedes the last '_' of the post_id |
| ThemeFilters.MatchTaxonomyExample | inc/inc.filters.php:41-44 | 'product_cat_12' matches 'product_cat' |
| ThemeFilters.AllowAvif | inc/inc.filters.php:64-68 | 'avif' maps to 'image/avif' and every other entry is unchanged |
| ThemeFilters.AllowAvifIdempotent | inc/inc.filters.php:64-68 | running the filter again changes nothing |
| DisableEmoji.ArrayDiff | modules/module.disable-emoji.php:43 | the values kept are exactly those whose string form differs |
| DisableEmoji.TinymcePlugins | modules/module.disable-emoji.php:37-44 | a non-array gives []; otherwise exactly the plugins other than 'wpemoji' |
| DisableEmoji.TinymcePluginsRule | modules/module.disable-emoji.php:37-44 | order is kept, and filtering twice changes nothing |
| DisableEmoji.DnsPrefetchHints | modules/module.disable-emoji.php:53-61 | unchanged for another relation or a non-array; otherwise exactly the URLs other than the emoji URL |
| DisableEmoji.DnsPrefetchRule | modules/module.disable-emoji.php:53-61 | order is kept, and filtering twice changes nothing |

## Left out

- WordPress runtime: hooks, options and transients are explicit inputs, outputs or class fields. `apply_filters` is a function parameter or the identity. HTML rendering, admin notices, redirects, nonces and capability checks are not modelled; a capability is a boolean input.
- Filesystem and network: `glob`, directory iteration, `file_exists` and `file_get_contents` are inputs (sets of readable paths, listings, an abstract directory tree). The GitHub request and the Vite dev-server probe are not modelled; the model starts from the decoded response.
- `md5`, `esc_url`/`esc_url_raw`, `version_compare`, `is_numeric` and numeric canonicalisation are uninterpreted parameters. Floating point is not modelled.
- `SORT_NATURAL` and `strnatcasecmp` are modelled as plain lexicographic order, which is a strict total order. The keys compared are sanitised lower-case keys, so only runs of digits compare differently.
- `sanitize_key` is lower-casing plus the [a-z0-9_-] filter. `sanitize_text_field` only collapses whitespace and trims: tag stripping and percent-octet removal are left out. `wp_normalize_path` leaves out the upper-casing of Windows drive letters.
- Per-request `static` caches (catalog, manifests, block catalog) are not modelled, except the boot-once map and the GTM settings cache.
- The block catalog builder (inc/core/blocks-state.php:333-398) reads files and JSON, so the block catalog is an input.
- The block directory walk of `lonestar_register_acf_block_types` is an input (the found paths). ACF block registration itself is not modelled.
- The regex scan for ACF options pages (inc/core/modules_catalog.php:841-889) is not modelled; the page slugs it finds are an input to ModulesCatalog.AddAdminPageLinks.
- Reading `module.json` and the file contents is not modelled; the decoded string fields and file contents are inputs. Strings.Lines yields empty pieces for runs of line breaks where the source's split yields none; every caller skips blank lines, so the results agree.
- GtmSettings.RegisterTab: a tab array with integer keys (a JSON list) is returned unchanged rather than walked.
- ViteEntryPoints: directory entries come in the tree's order. `path.relative` is modelled as the path below the theme root. JavaScript's `in` on inherited properties is not modelled.
- ModulesCatalog.SplitBuild: the round trip holds only for a source without '__' and without a trailing '_'. SplitBuildTrailingUnderscore gives the counterexample, and ThemeSourcesSplit shows that the theme's two sources meet the condition.
- BlocksEnqueue.CollectedHandlesMembers: the fallback handle is not checked for a 'file:' prefix, because the source does not check it either.
- ThemeFilters.MatchTaxonomy: a `$rule` or `$screen` that is not an array is read as an empty one.
- DisableEmoji.DnsPrefetchHints: the filtered `emoji_svg_url` is a parameter.
