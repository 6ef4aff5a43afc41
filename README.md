# Alpha Pagination index builder, in Dafny

This project models the core of the Drupal views module *alpha_pagination*:
the class `AlphaPagination`, which builds the A–Z (plus numbers, divider and
"All") pagination index for a view, and `AlphaPaginationCharacter`, one entry
of that index. It proves properties of the model.

Each module mirrors one part of the PHP code and keeps its branches, defaults and edge cases. PHP arrays become lists of pairs, calls into Drupal become inputs or function parameters, and the cache entry is an input:

- **`PhpStrings`** (`php_strings.dfy`) holds the PHP built-ins the code relies on, with PHP's semantics:
  - string truthiness (`""` and `"0"` are false);
  - `strpos`;
  - `explode`/`implode` on a one-character delimiter;
  - `str_replace`;
  - `check_plain`;
  - `array_filter` on strings;
  - `array_unique`.
- **`OrderedMaps`** (`ordered_maps.dfy`) models PHP arrays with string keys as insertion-ordered lists of pairs:
  - `$m[$k] = $v` is `Put`;
  - `array_merge` is `Merge`;
  - `+` is `Union`.
- **`PagerConfig`** (`pager_config.dfy`) covers the handler's options (`getOption`), the per-language alphabet and number tables (`getAlphabet`, `getNumbers`) and `isNumeric`. The handler does not change while a listing is rendered, so it is the value `Pager`.
- **`CharacterObjects`** (`character.dfy`) is `AlphaPaginationCharacter` as a class:
  - `labelText` and `value` are fixed;
  - `active` and `enabled` change in place through `SetActive` and `SetEnabled`;
  - `IsAll`, `IsEnabled` and `IsLink` are functions of the object;
  - `Build` and `BuildLink` produce the link or the inactive span.
- **`CharacterIndex`** (`index_spec.dfy`) specifies `getCharacters` as functions over the states of the characters. The lemmas say which values the index holds and in what order, which entries are enabled and kept, and which entry is active.
- **`CharacterBuilder`** (`character_builder.dfy`) is `getCharacters` as the code runs it. It builds the value => label array in loops and merges, makes one `Character` object per entry, enables the objects in place, filters them and activates the first match in a loop that breaks. It is proved equal to the `CharacterIndex` specification. The module also holds `getLabel` and `getValue`.
- **`QueryRewrite`** (`query_rewrite.dfy`) is the text rewrite `getEntityIds` applies to the view's query:
  - it inserts `" 1 OR "` before `SUBSTRING`;
  - it drops a trailing `LIMIT` line;
  - it applies four entity decodings.
- **`EntityPrefixes`** (`entity_prefixes.dfy`) covers two parts of `getEntityPrefixes`: the choice of column and table that `paginate_view_field` names, and the post-processing of the rows the query returns.
- **`ViewUrl`** (`view_url.dfy`) is `getUrl`: the override URL, placeholder substitution in the view path, and the fallback to the current path without a trailing character.

Outside calls appear as inputs:

- the entity prefixes;
- the view's arguments;
- the cache entry;
- the current path;
- the query's rows;
- `drupal_strtoupper` and `views_clean_css_identifier` (as function parameters);
- the result of `parseAttributes` and of `token_replace`.

Where the code does something other than what its comments describe, the model follows the code. Lemmas state the consequences:

- The "hide empty numbers" step can never remove anything (`CharacterIndex.HideEmptyNumericIsIdentity`).
  - It intersects the characters with the *labels* of the numeric entries.
  - `array_filter` keeps every character object.
  - When nothing is found, it removes the same absent keys.
- In mode `'2'` (a single numeric entry), the empty-prefix filter compares against the raw prefixes, not the sentinel they were mapped to.
  - The sentinel entry is therefore dropped unless a prefix is literally equal to it (`CharacterIndex.SentinelDropped`).
  - After that, `getLabel` and `getValue` on a numeric value read a missing array entry, which is fatal in PHP. The model calls this outcome `MissingSentinel` (`CharacterBuilder.NumericLookupFails`).
- `getValue` returns the entry's *label* when the value is present (`CharacterBuilder.GetValueIsLabel`).
- The entity decoding in `getEntityIds` is not the inverse of `check_plain`:
  - `&quot;` stays encoded (`QueryRewrite.QuoteStaysEncoded`);
  - `&amp;lt;` is decoded twice (`QueryRewrite.AmpersandDecodedTwice`).
- A prefix `"0"` is discarded by `array_filter` (`EntityPrefixes.ZeroNeverAPrefix`).

## Model

| member | source | states |
|---|---|---|
| PagerConfig.Pager.GetAlphabet | src/AlphaPagination.php:205-206 | the table's alphabet for the language when it has one, English A–Z otherwise |
| PagerConfig.Pager.GetNumbers | src/AlphaPagination.php:571-572 | the table's numbers for the language when it has them, 0–9 otherwise |
| PagerConfig.Pager.GetOption | src/AlphaPagination.php:586-588 | definition: the configured option when set, else the given default; every option read of the model goes through it |
| PagerConfig.Pager.NumericType | src/AlphaPagination.php:245 | definition: 'paginate_view_numbers' read with default '0'; `CharacterIndex.NumericKeys` and `CharacterIndex.LayoutAsExpected` state the layout for each mode |
| PagerConfig.Pager.NumericValue | src/AlphaPagination.php:246 | definition: 'paginate_numeric_value' read with default ''; `CharacterIndex.BuiltSentinelOnly` states that it is the only numeric entry in mode '2' |
| PagerConfig.Pager.NumericLabel | src/AlphaPagination.php:244 | definition: 'paginate_numeric_label' read with default ''; `CharacterBuilder.GetLabel` states that the sentinel's label is found under it |
| PagerConfig.Pager.AllValue | src/AlphaPagination.php:243 | definition: 'paginate_all_value' read with default 'all'; `CharacterIndex.LayoutAsExpected` places the "All" entry under it |
| PagerConfig.Pager.AllShown | src/AlphaPagination.php:286 | definition: `if ($all)`, the truthiness of `AllLabel`; `CharacterIndex.LayoutAsExpected` and `CharacterIndex.FilterEmpty` state what it adds and keeps |
| PagerConfig.Pager.IsNumeric | src/AlphaPagination.php:721-723 | definition: the sentinel in mode '2', or one of the language's numbers; `BuiltinNumeric` pins it for the built-in tables |
| PagerConfig.Pager.AllLabel | src/AlphaPagination.php:242 | definition: the "All" label when 'paginate_all_display' is '1', else the empty string, so `AllShown` is `if ($all)` |
| PagerConfig.Pager.HasDivider | src/AlphaPagination.php:247 | definition: the divider is on only outside mode '2' and when its option is truthy; `LayoutAsExpected` shows it absent in mode '2' |
| PagerConfig.DefaultAlphabet | src/AlphaPagination.php:171 | definition: the static A–Z default; `EnglishWellFormed` and `AscendingNoDups` state that it is 26 distinct ascending letters |
| PagerConfig.DefaultNumbers | src/AlphaPagination.php:543 | definition: the static 0–9 default; `EnglishWellFormed` and `BuiltinNumeric` state what it holds |
| PagerConfig.BuiltinAlphabets | src/AlphaPagination.php:188-195 | definition: the Arabic, English and Russian tables built before the alter hook; `BuiltinTablesWellFormed` states every entry is well formed |
| PagerConfig.BuiltinNumbers | src/AlphaPagination.php:561 | definition: the English number table built before the alter hook; `BuiltinTablesWellFormed` and `BuiltinNumeric` pin it |
| PagerConfig.EnglishWellFormed | src/AlphaPagination.php:171 | the default alphabet and number list are non-empty lists of distinct one-character strings |
| PagerConfig.ArabicWellFormed | src/AlphaPagination.php:189 | the built-in Arabic alphabet is a non-empty list of distinct one-character strings |
| PagerConfig.RussianWellFormed | src/AlphaPagination.php:195 | the built-in Russian alphabet is a non-empty list of distinct one-character strings |
| PagerConfig.BuiltinTablesWellFormed | src/AlphaPagination.php:180-206 | with the built-in tables every language gets a list of distinct characters; a language other than ar/en/ru gets English, and every language gets 0–9 |
| PagerConfig.AscendingNoDups | src/AlphaPagination.php:189-195 | strictly ascending characters under any ranking are distinct (the witness used for the tables) |
| PagerConfig.BuiltinNumeric | src/AlphaPagination.php:721-723 | with the built-in numbers, isNumeric holds exactly for the mode-'2' sentinel and for single digits |
| ClassAttributes.Pieces | src/AlphaPagination.php:55 | the pieces of a class string split on spaces are non-empty, not "0", and hold no space |
| ClassAttributes.Processed | src/AlphaPagination.php:53-58 | definition: `$processed`, the cleaned pieces of each class string, string after string; `ProcessedFromPieces` states what it holds and `AddClasses` that the loops build it |
| ClassAttributes.Cleaned | src/AlphaPagination.php:55-57 | every piece passed through the identifier cleaner, in order |
| ClassAttributes.AddClasses | src/AlphaPagination.php:50-69 | the loops collect exactly `Processed(classes)`; the attributes become the merge of old and new classes, and the classes are returned unchanged |
| ClassAttributes.WithClasses | src/AlphaPagination.php:60-66 | definition: attributes untouched when nothing was processed, else the class list becomes array_unique of the old classes followed by the new; `MergedClasses` states its members and order, `AddClasses` that the loops end in it |
| ClassAttributes.ProcessedFromPieces | src/AlphaPagination.php:53-58 | every collected class is the cleaned form of a non-empty space-free piece of one of the inputs |
| ClassAttributes.MergedClasses | src/AlphaPagination.php:60-66 | with nothing collected the attributes are untouched (no 'class' key appears); otherwise the class list has no repeats, holds exactly the old and new classes, starts with the old ones when those had no repeats, and other attributes are kept |
| CharacterObjects.Character.constructor | src/AlphaPaginationCharacter.php:53-57 | a new character stores the given label and value and is neither active nor enabled |
| CharacterObjects.Character.State | src/AlphaPaginationCharacter.php:143-180 | the snapshot carries the character's label, value and both flags |
| CharacterObjects.Character.IsActive | src/AlphaPaginationCharacter.php:178-180 | definition: the active flag, which `State` carries |
| CharacterObjects.Character.IsNumeric | src/AlphaPaginationCharacter.php:214-216 | definition: the pager's isNumeric of the value; `CharacterBuilder.MatchesObjectIsMatches` uses it |
| CharacterObjects.Character.IsAll | src/AlphaPaginationCharacter.php:187-189 | true exactly when the value is the 'paginate_all_value' option, 'all' by default |
| CharacterObjects.Character.IsEnabled | src/AlphaPaginationCharacter.php:196-198 | an active or "All" character is enabled; any other one exactly when its flag is set |
| CharacterObjects.Character.IsLink | src/AlphaPaginationCharacter.php:205-207 | an active character is never a link, an inactive "All" always is, otherwise exactly when enabled |
| CharacterObjects.Character.SetEnabled | src/AlphaPaginationCharacter.php:226-229 | only the enabled flag changes, to the given value; the same object is returned |
| CharacterObjects.Character.SetActive | src/AlphaPaginationCharacter.php:239-242 | only the active flag changes, to the given value; the same object is returned |
| CharacterObjects.Character.BuildLink | src/AlphaPaginationCharacter.php:100-136 | a link with the label, the path and the query; external exactly when the option is set or the path starts with '#'; the configured classes merged in; parsed attributes added without their 'class' key |
| CharacterObjects.Character.Build | src/AlphaPaginationCharacter.php:68-89 | a link exactly when isLink holds, and then the same render array `BuildLink` promises: path, query, no html, the external rule, the merged link classes and the parsed attributes without `class`; otherwise exactly the inactive span of the label |
| OrderedMaps.Put | src/AlphaPagination.php:259 | assigning a key overwrites its entry in place or appends a new one; other entries are unchanged and keys stay distinct |
| OrderedMaps.SelfMap | src/AlphaPagination.php:258-260 | the loop `$m[$v] = $v` gives one entry per distinct value, in first-occurrence order, each mapped to itself |
| OrderedMaps.SelfMapDistinct | src/AlphaPagination.php:271-273 | for distinct values the loop gives each value paired with itself, in order |
| OrderedMaps.Merge | src/AlphaPagination.php:278-281 | array_merge as the entries of the right operand put into the left one in turn; `MergeKeys`, `MergeMembers` and `MergeDisjoint` state its keys and its concatenation case |
| OrderedMaps.MergeKeys | src/AlphaPagination.php:277-282 | array_merge's keys are the deduplicated concatenation of both key lists, and stay distinct |
| OrderedMaps.MergeMembers | src/AlphaPagination.php:277-282 | array_merge has exactly the keys of either side |
| OrderedMaps.MergeDisjoint | src/AlphaPagination.php:277-282 | with no key shared or repeated, array_merge is concatenation |
| OrderedMaps.Missing | src/AlphaPagination.php:288 | the entries of the right operand whose key the left lacks |
| OrderedMaps.MissingWellFormed | src/AlphaPagination.php:288 | dropping entries keeps the keys distinct |
| OrderedMaps.Union | src/AlphaPagination.php:288 | `$a + $b` starts with `$a`, has the keys of either side, is `$a` then `$b` when they share no key, and keeps keys distinct |
| OrderedMaps.UnionOverlap | src/AlphaPagination.php:288 | `["x" => 1] + ["a" => 3, "x" => 2, "b" => 4]` is `["x" => 1, "a" => 3, "b" => 4]`: the left entry wins, the others follow in order |
| CharacterIndex.AlphabetKeys | src/AlphaPagination.php:257-260 | the alphabet entries have distinct keys, exactly the letters |
| CharacterIndex.NumericEntries | src/AlphaPagination.php:263-274 | `$numeric`; its keys are stated by `NumericKeys` |
| CharacterIndex.NumericKeys | src/AlphaPagination.php:263-274 | `$numeric` has distinct keys: the sentinel in mode '2', the numbers in mode '1', nothing in mode '0' |
| CharacterIndex.WithNumericKeys | src/AlphaPagination.php:257-283 | after the merges the keys are distinct and exactly the letters, the numeric keys and the divider |
| CharacterIndex.WithNumeric | src/AlphaPagination.php:276-283 | the merges of lines 278 and 281; `WithNumericKeys` and `WithNumericAsExpected` state its keys and order |
| CharacterIndex.Layout | src/AlphaPagination.php:242-293 | the value => label array; `LayoutKeys`, `LayoutAsExpected` and `CharacterBuilder.BuildLayout` pin it |
| CharacterIndex.AlphabetEntries | src/AlphaPagination.php:258-260 | definition: `$characters[$value] = $value` over the alphabet; `AlphabetKeys` states its keys are the alphabet in order |
| CharacterIndex.DividerEntries | src/AlphaPagination.php:247 | definition: `['-' => '']` when the divider is on, else empty; `WithNumericAsExpected` places it between the alphabet and the numbers |
| CharacterIndex.LayoutKeys | src/AlphaPagination.php:242-293 | the value => label array has distinct keys, exactly the letters, numeric entries, divider and "All" value that are switched on |
| CharacterIndex.WithNumericAsExpected | src/AlphaPagination.php:262-283 | with no value repeated, the array is numbers, divider, letters, or (position 'after') letters, divider, numbers |
| CharacterIndex.LayoutAsExpected | src/AlphaPagination.php:242-293 | with no value repeated, the array is the spelled-out order, with "All" first for position 'before' and last otherwise, the divider absent in mode '2', the numbers absent in mode '0' |
| CharacterIndex.Instantiate | src/AlphaPagination.php:295-298 | one state per entry with its label and value, neither enabled nor active |
| CharacterIndex.Enabled | src/AlphaPagination.php:295-310 | definition: the layout's objects after the prefix loop; `EnabledStates` states which are enabled and `EnabledOrderFree` that the prefix order does not matter |
| CharacterIndex.EnableValue | src/AlphaPagination.php:307-309 | only the entry with the given value, if any, becomes enabled |
| CharacterIndex.MapPrefix | src/AlphaPagination.php:303-306 | a numeric prefix in mode '2' stands for the sentinel, any other for itself; `EnableExactly` and `SentinelDropped` use it |
| CharacterIndex.Enable | src/AlphaPagination.php:300-310 | the prefix loop, one prefix after the other; `EnableExactly` gives its closed form and `EnabledOrderFree` its independence from order |
| CharacterIndex.EnableExactly | src/AlphaPagination.php:300-310 | after the prefix loop an entry is enabled exactly when it was or some prefix maps to its value (the sentinel for a numeric prefix in mode '2'); nothing else changes |
| CharacterIndex.Select | src/AlphaPagination.php:322 | array_intersect_key / array_diff_key: the states whose value is (is not) among the keys, in their order |
| CharacterIndex.SelectNoDups | src/AlphaPagination.php:322 | selecting keeps the values distinct |
| CharacterIndex.KeptValues | src/AlphaPagination.php:313-322 | the keys of `array_flip($prefixes)` after "All" and '-' are appended; `FilterEmpty` and `SameMembersSameValues` state what it keeps |
| CharacterIndex.FilterEmpty | src/AlphaPagination.php:312-323 | with 'paginate_toggle_empty' set nothing is removed; otherwise exactly the states whose value is a raw prefix, the "All" value (if shown) or '-' (if the divider is on) remain, in order |
| CharacterIndex.HideEmptyNumericIsIdentity | src/AlphaPagination.php:325-332 | the hide-empty step never changes the index |
| CharacterIndex.HideEmptyNumeric | src/AlphaPagination.php:325-333 | the hide-empty step as written; `HideEmptyNumericIsIdentity` shows it changes nothing |
| CharacterIndex.NumericLabels | src/AlphaPagination.php:328-331 | definition: the keys of `array_flip($numeric)`, that is the labels of the numeric entries; `HideEmptyNumericIsIdentity` is stated with it |
| CharacterIndex.Built | src/AlphaPagination.php:256-335 | the index a miss builds and caches; `BuiltStates`, `BuiltSentinelOnly` and `BuiltOrderFree` state what it holds |
| CharacterIndex.EnabledStates | src/AlphaPagination.php:295-310 | after the enabling loop each entry has its label and value, is inactive, and is enabled exactly when some prefix maps to it |
| CharacterIndex.BuiltStates | src/AlphaPagination.php:257-335 | the cached index has distinct values, nothing active, and is an order-preserving selection of the enabled states |
| CharacterIndex.SentinelDropped | src/AlphaPagination.php:302-323 | in mode '2' a numeric prefix enables the sentinel, yet the filter drops it when no prefix equals it literally |
| CharacterIndex.FirstMatch | src/AlphaPagination.php:352-357 | the position of the first state that matches, none when nothing matches |
| CharacterIndex.Activate | src/AlphaPagination.php:350-358 | labels, values and enabled flags are kept; a state is active exactly when it was or it is the first match of a truthy current value |
| CharacterIndex.AtMostOneActive | src/AlphaPagination.php:350-358 | from an index with nothing active, at most one state becomes active |
| CharacterIndex.ActiveIsCurrent | src/AlphaPagination.php:338-358 | with distinct values, the active state is exactly the one whose value is the last argument when it names an entry, else the "All" value when shown |
| CharacterIndex.BuiltSentinelOnly | src/AlphaPagination.php:257-323 | when letters, "All" and divider are not numbers, the only numeric value a built index holds in mode '2' is the sentinel |
| CharacterIndex.CacheHit | src/AlphaPagination.php:253 | a hit is a present, non-empty entry; `CacheRoundTrip` and `CharacterBuilder.GetCharacters` use it |
| CharacterIndex.Base | src/AlphaPagination.php:253-256 | definition: the cached index on a hit, else `Built`; `CacheRoundTrip` and `CharacterBuilder.GetCharacters` state the two branches |
| CharacterIndex.Values | src/AlphaPagination.php:345 | `array_keys($characters)`: one value per entry, each the entry's own value, in order; `CharacterBuilder.ValuesOfSnapshot` ties it to the objects |
| CharacterIndex.Current | src/AlphaPagination.php:339-348 | `$current`; `ActiveIsCurrent` states which entry it activates |
| CharacterIndex.Matches | src/AlphaPagination.php:353 | the test of line 353 on a state; `FirstMatch` and `ActiveIsCurrent` use it |
| CharacterIndex.Characters | src/AlphaPagination.php:237-362 | the index getCharacters returns; `CharacterBuilder.GetCharacters` computes it and `CacheRoundTrip` relates its two branches |
| CharacterIndex.CacheRoundTrip | src/AlphaPagination.php:253-335 | on states, and true by the definition of `Base`: what a miss stores is `Built`, so a hit on it gives the same index as a miss |
| CharacterBuilder.CacheRoundTripObjects | src/AlphaPagination.php:253-362 | two getCharacters calls in a row on objects: the first misses and stores its index, the second is given what was stored, and both return objects with the same states, the index `Characters` specifies |
| CharacterIndex.SameMembersSameValues | src/AlphaPagination.php:302-322 | prefix lists with the same members enable and keep the same values |
| CharacterIndex.EnabledOrderFree | src/AlphaPagination.php:300-310 | the enabling loop does not depend on the order of the prefixes, nor on repeats |
| CharacterIndex.BuiltOrderFree | src/AlphaPagination.php:300-335 | the built index does not depend on the order of the database rows, nor on repeated prefixes |
| CharacterBuilder.Snapshot | src/AlphaPagination.php:296-298 | the states of the objects, in order |
| CharacterBuilder.ValuesOfSnapshot | src/AlphaPagination.php:345 | array_keys of the characters are the values of their states, in order |
| CharacterBuilder.ValuesOf | src/AlphaPagination.php:345 | definition: `array_keys($characters)` on the objects, their values in order; `ValuesOfSnapshot` equates it with `CharacterIndex.Values` of their states |
| CharacterBuilder.KeepByValue | src/AlphaPagination.php:322 | the objects selected by value, each one of the input; `KeepByValueSnapshot` relates it to `Select` |
| CharacterBuilder.KeepByValueSnapshot | src/AlphaPagination.php:322 | selecting objects by value selects their states the same way, and the objects stay distinct |
| CharacterBuilder.SelfMapLoop | src/AlphaPagination.php:258-260 | the loop builds exactly `SelfMap` of the values |
| CharacterBuilder.BuildLayout | src/AlphaPagination.php:242-293 | the loops and merges build exactly the specified value => label array |
| CharacterBuilder.NewCharacters | src/AlphaPagination.php:295-298 | one new object per entry, distinct, with the entry's label and value and both flags off |
| CharacterBuilder.RestoreCharacters | src/AlphaPagination.php:253-254 | a cache hit gives new distinct objects carrying the stored states |
| CharacterBuilder.EnableOne | src/AlphaPagination.php:307-309 | the object with the value, if any, is enabled in place; the other objects are unchanged |
| CharacterBuilder.EnablePrefixes | src/AlphaPagination.php:300-310 | the loop over the prefixes enables the objects exactly as the specification's enabling loop |
| CharacterBuilder.MatchesObject | src/AlphaPagination.php:353 | the test of line 353 on an object |
| CharacterBuilder.MatchesObjectIsMatches | src/AlphaPagination.php:353 | on an object of the pager, the test agrees with `Matches` on the object's state |
| CharacterBuilder.ActivateCurrent | src/AlphaPagination.php:338-358 | computing the current value and running the activation loop with its break gives exactly `Activate` |
| CharacterBuilder.GetCharacters | src/AlphaPagination.php:237-362 | new distinct objects whose states are exactly the specified index (cached or built, then activated); on a miss the built index is what is cached, on a hit nothing is |
| CharacterBuilder.BuildCharacters | src/AlphaPagination.php:256-334 | on a cache miss, new distinct objects whose states are exactly the built index |
| CharacterBuilder.GetLabel | src/AlphaPagination.php:508-521 | in mode '2' a numeric value gets the sentinel's label, or fails when the sentinel is missing; else a present value gets its label and any other value is returned unchanged |
| CharacterBuilder.SentinelBranch | src/AlphaPagination.php:512 | definition: the test shared by getLabel (line 512) and getValue (line 701), mode '2' and a numeric value; `GetLabel`, `GetValue` and `GetValueIsLabel` are stated by its two cases |
| CharacterBuilder.GetValue | src/AlphaPagination.php:697-703 | in mode '2' a numeric value gets the sentinel's value, or fails when the sentinel is missing |
| CharacterBuilder.GetValueIsLabel | src/AlphaPagination.php:704-709 | outside that branch getValue returns what getLabel does: the entry's label for a present value |
| CharacterBuilder.NumericLookupFails | src/AlphaPagination.php:508-514 | in mode '2' with the filter on and no prefix equal to the sentinel, every numeric lookup on a new index fails |
| QueryRewrite.PatchLine | src/AlphaPagination.php:403-408 | one line after the loop body; `PatchLineCases` and `PatchLineShape` state its cases |
| QueryRewrite.PatchLineCases | src/AlphaPagination.php:403-408 | a line with SUBSTRING first at a position > 0 gets " 1 OR " right before it; a line starting with SUBSTRING or without it is unchanged |
| QueryRewrite.PatchLineShape | src/AlphaPagination.php:404-406 | a patched line is the original with " 1 OR " inserted before SUBSTRING, which follows it, and gains no line break |
| QueryRewrite.PatchAll | src/AlphaPagination.php:403-408 | every line patched, none added or removed |
| QueryRewrite.DropLimit | src/AlphaPagination.php:413-416 | the last line goes exactly when it starts with "LIMIT"; the others stay, in order |
| QueryRewrite.UnescapeWithoutAmpersand | src/AlphaPagination.php:421-424 | text without '&' is not changed by the decoding |
| QueryRewrite.Unescape | src/AlphaPagination.php:421-424 | the four str_replace calls in order; `UnescapeWithoutAmpersand`, `UnescapeCheckPlain`, `QuoteStaysEncoded` and `AmpersandDecodedTwice` state what it does |
| QueryRewrite.Joined | src/AlphaPagination.php:403-420 | definition: the lines patched, the LIMIT line dropped, joined with newlines; `PatchAll`, `DropLimit` and `PhpStrings.ExplodeImplode` give `RewrittenLines` its statement |
| QueryRewrite.Rewritten | src/AlphaPagination.php:395-424 | definition: the joined lines, unescaped; `RewrittenLines` states it line by line and `UntouchedQuery` when it changes nothing |
| QueryRewrite.RewriteQuery | src/AlphaPagination.php:395-424 | the loop, the LIMIT check, the join and the four replacements compute `Rewritten` |
| QueryRewrite.RewrittenLines | src/AlphaPagination.php:403-420 | the joined query's lines are the patched original lines with at most the last one removed |
| QueryRewrite.UntouchedQuery | src/AlphaPagination.php:395-424 | a query with no '&', no SUBSTRING past a line start and no final LIMIT line comes out unchanged |
| QueryRewrite.UnescapeCheckPlain | src/AlphaPagination.php:421-424 | the decoding undoes check_plain on text without '&' and '"' |
| QueryRewrite.QuoteStaysEncoded | src/AlphaPagination.php:421-424 | a double quote escaped by check_plain stays encoded |
| QueryRewrite.AmpersandDecodedTwice | src/AlphaPagination.php:422-423 | an escaped "&lt;" is decoded twice, down to "<" |
| EntityPrefixes.SourceFor | src/AlphaPagination.php:453-487 | name/title read the base table (under the schema field when declared); a simple field reads `<field>_value` of `field_data_<field>`, a compound one `field_column` of `field_data_field`; fields match on entity_id |
| EntityPrefixes.FieldColumnInTable | src/AlphaPagination.php:474-486 | for a field the column starts with the table's field name and an underscore, and holds no colon |
| EntityPrefixes.Normalize | src/AlphaPagination.php:493 | definition: a numeric row kept, any other upper-cased; `NormalizeAll` and `ZeroNeverAPrefix` use it |
| PhpStrings.IsDigitString | src/AlphaPagination.php:493 | definition: a one-character string holding an ASCII digit, the `is_numeric` test on one-character prefixes; `EntityPrefixes.DigitRowKept` states that such a row, unless "0", becomes a prefix as it is |
| EntityPrefixes.NormalizeAll | src/AlphaPagination.php:492-494 | each row kept when numeric, upper-cased otherwise |
| EntityPrefixes.CollectPrefixes | src/AlphaPagination.php:449-497 | no prefixes without entity ids; otherwise array_unique of the truthy normalized rows: distinct, truthy, every truthy normalized row present, every prefix from a row |
| EntityPrefixes.DigitRowKept | src/AlphaPagination.php:493-496 | a digit row other than "0" is collected as it is, not upper-cased, and survives array_filter |
| EntityPrefixes.ZeroNeverAPrefix | src/AlphaPagination.php:496 | "0" is never a prefix |
| ViewUrl.Without | src/AlphaPagination.php:633-640 | what unset leaves: no more arguments than before, each one of the originals |
| ViewUrl.KeptPositions | src/AlphaPagination.php:633-640 | the positions that are not skipped: all of them, in increasing order, and nothing else |
| ViewUrl.WithoutKeepsUnskipped | src/AlphaPagination.php:633-640 | what unset leaves is exactly the arguments at the positions that are not skipped, in order |
| ViewUrl.UrlArgs | src/AlphaPagination.php:630-641 | the view's arguments after the skip loop; `WithoutKeepsUnskipped` says which |
| ViewUrl.Fallback | src/AlphaPagination.php:661-669 | the exception value of the filter `$id` points at when it and `$id` are truthy, else '*'; `PlaceholderValue` uses it |
| ViewUrl.IdAfter | src/AlphaPagination.php:676-678 | where `$id` stands after a number of placeholders: it moves by at most one per placeholder, and only while set |
| ViewUrl.Substitute | src/AlphaPagination.php:654-683 | one piece written per piece of the path |
| ViewUrl.SubstituteKeeps | src/AlphaPagination.php:655-657 | every piece other than '%' stays as it is, where it is |
| ViewUrl.SkippedPositions | src/AlphaPagination.php:632-640 | the loop collects exactly the positions of the filters marked 'default_argument_skip_url' |
| ViewUrl.SkippedBefore | src/AlphaPagination.php:632-640 | definition: the positions below n whose filter has 'default_argument_skip_url' set; `SkippedPositions` states the loop collects exactly these |
| ViewUrl.IdSet | src/AlphaPagination.php:664 | definition: `$id` still points at a filter and is truthy; `Fallback` and `IdAfter` are stated with it |
| ViewUrl.Placeholders | src/AlphaPagination.php:658 | definition: the number of '%' pieces; `PlaceholderValue` states that the k-th '%' takes argument number `Placeholders(pieces[..k])` |
| ViewUrl.SubstituteStep | src/AlphaPagination.php:654-683 | one step of the loop: a plain piece is kept; a '%' takes the next argument or the fallback, and `$id` advances when set |
| ViewUrl.SubstitutePieces | src/AlphaPagination.php:653-683 | the loop over the path's pieces computes exactly `Substitute` |
| ViewUrl.GetUrl | src/AlphaPagination.php:621-686 | the override when set; the trimmed current path when there is no path, or no argument and no '%'; else the substituted path |
| ViewUrl.Url | src/AlphaPagination.php:621-686 | getUrl on its first call; `GetUrl` computes it, `PathShapeKept` and `TrimCurrentShape` state its shape |
| ViewUrl.PlaceholderValue | src/AlphaPagination.php:659-678 | the n-th '%' takes the n-th URL argument when there is one, and otherwise the fallback of the filter `$id` reached after the n earlier placeholders |
| ViewUrl.PlaceholderFromView | src/AlphaPagination.php:630-678 | on the view's path, the n-th '%' takes the argument at the n-th position not skipped, else that fallback |
| ViewUrl.SubstituteSlashFree | src/AlphaPagination.php:654-683 | with no '/' in the arguments and exceptions, no written piece holds one |
| ViewUrl.PathShapeKept | src/AlphaPagination.php:654-685 | then the URL has as many segments as the path, and the path's own segments stay in place |
| ViewUrl.TrimCurrentShape | src/AlphaPagination.php:644-652 | the current path is kept, or loses exactly its last segment when that is a character value |
| ViewUrl.TrimCurrent | src/AlphaPagination.php:644-650 | the current path without a trailing character value; `TrimCurrentShape` states it |
| PhpStrings.StrPos | src/AlphaPagination.php:404 | strpos: the first occurrence, or none when there is none |
| PhpStrings.Explode | src/AlphaPagination.php:395 | explode: at least one piece, no piece holds the delimiter, more than one exactly when the delimiter occurs |
| PhpStrings.ImplodeExplode | src/AlphaPagination.php:420 | joining the pieces of a split gives the string back |
| PhpStrings.Implode | src/AlphaPagination.php:420 | join/implode with the separator between pieces; `ImplodeExplode` and `ExplodeImplode` state that it inverts explode |
| PhpStrings.ExplodeImplode | src/AlphaPagination.php:420 | splitting a join of delimiter-free pieces gives the pieces back |
| PhpStrings.StrReplaceCharIsImplodeExplode | src/AlphaPagination.php:482 | replacing a character is splitting on it and joining with the replacement |
| PhpStrings.StrReplace | src/AlphaPagination.php:421-424 | str_replace from left to right without overlaps; `StrReplaceAbsent`, `StrReplaceCharIsImplodeExplode` and `QueryRewrite.UnescapeCheckPlain` state what it does |
| PhpStrings.CheckPlain | src/AlphaPagination.php:268 | check_plain leaves no raw quote or angle bracket and never shortens the text |
| PhpStrings.Dedup | src/AlphaPagination.php:496 | array_unique: no repeats, and every element of the input and only those |
| PhpStrings.DedupMembers | src/AlphaPagination.php:496 | array_unique keeps exactly the members |
| PhpStrings.FilterTruthy | src/AlphaPagination.php:496 | array_filter: exactly the truthy strings of the input |
| PhpStrings.Truthy | src/AlphaPagination.php:322 | PHP string truthiness: false for "" and "0"; `FilterTruthy` and `EntityPrefixes.ZeroNeverAPrefix` state what it drops |

## Left out

- The database. The `db_query` calls of `getEntityIds` and `getEntityPrefixes` are not modelled. The query's rows are an input of `CollectPrefixes`, and the entity prefixes are an input of `GetCharacters`.
- `ensureQuery` (the argument quoting and query building) and `getCid` (the hash of the view's state) are not modelled.
- The persistent cache internals are not modelled. The cache entry is an input (`Option<seq<CharState>>`): a hit means present and non-empty, and a miss returns what is stored. The cached alphabet and number tables are the `Pager`'s tables.
- `static` memoisation is not modelled. `getCharacters`, `getUrl`, `getAlphabet` and `getNumbers` are modelled as their first call.
- `drupal_alter` hooks are not modelled. The alphabet and number tables are inputs. `BuiltinTablesWellFormed` speaks of the tables as built before the hooks run.
- `drupal_strtoupper`, `views_clean_css_identifier`, `token_replace` and `drupal_get_query_parameters` are foreign library calls. They appear as function parameters or as inputs.
- `parseAttributes` is not modelled. Its result is an input of `BuildLink`.
- PHP's conversion of integer-like string keys to integers, and the renumbering of integer keys by `array_merge`, are not modelled. Keys stay strings throughout. One visible consequence: in PHP a digit key such as '1' becomes the int 1, so the strict `===` comparisons of the activation loop (src/AlphaPagination.php:353) and of `isAll` (src/AlphaPaginationCharacter.php:187-189) never match the string argument "1". A digit page is therefore never marked active in PHP, but `CharacterIndex.Activate` marks it active.
- PHP's loose comparisons (`in_array` without strict mode, `!=` between strings) are not modelled. Comparisons are by string equality.
- EntityPrefixes.Normalize: `is_numeric` is modelled for one-character strings only, as an ASCII digit (`IsDigitString`). Prefixes are the first character of a column.
- PagerConfig.Pager.AllLabel: the default label is the literal "All"; the translation `t('All')` is not modelled.
- An empty alphabet is not modelled. The code then merges into an undefined variable; the model treats it as an empty array.
- Reading a missing sentinel entry is a PHP fatal error. It is modelled as the outcome `MissingSentinel`, not as a crash.
- CharacterBuilder.GetValue: the contract states only the mode-'2' branch. Its other branches are stated by `GetValueIsLabel`, through `GetLabel`.
- The view's `args` and the configuration are taken as given for one call. Changes to the view while it renders are not modelled.
- `getAreaHandlers`, `validate`, `buildTokenTree`, `getTokens`, `ui_name`, `__sleep` and `__wakeup` depend on the framework's handler registry and rendering, so they are not modelled. Nor are the views area and field plugins.
- The `$render` flag of `build` (the `drupal_render` call) is not modelled. Nor is the case where `buildLink` is given extra options. `Build` returns the render array's content.
