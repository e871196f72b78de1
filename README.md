# image_autoresize: configuration transforms and upload-slot naming, in Dafny

This project models the deterministic core of the TYPO3 extension
`image_autoresize`:

- **The expert configuration module** (`ConfigurationController`). It covers:
  - the `conversion_mapping` text, a comma list on disk and one item per line in the form;
  - `persistFlexForm`, which moves new FlexForm section items from their temporary `ID-…` keys to their final keys inside every `el` map it reaches;
  - `fixRecordForFormEngine`, which splits comma-separated select fields into lists;
  - the footer cut in `buildForm`;
  - the constructor and `processData`, which together load, merge, renumber and write back the `config` field.
- **The upload slot** (`FileUpload`). It covers:
  - the Local-driver guard;
  - the target-directory formula;
  - extension extraction and rewrite in `preFileAdd`;
  - the one-shot hand-off of the original file name from `sanitizeFileName` to `preFileAdd` through a static field;
  - the metadata guard of `populateMetadata`.

PHP arrays are values, as in PHP, where arrays are copied on write.
- An array is an ordered sequence of key/value entries (`PhpArrays.Value`, `PhpArrays.Entry`).
- A by-reference array parameter becomes a method that returns the new array.
- Keys are strings, since PHP stores "5" and 5 under the same key.

The image resizer, the file renames, the configuration merge and the local-configuration write are not part of this model. They enter as function-valued parameters, and so do the site path and the request parameters.

Files:

| file | content |
|---|---|
| `wrappers.dfy` | `Option` |
| `php_strings.dfy` | `explode`/`implode`, `trim`, `trimExplode`, `strtolower`, `rtrim`, `basename`, `strpos`/`strrpos` |
| `php_arrays.dfy` | PHP arrays: lookup, assignment, `unset`, `isset`, truthiness, nested paths |
| `flexform.dfy` | `persistFlexForm` |
| `record_fix.dfy` | `fixRecordForFormEngine` |
| `configuration_controller.dfy` | mapping transforms, footer cut, constructor and `processData` |
| `file_upload.dfy` | the upload slot |

## Model

| member | source | states |
|---|---|---|
| PhpStrings.Split | Classes/Controller/ConfigurationController.php:104 | `explode` yields at least one piece. No piece holds the delimiter, and a single piece is the whole text. |
| PhpStrings.JoinSplit | Classes/Controller/ConfigurationController.php:104 | `implode` of the `explode` pieces with the same delimiter gives the text back. `Join` models `implode` and `Split` models `explode`. |
| PhpStrings.SplitJoin | Classes/Controller/ConfigurationController.php:104 | For a non-empty list of pieces, none holding the delimiter, `explode` undoes `implode` (`Join`). The empty list is excluded because `implode` of it is "" and `explode` of "" is one empty piece. |
| PhpStrings.TrimLeftSuffix | Classes/Controller/ConfigurationController.php:391 | The left half of `trim` (`TrimLeft`) keeps a suffix of its input, and every character it drops is a blank. |
| PhpStrings.TrimRightPrefix | Classes/Controller/ConfigurationController.php:391 | The right half of `trim` (`TrimRight`) keeps a prefix of its input, and every character it drops is a blank. |
| PhpStrings.Trim | Classes/Controller/ConfigurationController.php:391 | `trim` yields the run of its input that starts after the leading blanks. Everything before and after that run is a blank, and the run neither starts nor ends with one. An already trimmed text is unchanged. |
| PhpStrings.TrimNonEmpty | Classes/Controller/ConfigurationController.php:391 | The kept pieces are non-empty and trimmed. A single piece is kept as its trimmed form exactly when that form is not empty. |
| PhpStrings.TrimNonEmptyAppend | Classes/Controller/ConfigurationController.php:391 | Pieces are handled one by one and in order: the kept pieces of a concatenation are those of the first part followed by those of the second. |
| PhpStrings.TrimExplodePieces | Classes/Controller/ConfigurationController.php:391 | Every `trimExplode(d, s, true)` piece is non-empty, trimmed and free of the delimiter. `TrimExplode` is `trimExplode(d, s, true)`: `TrimNonEmpty` of the `explode` pieces. |
| PhpStrings.TrimNonEmptyOfClean | Classes/Controller/ConfigurationController.php:391 | Pieces that are already non-empty and trimmed pass through unchanged, in order. |
| PhpStrings.ToLower | Classes/Slots/FileUpload.php:166 | `strtolower` keeps the length and leaves no upper-case letter. Each upper-case letter becomes the letter 32 code points further on, and every other character stays. |
| PhpStrings.ToLowerIdempotent | Classes/Slots/FileUpload.php:166 | Lower-casing twice is lower-casing once. |
| PhpStrings.RTrimChar | Classes/Slots/FileUpload.php:99 | `rtrim(s, '/')` gives a prefix of `s` that does not end in '/'. Only '/' characters were cut. |
| PhpStrings.Basename | Classes/Slots/FileUpload.php:107 | `basename` holds no '/'. It is a final part of the path once trailing slashes are removed. |
| PhpStrings.LastIndexOf | Classes/Controller/ConfigurationController.php:247 | `strrpos` finds an occurrence with none after it, or reports that there is none. |
| PhpStrings.IndexOfFrom | Classes/Controller/ConfigurationController.php:251 | `strpos` with an offset finds the first occurrence at or after the offset, or reports that there is none. |
| PhpStrings.LastIndexOfChar | Classes/Slots/FileUpload.php:166 | `strrpos(name, '.')` finds a dot with no dot after it. It yields none exactly when the name has no dot. |
| PhpArrays.Find | Classes/Controller/ConfigurationController.php:153 | A lookup yields none exactly when the key is absent. A value it yields is stored under that key. |
| PhpArrays.Put | Classes/Controller/ConfigurationController.php:459 | Assigning to a new key appends the entry at the end. Assigning to an existing key keeps the key order. Uniqueness of keys is preserved, and every other key keeps its value. |
| PhpArrays.FindPut | Classes/Controller/ConfigurationController.php:459 | After `$a[$k] = $v`, `$a[$k]` is `$v`. |
| PhpArrays.Remove | Classes/Controller/ConfigurationController.php:460 | `unset` drops exactly the key. Every other key keeps its value and an absent key changes nothing. |
| PhpArrays.RemoveAt | Classes/Controller/ConfigurationController.php:460 | In a well-formed array, `unset` cuts out the one entry holding the key. The entries before and after it stay, in their order. |
| PhpArrays.ListOf | Classes/Controller/ConfigurationController.php:154 | The list built from `trimExplode` pieces is a well-formed array. Its entries are the pieces in order under the keys "0", "1", ..., and looking up key "i" gives the i-th piece. |
| PhpArrays.RemoveAppend | Classes/Controller/ConfigurationController.php:460 | `unset` acts on each half of an array independently. |
| PhpArrays.PutInFirst | Classes/Controller/ConfigurationController.php:459 | Assigning to a key of the first half leaves the second half where it is. |
| FlexForm.RenameNewItems | Classes/Controller/ConfigurationController.php:457-462 | The inner `foreach` over an `el` map gives the array defined by iterating the rename step over a snapshot of the map. `RenameStep` is one iteration, lines 458-461: a truthy `ID-x` entry is put under `x` and its own key is unset. `RenameFold` is the first `i` iterations, and `RenamedEl` is all of them. |
| FlexForm.RenameFoldMoved | Classes/Controller/ConfigurationController.php:458-461 | After any number of iterations, each truthy `ID-x` entry seen so far has its value under `x` and no `ID-x` key remains. Keys stay unique. This is stated about `RenameFold`, for truthy (`PhpArrays.Truthy`, PHP's boolean conversion) `ID-` entries. |
| FlexForm.RenameFoldKept | Classes/Controller/ConfigurationController.php:456-462 | An entry without the prefix, or with a falsy value, keeps its key and value unless a moved item targets its key. |
| FlexForm.RenamedElFind | Classes/Controller/ConfigurationController.php:456-462 | When the loop ends, every moved item is found under its new key with its own value and its `ID-` key is gone. Every untouched entry is found with its own value. This is stated about `RenamedEl`. |
| FlexForm.RenameFoldClosedForm | Classes/Controller/ConfigurationController.php:458-461 | The map after the loop is the original entries in their order, with moved items removed and moved values overwriting existing keys in place. After them come the moved items whose key was new, in visiting order. |
| FlexForm.Persist | Classes/Controller/ConfigurationController.php:453-467 | A successful `persistFlexForm` keeps the keys of the array it walks, in order. |
| FlexForm.PersistEntry | Classes/Controller/ConfigurationController.php:455-466 | Handling one key of the outer loop never changes that key. |
| FlexForm.PersistOne | Classes/Controller/ConfigurationController.php:455-466 | One iteration of the outer loop: it renames inside `el`, recurses into other set keys and fails on a scalar. It equals the specification of one key. |
| FlexForm.PersistFlexForm | Classes/Controller/ConfigurationController.php:453-467 | The recursive method with its outer loop equals the `persistFlexForm` specification, including failure. |
| FlexForm.FindPersist | Classes/Controller/ConfigurationController.php:463-465 | Every key present before the call is present after it, and holds its processed value. |
| FlexForm.PersistAlongPath | Classes/Controller/ConfigurationController.php:463-465 | An array reached along keys other than `el` is replaced by its own processed version. |
| FlexForm.ElProcessedAtAnyDepth | Classes/Controller/ConfigurationController.php:456-465 | Every `el` map reached along keys other than `el` ends up renamed, at any depth. |
| FlexForm.ScalarOffElFails | Classes/Controller/ConfigurationController.php:463-464 | A string, number or boolean reached along keys other than `el` makes the call fail. Such a value violates the `array` parameter type. |
| RecordFix.GetPutAtSame | Classes/Controller/ConfigurationController.php:161 | After a nested assignment along an existing path, the path leads to the assigned value. `PutAt` is the nested assignment, and `IsSetAt` is `isset` along a path. |
| RecordFix.GetPutAtOther | Classes/Controller/ConfigurationController.php:161 | A nested assignment leaves alone every path that branches off before its end. |
| RecordFix.SelectItems | Classes/Controller/ConfigurationController.php:154 | A select field becomes a list. For a string it is the list of its trimmed, non-empty comma pieces; for an array it is empty. |
| RecordFix.SplitItems | Classes/Controller/ConfigurationController.php:158-163 | The ruleset items keep their keys, in order. Items that are not arrays are unchanged, and array items stay arrays. |
| RecordFix.SplitItemsEffect | Classes/Controller/ConfigurationController.php:158-163 | With each field listed once, every array item keeps its keys in order and every key but `container`. Each listed field of the item that is set holds its split pieces; every other field path is unchanged. |
| RecordFix.FixItem | Classes/Controller/ConfigurationController.php:159-163 | The inner loop over the select fields of one ruleset item equals its specification fold. |
| RecordFix.FixItems | Classes/Controller/ConfigurationController.php:158-164 | The loop over the ruleset items equals the item-wise specification. |
| RecordFix.FixRecordForFormEngine | Classes/Controller/ConfigurationController.php:150-166 | The three loops of `fixRecordForFormEngine` together give the specified record. The record is `FixRecord`: `SplitRulesets` applied after `SplitFields`. |
| RecordFix.SplitFieldsEffect | Classes/Controller/ConfigurationController.php:152-156 | With each field listed once, every listed field that is set holds its split pieces. A listed field that is absent or null, and every unlisted key, is unchanged. The key order is kept. This is stated about `SplitFields`, the first loop (lines 152-156) after its first `n` fields. "Set" is `isset` (`PhpArrays.IsSet`, `RecordFix.IsSetAt` along a path). |
| RecordFix.SplitItemFieldsEffect | Classes/Controller/ConfigurationController.php:159-163 | With each field listed once, a ruleset item keeps its keys in order and every key but `container`. Each listed field that is set, at `container/el/<field>/vDEF`, holds its split pieces; other field paths are unchanged. This is stated about `SplitItemFields`, the inner loop over one item. |
| RecordFix.SplitItemFieldsFrame | Classes/Controller/ConfigurationController.php:159-163 | Whatever the field list, a ruleset item keeps its keys in order, and every key but `container` keeps its value. |
| RecordFix.SplitAtItemPath | Classes/Controller/ConfigurationController.php:160-161 | Splitting one item field sets that field as expected and leaves every other field's path alone. |
| RecordFix.RulesetItemsSplit | Classes/Controller/ConfigurationController.php:157-165 | After the call, the ruleset items are the items present after the first loop, each split. Nothing outside the `rulesets` key is touched by the second part. |
| RecordFix.RulesetsUntouchedByFields | Classes/Controller/ConfigurationController.php:152-157 | Unless `rulesets` itself is a listed field, the first loop does not disturb the ruleset items. |
| ConfigurationController.LoadMapping | Classes/Controller/ConfigurationController.php:104 | The load transform keeps the length of the text. Every comma becomes a line feed and every other character stays where it is. |
| PhpStrings.JoinSplitReplace | Classes/Controller/ConfigurationController.php:104 | `implode` with `e` of the `explode` pieces on `d` replaces every `d` by `e` and keeps every other character. |
| ConfigurationController.LoadedLines | Classes/Controller/ConfigurationController.php:104 | When the stored mapping holds no line feed, the lines of the loaded mapping are exactly its comma items, in the same order. |
| ConfigurationController.SavedItems | Classes/Controller/ConfigurationController.php:391 | For a text in line form that holds no comma and has at least one line that is not empty once trimmed, the comma items of the saved mapping (`SaveMapping`, `implode(',', trimExplode(LF, s, true))`) are its lines, trimmed, with the empty ones dropped, in order. |
| ConfigurationController.MappingRoundTrip | Classes/Controller/ConfigurationController.php:104 | When every comma item is non-empty, trimmed and free of line feeds, loading then saving gives the mapping back. The round trip is `SaveMapping(LoadMapping(s))`, where `SaveMapping` models line 391. |
| ConfigurationController.DefaultMappingRoundTrip | Classes/Service/ConfigurationService.php:39-46 | The default mapping has the six listed items and survives a load followed by a save. |
| PhpStrings.SplitLength | Classes/Controller/ConfigurationController.php:104 | The `explode` pieces and the delimiters between them account for every character of the text. |
| ConfigurationController.StripFooter | Classes/Controller/ConfigurationController.php:247-253 | Without the footer marker, the HTML is unchanged. |
| ConfigurationController.StripFooterCut | Classes/Controller/ConfigurationController.php:247-253 | With a last marker at `s` and the first `</div>` at or after `s` at `e`, exactly the text from `s` through that `</div>` is removed. The text before and after is kept. |
| ConfigurationController.StripFooterUnclosed | Classes/Controller/ConfigurationController.php:250-252 | With no `</div>` after the last marker, the text before the marker is followed by the HTML from offset 6, because false + 6 is 6. |
| ConfigurationController.ConfigurationController.constructor | Classes/Controller/ConfigurationController.php:98-105 | The `config` field is the stored configuration with its mapping in line form. This is `LoadedConfig(stored)`, which models lines 103-104. An array mapping becomes null. |
| ConfigurationController.ConfigurationController.ProcessData | Classes/Controller/ConfigurationController.php:350-397 | On a save request, the method merges, renumbers truthy rulesets and writes the configuration with the mapping in comma form. It keeps the new configuration only when the write succeeded. It fails when the rulesets cannot be handed to `persistFlexForm`. The outcome is `Outcome`, and the new field is `ConfigAfter`. `NewConfig` is the merge at lines 371-372 with the persisted rulesets of lines 375-387. `LocalconfConfig` is what lines 390-391 hand to the write. |
| ConfigurationController.SaveWritesLocalconf | Classes/Controller/ConfigurationController.php:389-394 | A save that gets through writes the new configuration with the saved mapping, and reports the write's result. It is stated over `Outcome`, `NewConfig` and `LocalconfConfig`. |
| ConfigurationController.WrittenMapping | Classes/Controller/ConfigurationController.php:390-391 | The written configuration holds the saved form of the mapping and agrees with the new configuration on every other key. This is stated about `LocalconfConfig`. |
| ConfigurationController.LoadedMapping | Classes/Controller/ConfigurationController.php:103-104 | The loaded configuration holds the line form of the stored mapping and agrees with the stored configuration on every other key. This is stated about `LoadedConfig`. |
| ConfigurationController.UnchangedMappingWrittenBack | Classes/Controller/ConfigurationController.php:104 | Take a mapping loaded by the constructor and saved without edits, whose comma items are clean. It is written back exactly as it was stored. |
| ConfigurationController.ConfigKeptUnlessWritten | Classes/Controller/ConfigurationController.php:393-395 | The `config` field changes only on a save whose new configuration exists and whose write succeeded. This is stated about `ConfigAfter`. |
| ConfigurationController.RulesetsPersisted | Classes/Controller/ConfigurationController.php:375-386 | Submitted truthy rulesets reach the new configuration with their FlexForm data renumbered. Every other submitted ruleset key is kept. This uses `Truthy`, the PHP boolean conversion at line 376. |
| FileUpload.DirectorySuffix | Classes/Slots/FileUpload.php:99 | The folder part of the target directory never ends in '/'. It is the base path without trailing slashes plus the identifier, with trailing slashes cut. |
| FileUpload.TargetDirectoryShape | Classes/Slots/FileUpload.php:98-99 | The target directory starts with the site path exactly for relative storages and never ends in '/' after that prefix. For other storages it is the folder part alone. This is stated about `TargetDirectory`, the formula of lines 98-99, 131-132 and 163-164. |
| FileUpload.Extension | Classes/Slots/FileUpload.php:166 | The extension holds no dot and is shorter than a non-empty name. |
| FileUpload.ExtensionAfterLastDot | Classes/Slots/FileUpload.php:166 | With a last dot at `i`, the extension is the lower-cased text after it. |
| FileUpload.ExtensionWithoutDot | Classes/Slots/FileUpload.php:166 | Without a dot, the extension is the lower-cased name minus its first character. |
| FileUpload.RewriteKeepsStem | Classes/Slots/FileUpload.php:179-181 | The rewritten target keeps everything up to and including its last dot, then the new extension. When the old extension is empty, only the new extension remains. This is stated about `RewriteTarget`, which models line 180. |
| FileUpload.RewrittenExtension | Classes/Slots/FileUpload.php:174-181 | After the rewrite, the target's extension is the new one. |
| FileUpload.Sanitized | Classes/Slots/FileUpload.php:85-111 | On a non-Local storage nothing is returned and nothing is remembered. On a Local storage, arguments come back exactly when the resizer names a processed file for the target path. Those arguments carry the folder and the basename of that processed name, and the original name is remembered. Otherwise the remembered name is unchanged. |
| FileUpload.PreFileAdded | Classes/Slots/FileUpload.php:147-183 | On a non-Local storage the target, the remembered name and the metadata are unchanged. Otherwise a remembered name is consumed and never left behind, and a falsy one stays as it was. |
| FileUpload.PreFileAddedRenamed | Classes/Slots/FileUpload.php:163-182 | After a successful first rename on a Local storage, the metadata is the resizer's. The target keeps its name when the processed file has the same extension. Otherwise the target keeps everything up to its last dot, followed by the processed file's extension, which becomes its extension. A target ending in a dot becomes the bare new extension. All of this holds for a start target that contains a dot. |
| FileUpload.ExtensionLower | Classes/Slots/FileUpload.php:166 | An extension is already lower-case. |
| FileUpload.IndexCallFor | Classes/Slots/FileUpload.php:215-226 | The file is indexed exactly when the metadata is a non-empty array. The call passes `COMPUTED.Width`, `COMPUTED.Height` and the whole metadata. |
| FileUpload.RenameFailureKeepsTarget | Classes/Slots/FileUpload.php:156-182 | When the first rename fails, the target stays the name `preFileAdd` started from, which may be the restored original name. The metadata is untouched. |
| FileUpload.StartsFromRemembered | Classes/Slots/FileUpload.php:156-161 | A supported `preFileAdd` acts as if it had been given the remembered name, when there is one, and had nothing remembered. This is stated about `StartTarget`, which models lines 156-160. |
| FileUpload.FileUpload.constructor | Classes/Slots/FileUpload.php:50-60 | Both static fields start as null. |
| FileUpload.FileUpload.SanitizeFileName | Classes/Slots/FileUpload.php:85-111 | The returned arguments and the remembered name are those of the specification. The metadata is untouched. |
| FileUpload.FileUpload.ProcessFile | Classes/Slots/FileUpload.php:192-206 | The method returns the resizer's new file name and stores its metadata. The remembered name is untouched. |
| FileUpload.FileUpload.PopulateMetadata | Classes/Slots/FileUpload.php:215-226 | The method makes the index call of the specification for the stored metadata. |
| FileUpload.FileUpload.PostFileReplace | Classes/Slots/FileUpload.php:121-137 | On a Local storage, the method processes the file in its target directory, stores the metadata and indexes it. Otherwise nothing changes. The remembered name is never touched. The processing call is `Replaced`, which models lines 131-135. |
| FileUpload.FileUpload.PreFileAdd | Classes/Slots/FileUpload.php:147-183 | The new target, the remembered name and the metadata are those of the specification. |
| FileUpload.Upload | Classes/Slots/FileUpload.php:101-161 | Take `sanitizeFileName` followed by two `preFileAdd` calls on the same state. The first call works on the remembered original name when one was remembered. The second works on the target it is given, so the name is used once. |

## Left out

- `ImageResizer` is not part of this model. Its `getProcessedFileName`, `processFile` and `getLastMetadata` are function parameters (`FileUpload.Resizer`). No threshold or resize behaviour is modelled. The resizer is assumed not to change `$targetFileName` through the reference it receives.
- The file renames are a function parameter (`preFileAdd`'s first rename) that succeeds or fails. The second rename back to the temporary name has an unused result and is not modelled.
- `ArrayUtility::mergeRecursiveWithOverrule` is a function parameter of `ProcessData`. The merge of several submitted records is likewise not modelled: the submitted data is taken as already combined.
- `DataHandler::_ACTION_FLEX_FORMdata` is not modelled. The submitted data is taken as it stands after those action commands, which only touch `rulesets.data`.
- `writeToLocalconf` is a function parameter that succeeds or fails. `ConfigurationService::getCurrentExtConfiguration` is the constructor's argument.
- Form rendering is not modelled: TCA loading, data-provider registration and version checks, the module template, the toolbar buttons, the statistics and the social link (`formatSize`, `json_decode`), and `mainAction`'s `$content`.
- The `<h1>` removal by regular expression in `buildForm` is not modelled; only the marker-based footer cut is.
- The `closeDoc` redirect of `processData` is not modelled.
- `FileUploadHook` and `FormFlexAjaxController` are not part of this model: they delegate to the resizer or to the form engine.
- Flash messages and `notify`, `TYPO3_MODE`, the backend user in `$GLOBALS` and the `PATH_site` constant are not modelled. The site path is a parameter.
- The static fields of `FileUpload` are fields of one object, and calls are strictly sequential. Concurrent uploads are not modelled.
- The model follows PHP 7 where PHP versions differ. `trimExplode` and `explode` on an array yield no pieces, and the constructor stores null for an array mapping.
- Only ASCII, single-byte string behaviour is modelled: `strtolower` lower-cases only 'A' to 'Z'.
- FlexForm.RenamedElFind, FlexForm.RenameFoldMoved and FlexForm.RenameFoldClosedForm assume no `el` key is "ID-ID-…". Temporary keys are "ID-" followed by a hash, so the form's own data satisfies this. The loop itself (`FlexForm.RenameNewItems`) is modelled without this assumption.
- Remove: its own contract states the keys and lookups only. The order of the remaining entries is stated by `PhpArrays.RemoveAt`, for well-formed arrays.
- RecordFix.SplitFieldsEffect and RecordFix.SplitItemFieldsEffect assume each select field is listed once. A field listed twice is split twice, and its second split yields an empty list. `RecordFix.FixRecordForFormEngine` models that case too.
- RecordFix.RulesetsUntouchedByFields assumes `rulesets` is not itself a listed select field.
- A numeric string used as a key of a string value (`isset("abc"[0])`) is not modelled: `isset` along a path requires arrays at every step. The keys used on those paths are never numeric.
