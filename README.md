# Verified model of the panel toolkit

This project models, in Dafny, the parts of a small set of tools that
carry real logic. The tools serve character OLED panels and a fleet of
field controllers:

- **OLED character converter** (`oled-convertor/script.js`). The
  converter maps text onto the character ROMs A, B and C of a US2066
  display controller. Per ROM it builds a reverse lookup from the ROM
  table and the Baltic fallback map. It then resolves each input
  character in order: pass-through, table hit, custom mapping, fallback
  alternatives, unmapped-mode policy. It also groups the unmapped
  characters, edits and imports the per-ROM custom mappings, and
  writes the converted text as single bytes.
- **ROM table extractor** (`oled-convertor/data/extract_rom_maps.py`).
  The extractor tokenizes the C# ROM tables row by row. It resolves
  `c_unmap` positions through their glyph bitmaps and patches ROM B
  with its manual list. Finally it builds the 256 records keyed
  `bbbb_bbbb`, with their hex and ASCII columns, and the 16×16 grid.
- **Baltic fallback generator** (`oled-convertor/data/baltic_char_map.py`).
  The generator collects the letters of the Baltic alphabets. For each
  ROM it records each letter's byte or its ordered fallback list. It
  also writes the coverage summary and the CSV rows.
- **Log viewer** (`script.js`). The viewer parses the timestamps of
  device log lines and computes each row's difference to the previous
  row and to the previous row of its type. It colours the differences,
  keeps a time-sorted floating table of picked logs, and exports that
  table as CSV.
- **Controller update CLI** (`publisher/update-controller.js`). The CLI
  parses its arguments and flags. For each controller it posts
  settings and optionally creates and activates a firmware plan, and
  it counts the outcomes.
- **Fleet asset updater** (`publisher/asset-updater.js`). The updater
  validates its form and parses controller ids. For each controller it
  fetches the configuration, drops `meta` and merges the user's
  changes, then posts the result. It tracks progress and the
  updated/failed lists, enables scheduling by a fixed rule, and
  schedules firmware plans.
- **File-set manager** (`file-set-manager/script.js`). The manager
  builds its API requests and handles their replies. It filters file
  sets and totals their files, uploads files with a summary toast, and
  builds image data URLs.

Each core file is one module: `OledConvertor`, `RomExtract` with
`RomMaps`, `BalticGen`, `LogViewer`, `UpdateController`, `AssetUpdater`
and `FileSetManager`. Shared helpers sit in their own modules:

- `Wrappers`: `Option` and `Result`;
- `Strings`: split, join, trim and decimal/hex text;
- `Dicts`: insertion-ordered dictionaries, the model of JS objects and
  Python dicts;
- `JsonValues`: JSON values;
- `ByteKeys`: the binary and hex byte codes shared by the Python and
  the JavaScript;
- `TableFolds`: first-wins and overwrite folds;
- `RomTables`: the ROM record and per-ROM triple;
- `UnicodeDb`: the Unicode character database as an uninterpreted
  value.

Each object whose fields the source updates in place is a class:
`Convertor`, `Viewer`, `Updater` and `Manager`. A loop in the source
is a method with a loop, proved against a specification function. Each
specification function's meaning is proved in lemmas.

Modelling conventions:

- Everything the tools receive from outside is a parameter: HTTP
  replies, file contents, `localStorage`, and the answers to
  `prompt` and `confirm`.
- Regular-expression matches are inputs: a log line's timestamp
  fields, and a ROM source line's row nibble and body.
- Times are whole nanoseconds. `Math.round` of a millisecond
  difference is written out exactly, halves rounded up.
- The asset updater's percentage is exact integer arithmetic with
  halves rounded up.
- A shift and an or on bytes is written as `16 * hi + lo`.
- A right shift of a bitmap row is written as repeated halving.
- Two behaviours a reader might not expect, both modelled as written:
  - The Baltic merge in `buildReverseLookup` overwrites what the ROM
    table registered (`oled-convertor/script.js:67`); it does not skip
    keys already present. `OledConvertor.BalticMergeSpec` states the
    overwrite.
  - Replace mode writes `?` even when fallback alternatives exist
    (`oled-convertor/script.js:157-159`).

## Model

| member | source | states |
|---|---|---|
| UpdateController.FieldOfFlagInverse | publisher/update-controller.js:260-275 | each of `--fw`, `--type`, `--custom`, `--comment` names exactly one option field, and only that flag names it |
| UpdateController.ActionsConsumeAll | publisher/update-controller.js:259-283 | the flag loop consumes every argument after the positional ones: the widths of the actions it takes add up to the arguments left |
| UpdateController.ApplyAllConcat | publisher/update-controller.js:259-283 | running the flag loop over two runs of actions is the same as running it over their concatenation |
| UpdateController.ResetDiscards | publisher/update-controller.js:276-279 | `--update` starts fresh options: whatever came before it has no effect on the result |
| UpdateController.OptionsStay | publisher/update-controller.js:261-274 | once firmware options exist no later flag removes them |
| UpdateController.SkipsOnly | publisher/update-controller.js:280-282 | arguments the loop does not recognise leave the options as they were |
| UpdateController.LastSetWins | publisher/update-controller.js:260-275 | a value flag sets its field, and the field keeps that value unless a later flag sets it again or `--update` resets |
| UpdateController.KeepsField | publisher/update-controller.js:259-283 | flags for other fields do not change a field's value |
| UpdateController.TrailingFlagSkipped | publisher/update-controller.js:260-282 | a value flag given as the last argument, with no value after it, is skipped |
| UpdateController.ValueMayLookLikeFlag | publisher/update-controller.js:259-275 | a value flag followed by another argument takes that argument as its value whatever it is, even a flag such as `--update`, and the loop resumes after it |
| UpdateController.TrimAll | publisher/update-controller.js:247 | each controller id is the trimmed text of the matching comma-separated part, with the count of parts unchanged |
| UpdateController.ParseArgs | publisher/update-controller.js:228-283 | fewer than three arguments, and only then, gives the usage message; otherwise the base URL, key, trimmed ids, optional settings file (or its default) and the firmware options built by the flag loop |
| UpdateController.FieldOr | publisher/update-controller.js:20-23 | a present, non-empty option value is used; a missing or empty one gives the default |
| UpdateController.OrElseTwice | publisher/update-controller.js:185-192 | applying the `||` default in `updateControllers` and again in the payload (lines 20-23) gives the same value as applying it once |
| UpdateController.PayloadDefaults | publisher/update-controller.js:18-30 | the plan payload carries the controller id, `customField1` or empty, the comment or the default comment, the update type or `sleep`, and a main firmware entry exactly when a non-empty version was given |
| UpdateController.ScheduleUpdate | publisher/update-controller.js:10-89 | an activation request is made exactly when the plan was created with a truthy id, at `/f-updates/<id>/activate`; the call succeeds exactly when the plan was created with such an id and activated |
| UpdateController.Outcomes | publisher/update-controller.js:174-205 | the loop records one outcome per controller processed |
| UpdateController.TallySnoc | publisher/update-controller.js:174-205 | counting the outcomes of one more controller bumps exactly the counter of its outcome |
| UpdateController.TallyStep | publisher/update-controller.js:174-205 | one loop iteration moves the counters by the outcome of that controller alone |
| UpdateController.UpdateControllers | publisher/update-controller.js:154-221 | the four counters the loop returns are the tallies of the per-controller outcomes |
| UpdateController.CountsPartition | publisher/update-controller.js:174-205 | every controller has exactly one of the four outcomes |
| UpdateController.OutcomesKind | publisher/update-controller.js:182-201 | without firmware options no firmware update is counted; with them no controller ends at settings only |
| UpdateController.TallySpec | publisher/update-controller.js:169-205 | successes and failures add up to the number of controllers; firmware successes and failures add up to the settings successes when firmware options were given, and are zero otherwise |
| UpdateController.OutcomeSpec | publisher/update-controller.js:176-204 | a controller fails exactly when its settings update failed, stops at settings exactly when there is no firmware, and has its firmware scheduled exactly when the plan was created with a truthy id and activated |
| UpdateController.OutcomesPrefix | publisher/update-controller.js:174-205 | the outcome recorded for a controller depends only on that controller's own replies, whatever the number of controllers processed after it |
| AssetUpdater.Keep | publisher/asset-updater.js:249-250 | every entry kept by `omit` is an entry of the object whose key is not among the dropped keys |
| AssetUpdater.KeepFirsts | publisher/asset-updater.js:249-254 | the keys of the entries kept are the object's keys with the dropped ones filtered out, in the same order |
| AssetUpdater.KeepKeysSpec | publisher/asset-updater.js:249-250 | filtering keeps the keys distinct, and a key survives exactly when it was present and not dropped |
| AssetUpdater.OmitSpec | publisher/asset-updater.js:247-255 | a falsy value gives the empty object; for an object the result has exactly its keys minus the dropped ones, in order, each with its original value |
| AssetUpdater.OmitNonObject | publisher/asset-updater.js:248-254 | a value that is not an object never contributes a `meta` key |
| AssetUpdater.MergeFromStep | publisher/asset-updater.js:263-272 | each step of the merge loop writes one change key with its merged value into the result |
| AssetUpdater.MergeConfigurations | publisher/asset-updater.js:258-275 | the method builds exactly the merged configuration: the current settings with each change key written over in turn |
| AssetUpdater.MergeKey | publisher/asset-updater.js:263-271 | after one change key is written, that key reads back its merged value (a `typeof "object"` value under `fileSetIds` is spread into a fresh object, so `null` gives `{}` and an array an index-keyed object; any other key or value is stored as it is); every other key keeps its value; the existing keys keep their order, and a new key goes last |
| AssetUpdater.MergeFromSet | publisher/asset-updater.js:263-272 | after the loop has passed a change key, the result holds the merged value for it |
| AssetUpdater.MergeFromKeep | publisher/asset-updater.js:260-272 | a key the loop has not touched keeps its value from the current settings, present or absent |
| AssetUpdater.MergeFromKeys | publisher/asset-updater.js:260-272 | the current settings' keys stay first in the result, in their order |
| AssetUpdater.MergeSpec | publisher/asset-updater.js:258-275 | every change key holds its merged value, every other key keeps its current value, and the current keys stay first in order |
| AssetUpdater.FileSetIdsReplaced | publisher/asset-updater.js:265-267 | a `fileSetIds` object in the changes replaces the current one outright, with no key-by-key merge |
| AssetUpdater.ConfigToPost | publisher/asset-updater.js:348-365 | a body to post is produced exactly when the fetched device data is usable; otherwise the controller fails |
| AssetUpdater.MetaDropped | publisher/asset-updater.js:354 | the posted body has a `meta` key only when the user's settings supply one: the fetched `meta` is always dropped |
| AssetUpdater.DecimalNotMeta | publisher/asset-updater.js:354 | a numeric array index never spells `meta`, so dropping `meta` from an array keeps all its elements |
| AssetUpdater.Decimals | publisher/asset-updater.js:576-582 | each id is written as its decimal text, one text per id |
| AssetUpdater.DecimalRead | publisher/asset-updater.js:579-581 | the decimal text of an id has no surrounding space and no comma, and `Number` reads it back as that id |
| AssetUpdater.IdsOfOne | publisher/asset-updater.js:579-581 | one comma-separated part gives an id exactly when its trimmed text is non-empty and a number, and then that number |
| AssetUpdater.IdsOfConcat | publisher/asset-updater.js:576-582 | the ids of a list of parts are the ids of its first half followed by those of its second half |
| AssetUpdater.JunkPartDropped | publisher/asset-updater.js:580 | a blank part or one that is not a number is dropped without affecting the ids around it |
| AssetUpdater.IdsOfDecimals | publisher/asset-updater.js:576-582 | parsing the decimal texts of a list of ids gives back that list |
| AssetUpdater.ParseIdsRoundTrip | publisher/asset-updater.js:576-582 | joining ids with commas and parsing the text gives back exactly the ids, in order, duplicates included |
| AssetUpdater.ValidJsonIsObject | publisher/asset-updater.js:168-194 | the settings text is accepted exactly when it is not blank and parses to an object |
| AssetUpdater.FormValidSpec | publisher/asset-updater.js:197-219 | the form passes exactly when at least one controller id parses and the settings text parses to an object with at least one key |
| AssetUpdater.QuotientIsDiv | publisher/asset-updater.js:393 | the division used for the percentage is integer division |
| AssetUpdater.ProgressSpec | publisher/asset-updater.js:392-394 | the progress is the nearest whole percentage of completed over total (halves rounded up), lies in 0..100 and is 100 when all are done |
| AssetUpdater.ProgressMonotone | publisher/asset-updater.js:392-394 | completing more controllers never lowers the progress |
| AssetUpdater.SelectPartition | publisher/asset-updater.js:378-388 | every controller lands in exactly one of the updated and failed lists: the two together are a permutation of the ids |
| AssetUpdater.SelectMultiset | publisher/asset-updater.js:335-395 | after any number of iterations the two lists together hold exactly the controllers processed so far |
| AssetUpdater.SelectHas | publisher/asset-updater.js:378-388 | a processed controller is in the list matching its own result |
| AssetUpdater.NoFailuresAllUpdated | publisher/asset-updater.js:398-402 | with no failures every processed controller is in the updated list, in order |
| AssetUpdater.BodiesMerged | publisher/asset-updater.js:354-374 | every body posted belongs to a processed controller whose device data was usable, and is that data with `meta` dropped and the user's settings merged in |
| AssetUpdater.ScheduleButtonRule | publisher/asset-updater.js:398-408 | the schedule button is enabled exactly when the firmware box is checked and either nothing failed or at least one controller was updated |
| AssetUpdater.ProcessController | publisher/asset-updater.js:336-389 | one controller posts the merged body when its device data is usable, and succeeds exactly when the data was usable and the post succeeded |
| AssetUpdater.SettingsStep | publisher/asset-updater.js:335-395 | one iteration extends the updated or failed list and the bodies by that controller alone |
| AssetUpdater.SettingsPass | publisher/asset-updater.js:328-395 | the loop produces exactly the updated list, the failed list and the posted bodies that the per-controller results select, and leaves progress at 100 when there were controllers |
| AssetUpdater.PayloadForSpec | publisher/asset-updater.js:462-474 | each plan carries the controller id, the trimmed custom field, the update type, the trimmed comment or the default comment, and a main firmware entry exactly when a non-blank version was given |
| AssetUpdater.ActivateUrl | publisher/asset-updater.js:483-489 | activation is requested exactly when the plan was created with a truthy id, at `/f-updates/<id>/activate` |
| AssetUpdater.ScheduleStep | publisher/asset-updater.js:456-510 | one iteration adds that controller's plan and puts it in the scheduled or failed list |
| AssetUpdater.SchedulePass | publisher/asset-updater.js:451-510 | the loop sends one plan per controller, in order, and splits the controllers by whether their plan was created with a truthy id and then activated |
| AssetUpdater.Updater.constructor | publisher/asset-updater.js:71-75 | a fresh page has empty lists and progress 0; the two button states stand for the page's initial markup, taken as schedule disabled, as `resetForm` sets it (publisher/asset-updater.js:666), and file sets enabled, as nothing disables it before a run (publisher/asset-updater.js:438) |
| AssetUpdater.Updater.UpdateDeviceSettings | publisher/asset-updater.js:328-413 | the lists grow by exactly the updated and failed controllers, the posted bodies are the merged ones, progress reaches 100 and the schedule button follows the enable rule |
| AssetUpdater.Updater.StartUpdateProcess | publisher/asset-updater.js:278-325 | the lists and progress are reset and then hold exactly this run's updated and failed controllers, with progress 100 |
| AssetUpdater.Updater.Submit | publisher/asset-updater.js:104-110 | the run starts exactly when the form passes; a form that fails changes nothing; a run that starts ends with every controller in exactly one list and progress 100 |
| AssetUpdater.Updater.ResetForm | publisher/asset-updater.js:652-673 | the lists are emptied, progress goes to 0 and the schedule button is disabled |
| AssetUpdater.Updater.ScheduleUpdate | publisher/asset-updater.js:416-524 | with no updated controllers nothing is sent and nothing changes; otherwise one plan per updated controller, the scheduled and failed split by reply, progress 100 and both buttons enabled again |
| FileSetManager.Lower | file-set-manager/script.js:224-227 | lowering keeps the length and maps each character on its own |
| FileSetManager.LowerIdempotent | file-set-manager/script.js:224 | lowering a lowered search term changes nothing |
| FileSetManager.FilterSets | file-set-manager/script.js:222-228 | every set shown is one of the loaded sets, and it matches the search term unless the term is empty |
| FileSetManager.EmptyFilterKeepsAll | file-set-manager/script.js:223 | an empty search term shows every set, in order |
| FileSetManager.FilterComplete | file-set-manager/script.js:225-227 | every set whose name, group or creator name contains the term, ignoring case, is shown |
| FileSetManager.FilterConcat | file-set-manager/script.js:222-228 | filtering keeps list order: filtering two lists joined is joining the two filtered lists |
| FileSetManager.MatchesIgnoresCase | file-set-manager/script.js:224-227 | a search term matches the same sets whatever the case of its letters |
| FileSetManager.SumOfSnoc | file-set-manager/script.js:248 | the file total adds one more count at the end like any other |
| FileSetManager.TotalFilesPut | file-set-manager/script.js:247-248 | a new file-type entry adds exactly its count to a set's total |
| FileSetManager.SumOfBounds | file-set-manager/script.js:248 | with non-negative counts the total is non-negative and at least each single count |
| FileSetManager.MakeRequestSpec | file-set-manager/script.js:139-159 | the request goes to base URL plus endpoint with the given method, carries the API key and project id headers, a JSON content type exactly when it is not form data, and a body exactly when one is given and truthy, stringified exactly when it is not form data |
| FileSetManager.HandleResponseSpec | file-set-manager/script.js:161-178 | a reply fails exactly when it is not ok or, other than a 204, does not parse; a 204 gives no data; otherwise the parsed body; a failure that is not ok carries `HTTP <status>: <text>`, and a parse failure carries the parser's own message |
| FileSetManager.Base64Of | file-set-manager/script.js:591 | a base64 part is found exactly when the data URL has a comma |
| FileSetManager.Base64OfDataUrl | file-set-manager/script.js:590-591 | the payload of a `data:<type>;base64,<data>` URL is exactly its data |
| FileSetManager.JpegRoundTrip | file-set-manager/script.js:623 | the JPEG data URL built for a preview gives back its base64 data when split at the comma as the upload does (line 591) |
| FileSetManager.FileDataUrl | file-set-manager/script.js:617-630 | a preview URL is produced exactly when the request succeeds with an object whose `dataBinBase64` is a non-empty string, and it is the JPEG data URL around that string |
| FileSetManager.ToastIconSpec | file-set-manager/script.js:749-756 | success and error toasts get their own icons; every other type gets the info icon |
| FileSetManager.CountTrueAll | file-set-manager/script.js:561-567 | the success count equals the file count exactly when every upload succeeded |
| FileSetManager.CountTrueNone | file-set-manager/script.js:561-567 | the success count is zero exactly when every upload failed |
| FileSetManager.UploadPass | file-set-manager/script.js:530-558 | one upload body per file, in order, and the success and failure counts are the uploads that did and did not succeed |
| FileSetManager.UploadSummarySpec | file-set-manager/script.js:561-567 | the summary is a success toast exactly when all uploads succeeded, an error toast exactly when all failed, and an info toast exactly otherwise |
| FileSetManager.Manager.constructor | file-set-manager/script.js:4-11 | the manager starts with empty connection settings, no file sets and nothing selected |
| FileSetManager.Manager.Connect | file-set-manager/script.js:182-190 | the stored settings are the trimmed inputs, and the manager proceeds exactly when all three are non-empty; the loaded data is untouched |
| FileSetManager.Manager.LoadFileSets | file-set-manager/script.js:202-215 | a successful reply replaces the list with its rows, or none; a failure keeps the old list; nothing else changes |
| FileSetManager.Manager.LoadFileSetDetail | file-set-manager/script.js:287-303 | a successful reply selects the returned set and its files, or none; a `null` reply leaves nothing selected and the file list as it was; a failure keeps the selection; nothing else changes |
| FileSetManager.Manager.SelectFileSet | file-set-manager/script.js:280-284 | the clicked set is selected at once and then replaced by the loaded detail when that succeeds (nothing is selected after a `null` reply); the list and the connection settings are unchanged |
| FileSetManager.Manager.UploadFiles | file-set-manager/script.js:502-567 | no files or no selected set gives its error toast and no upload; otherwise one body per file for the selected set and the summary toast for the counts |
| OledConvertor.AsciiValueAtByte | oled-convertor/script.js:76-86 | a byte code shows a glyph exactly when its parsed key is in the ROM table and the cell's ASCII value is not a control name, and then that value |
| OledConvertor.RomValueAtByte | oled-convertor/script.js:88-95 | a byte code has a ROM value exactly when its parsed key is in the table, and then the cell's ROM value |
| OledConvertor.HexCodeAddressesPosition | oled-convertor/script.js:88-101 | looking a position up by its `0x`-hex code yields the ROM value stored at that position, or nothing when the position is empty |
| OledConvertor.GridChoice | oled-convertor/script.js:397-415 | a grid cell offers a choice exactly when a table entry exists at that position and is a valid candidate, and the choice is its ASCII value |
| OledConvertor.TablePassSpec | oled-convertor/script.js:47-56 | a character is in the reverse table exactly when some usable ROM cell shows it, and it maps to the byte of the first such cell in table order |
| OledConvertor.BalticMergeSpec | oled-convertor/script.js:58-71 | after the Baltic merge a character is present exactly when the ROM table or a mergeable Baltic entry gives it; a mergeable Baltic entry overwrites, and any other keeps the table's byte |
| OledConvertor.MergeCandidatesAt | oled-convertor/script.js:61-70 | the Baltic entries are considered one by one, each on its own |
| OledConvertor.TableEntry | oled-convertor/script.js:48-55 | one iteration of the table loop adds the next cell's candidate only when its character is still absent |
| OledConvertor.TablePassLoop | oled-convertor/script.js:47-56 | the table loop builds exactly the first-wins reverse table |
| OledConvertor.MergeEntry | oled-convertor/script.js:62-69 | one iteration of the Baltic loop writes that entry's candidate over the table |
| OledConvertor.BalticMergeLoop | oled-convertor/script.js:61-70 | the Baltic loop writes every mergeable entry over the table, later entries winning |
| OledConvertor.PassthroughRule | oled-convertor/script.js:113-119 | a character passes through exactly when it is a newline, carriage return or tab, and then it maps to itself |
| OledConvertor.LookupHitWins | oled-convertor/script.js:121-127 | a character in the reverse table is mapped to its byte, and custom mappings cannot change that |
| OledConvertor.CustomRule | oled-convertor/script.js:129-135 | a character gets its custom mapping exactly when it is not a pass-through character, not in the reverse table, and has a non-empty custom mapping |
| OledConvertor.CustomMappingTakesEffect | oled-convertor/script.js:129-135 | saving a non-empty mapping for a character outside the table makes the next conversion use it |
| OledConvertor.AlternativesSpec | oled-convertor/script.js:137-151 | the alternatives are fallbacks with a byte in the table, keep the fallbacks' order, and list each such fallback as many times as it is listed |
| OledConvertor.AlternativesValues | oled-convertor/script.js:137-151 | each alternative's replacement is the table's byte for that fallback |
| OledConvertor.AlternativesOrder | oled-convertor/script.js:137-151 | the alternatives appear in the order of the Baltic fallback list |
| OledConvertor.AlternativesCount | oled-convertor/script.js:137-151 | a fallback is offered exactly as often as it is listed when it has a byte, and never otherwise |
| OledConvertor.FirstAlternative | oled-convertor/script.js:154-156 | the first alternative, which auto mode picks, is the first listed fallback that has a byte |
| OledConvertor.NoAlternatives | oled-convertor/script.js:137-161 | no alternative means no listed fallback has a byte |
| OledConvertor.UnmappedPolicy | oled-convertor/script.js:153-161 | for a character nothing maps: auto mode takes the first alternative when there is one; replace mode writes `?`; manual mode, or auto with no alternative, leaves it unmapped; the alternatives are kept in every mode |
| OledConvertor.DeleteForgetsMapping | oled-convertor/script.js:480-487 | after deleting a character's mapping it converts as if no mapping were saved, and never as custom |
| OledConvertor.CodeUnits | oled-convertor/script.js:500-505 | a character is one UTF-16 unit up to U+FFFF, itself, and otherwise two units each above 0xFF |
| OledConvertor.EncodingAgrees | oled-convertor/script.js:500-505 | the download holds one byte per UTF-16 unit of the output: the unit itself up to 0xFF, `?` (0x3F) above |
| OledConvertor.Latin1TextIsExact | oled-convertor/script.js:500-505 | output whose characters are all at most 0xFF is written byte for byte |
| OledConvertor.StripExtension | oled-convertor/script.js:508-510 | the name without its extension is a prefix of the name |
| OledConvertor.StripExtensionSpec | oled-convertor/script.js:508-510 | a name ending in a dot and a non-empty dot-free extension loses exactly that extension |
| OledConvertor.StripExtensionKeeps | oled-convertor/script.js:508-510 | a name with no dot, or ending in a dot, is kept whole |
| OledConvertor.EscapeAttrOnePass | oled-convertor/script.js:572-574 | the two replace-all calls (`&` first, then `"`) escape each character on its own, as one pass would |
| OledConvertor.EscapeAttrRoundTrip | oled-convertor/script.js:572-574 | unescaping an escaped attribute gives back the original text |
| OledConvertor.EscapeCharsRoundTrip | oled-convertor/script.js:572-574 | unescaping the one-pass escape gives back the original text |
| OledConvertor.GroupIndex | oled-convertor/script.js:253 | the index found is that of the first group for the character, or past the end when there is none |
| OledConvertor.GroupsUpToSpec | oled-convertor/script.js:249-258 | the unmapped characters are grouped one group per character, in order of first appearance, each listing exactly that character's unmapped or auto-fallback positions in increasing order, with the entry of its first position |
| OledConvertor.Loaded | oled-convertor/script.js:520-532 | a ROM's stored mappings replace its current ones; a ROM with none stored keeps its own |
| OledConvertor.Imported | oled-convertor/script.js:548-557 | an imported ROM's mappings are the current ones with the imported entries written over them, key by key |
| OledConvertor.DirectReplacementShowsGlyph | oled-convertor/script.js:643-653 | without a Baltic map, typed text the ROM shows is replaced by the byte character of a ROM position showing that glyph; any other text is used as typed |
| OledConvertor.Convertor.constructor | oled-convertor/script.js:2-16 | the converter starts with no data, no reverse tables, ROM A, an empty result and no dialog, and with the stored mappings loaded when there are any |
| OledConvertor.Convertor.LoadCustomMappings | oled-convertor/script.js:520-532 | stored mappings, when present, are loaded per ROM over the current ones; nothing else changes |
| OledConvertor.Convertor.LoadData | oled-convertor/script.js:18-34 | all three ROM tables and the Baltic map are stored and each ROM's reverse table is built from its table and the Baltic map |
| OledConvertor.Convertor.BuildReverseLookup | oled-convertor/script.js:42-74 | rebuilding one ROM's reverse table from its data and the Baltic map changes only that table |
| OledConvertor.Convertor.ConvertText | oled-convertor/script.js:103-167 | one entry per input character, in order, each the result of the conversion rules for that character |
| OledConvertor.Convertor.RenderPreview | oled-convertor/script.js:169-174 | empty text changes nothing; otherwise the current ROM becomes the chosen one and the result is the conversion of the text |
| OledConvertor.Convertor.GroupUnmapped | oled-convertor/script.js:249-258 | the loop builds exactly the grouping of the unmapped characters described by the grouping property |
| OledConvertor.Convertor.OpenCharacterModal | oled-convertor/script.js:329-331 | opening the dialog records the character's index and clears the selected replacement |
| OledConvertor.Convertor.SelectModalReplacement | oled-convertor/script.js:422-424 | choosing a replacement in the dialog records it and changes nothing else |
| OledConvertor.Convertor.ApplyModalMapping | oled-convertor/script.js:433-444 | with a selection, a valid index and the save option, the dialog's character is mapped to the selection for the current ROM; otherwise nothing changes |
| OledConvertor.Convertor.ApplyDirect | oled-convertor/script.js:643-655 | non-empty typed text selects its direct replacement and is saved for the dialog's character when saving; empty text changes nothing |
| OledConvertor.Convertor.ChooseAlternative | oled-convertor/script.js:305-316 | picking a valid alternative of a listed character maps that character to it for the current ROM; an invalid pick changes nothing |
| OledConvertor.Convertor.DeleteMapping | oled-convertor/script.js:480-486 | the character's mapping is removed from the current ROM only |
| OledConvertor.Convertor.ClearMappings | oled-convertor/script.js:659-664 | once confirmed, the current ROM's mappings are emptied; other ROMs keep theirs; unconfirmed, nothing changes |
| OledConvertor.Convertor.ImportMappings | oled-convertor/script.js:548-557 | parsed mappings are merged over the current ones per ROM; text that does not parse changes nothing |
| OledConvertor.Convertor.LoadFile | oled-convertor/script.js:576-578 | loading a file records its name and nothing else |
| OledConvertor.Convertor.DownloadConverted | oled-convertor/script.js:490-511 | a download is made exactly when there is a result; it holds one byte per UTF-16 unit of the output (the unit itself up to 0xFF, `?` (0x3F) above), and its name comes from the loaded file name and the ROM letter |
| ByteKeys.BinaryKey | oled-convertor/script.js:79-80 | a table key is the binary of the high nibble padded to four digits, an underscore, then the binary of the low nibble |
| ByteKeys.KeyRoundTrip | oled-convertor/data/extract_rom_maps.py:305-306 | reading the two binary halves of a key back gives the byte it was made from |
| ByteKeys.KeyInjective | oled-convertor/data/extract_rom_maps.py:303-306 | distinct bytes get distinct table keys, so no record overwrites another |
| ByteKeys.ByteKeyShape | oled-convertor/data/extract_rom_maps.py:305-306 | the key of a byte is nine characters of binary digits with the underscore at position four |
| ByteKeys.ParseHexLiteral | oled-convertor/script.js:78 | `parseInt(code, 16)` reads a `0x`-prefixed run of hex digits as their value |
| ByteKeys.HexCodeRoundTrip | oled-convertor/data/extract_rom_maps.py:304 | the upper-case `0x` code written for a position parses back to that position |
| RomExtract.NextStep | oled-convertor/data/extract_rom_maps.py:95-146 | every step of the tokenizer that does not stop consumes at least one character, so the scan always ends |
| RomExtract.NameEndUnique | oled-convertor/data/extract_rom_maps.py:110-116 | an identifier token runs up to the first character that cannot continue a name |
| RomExtract.HexEscapeSpec | oled-convertor/data/extract_rom_maps.py:128-135 | the model reads a `\u` escape of up to four characters exactly when it is one to four plain hex digits naming no surrogate, and then gives that code point; a non-hex digit is its own error |
| RomExtract.CommentEndFirst | oled-convertor/data/extract_rom_maps.py:104-108 | a block comment ends at the first `*/` after it starts |
| RomExtract.ReadStep | oled-convertor/data/extract_rom_maps.py:95-146 | one iteration of the tokenizer loop takes exactly the token step the text at that position calls for |
| RomExtract.ScanText | oled-convertor/data/extract_rom_maps.py:95-148 | the tokenizer loop yields exactly the tokens, or the error, of the whole scan |
| RomExtract.StripBraces | oled-convertor/data/extract_rom_maps.py:89-92 | one leading `{` and one trailing `}` are dropped when present, and nothing else changes |
| RomExtract.TokenizeRow | oled-convertor/data/extract_rom_maps.py:84-148 | a row's tokens are the scan of its text without braces |
| RomExtract.ScanShift | oled-convertor/data/extract_rom_maps.py:95-146 | scanning a text from a position past a prefix is the same as scanning the rest alone |
| RomExtract.RowRoundTrip | oled-convertor/data/extract_rom_maps.py:84-148 | a row written as C# source (identifiers, quoted characters with their escapes) tokenizes back to exactly its cells |
| RomExtract.ParseLinesOk | oled-convertor/data/extract_rom_maps.py:167-170 | the map parses exactly when every table row has sixteen readable tokens |
| RomExtract.ParseLinesStops | oled-convertor/data/extract_rom_maps.py:167-170 | the first bad row decides the error: later lines do not matter |
| RomExtract.StoreRowSpec | oled-convertor/data/extract_rom_maps.py:172-179 | storing a row writes each token, with `c_undef` and `c_unmap` replaced by their placeholders, at the byte whose low nibble is the row's and high nibble is the column, and leaves every other byte alone |
| RomExtract.StoreRowMethod | oled-convertor/data/extract_rom_maps.py:172-179 | the store loop over a row's sixteen tokens does exactly what the row store describes |
| RomExtract.ParseLinesCell | oled-convertor/data/extract_rom_maps.py:172-179 | in a parsed map each byte below 256 holds the cell at its column in the last row with its low nibble; bytes without such a row, or not below 256, are absent |
| RomExtract.ParseRomMap | oled-convertor/data/extract_rom_maps.py:151-181 | the parser's result is the row-by-row parse of the tokenized lines |
| RomMaps.ArtBitsValue | oled-convertor/data/extract_rom_maps.py:214-215 | reading the lit and unlit characters of a rendered row back as bits gives the row's value cut to its width |
| RomMaps.RenderRow | oled-convertor/data/extract_rom_maps.py:213-216 | one row is drawn as five characters, most significant bit first, lit or unlit by its bit |
| RomMaps.RenderBitmapAscii | oled-convertor/data/extract_rom_maps.py:209-217 | the art is the pattern's rows drawn one per line, joined by newlines |
| RomMaps.RenderRoundTrip | oled-convertor/data/extract_rom_maps.py:209-217 | splitting the art at newlines gives one line per row, and each line reads back as the low five bits of its row |
| RomMaps.PatchCount | oled-convertor/data/extract_rom_maps.py:220-232 | the count the patch returns is the number of distinct positions it changed |
| RomMaps.ApplyManualMappings | oled-convertor/data/extract_rom_maps.py:220-232 | the method patches each manual position in turn and counts the positions it fills |
| RomMaps.ApplyManualSpec | oled-convertor/data/extract_rom_maps.py:220-232 | a manual mapping replaces a position only when it is `c_unmap`; every other position and the key order stay; the count is the number of positions so filled |
| RomMaps.ApplyManualIdempotent | oled-convertor/data/extract_rom_maps.py:228-231 | applying manual mappings that are real characters a second time changes nothing and counts zero |
| RomMaps.ResolveUnmapped | oled-convertor/data/extract_rom_maps.py:261-286 | the method patches each position of the map in turn against the glyph lookup and counts the positions it resolves |
| RomMaps.ResolveSpec | oled-convertor/data/extract_rom_maps.py:261-286 | a position is replaced exactly when it is `c_unmap` with a lit glyph present in the lookup, and then by that glyph's character; the count is the number of such positions; key order stays |
| RomMaps.AddRomCandidates | oled-convertor/data/extract_rom_maps.py:243-256 | one ROM's positions are added to the glyph lookup in order, first glyph wins |
| RomMaps.BuildBitmapLookup | oled-convertor/data/extract_rom_maps.py:235-258 | the loop over the ROMs builds exactly the first-wins glyph lookup |
| RomMaps.BitmapLookupSpec | oled-convertor/data/extract_rom_maps.py:235-258 | a glyph is in the lookup exactly when some ROM position offers it; it is lit, its character is real, and it is the character of the first position in ROM order that offers it |
| RomMaps.BuildRecords | oled-convertor/data/extract_rom_maps.py:300-340 | the loop builds one record per byte from 0 to 255 |
| RomMaps.RecordsAt | oled-convertor/data/extract_rom_maps.py:302-338 | the records are keyed by the binary key of their byte, in byte order, each the record made from that byte |
| RomMaps.RecordPositions | oled-convertor/data/extract_rom_maps.py:304-306 | a record's hex code and binary key both read back as its decimal position |
| RomMaps.AsciiValueControl | oled-convertor/data/extract_rom_maps.py:323-328 | the ASCII column names a control code exactly for bytes 0x00-0x1F and 0x7F-0x9F, and is the byte's character otherwise |
| RomMaps.RomValueSpec | oled-convertor/data/extract_rom_maps.py:308-320 | the ROM column is the real character, `UNDEFINED` for a missing or `c_undef` position, and `UNMAPPED` for `c_unmap` |
| RomMaps.GridRowOf | oled-convertor/data/extract_rom_maps.py:376-385 | the loop builds exactly the grid row for one low nibble |
| RomMaps.GridRows | oled-convertor/data/extract_rom_maps.py:367-386 | the loops build exactly the grid |
| RomMaps.GridSpec | oled-convertor/data/extract_rom_maps.py:367-386 | the grid is a header plus sixteen rows of seventeen cells; row and column labels are the binary nibbles; each cell is the byte's real character, which is its record's ROM value, or empty |
| RomMaps.RomBManualReal | oled-convertor/data/extract_rom_maps.py:26-81 | every ROM B manual mapping is a real character, never `c_unmap` |
| RomMaps.RomBManualIdempotent | oled-convertor/data/extract_rom_maps.py:449-453 | applying the ROM B manual mappings a second time changes nothing |
| RomMaps.ResolveRom | oled-convertor/data/extract_rom_maps.py:441-447 | one iteration resolves one ROM against the shared lookup and leaves the others as they were |
| RomMaps.ResolveRoms | oled-convertor/data/extract_rom_maps.py:440-447 | the loop resolves every parsed ROM against the shared lookup |
| RomMaps.ResolvedMapSpec | oled-convertor/data/extract_rom_maps.py:441-447 | a parsed ROM keeps its keys, and a position changes exactly when it is resolvable with that ROM's bitmaps |
| RomMaps.ExtractRomMaps | oled-convertor/data/extract_rom_maps.py:436-455 | the output for each ROM is its final map: resolved against the lookup of all ROMs, plus the manual mappings for ROM B |
| RomMaps.FinalMapSpec | oled-convertor/data/extract_rom_maps.py:436-455 | each parsed ROM keeps its keys; only ROM B takes a manual mapping, and only at a position still `c_unmap` after resolution |
| BalticGen.LoadRomReverseLookup | oled-convertor/data/baltic_char_map.py:25-36 | the loop over the ROM records builds exactly the first-wins reverse lookup |
| BalticGen.ReverseOfSpec | oled-convertor/data/baltic_char_map.py:25-36 | a character is in the lookup exactly when some record, not `UNDEFINED` or `UNMAPPED`, holds it, and it maps to the hex code of the first such record |
| BalticGen.BaseLetter | oled-convertor/data/baltic_char_map.py:39-44 | the base letter is the first character of the NFD decomposition, found exactly when that decomposition is non-empty and starts with an ASCII letter |
| BalticGen.CaseKeyOrder | oled-convertor/data/baltic_char_map.py:70 | the sort key puts letters of the character's own case first and orders within each case by code point |
| BalticGen.SortBySpec | oled-convertor/data/baltic_char_map.py:68-70 | the sort returns a permutation of its input, ordered by the sort key |
| BalticGen.CandidatesSpec | oled-convertor/data/baltic_char_map.py:59-66 | the stand-ins are exactly the ROM's other letters with the same base letter, ignoring case, without repeats |
| BalticGen.ComputeFallbacks | oled-convertor/data/baltic_char_map.py:47-76 | the method computes exactly the fallback list of the model |
| BalticGen.FallbacksSpec | oled-convertor/data/baltic_char_map.py:47-76 | a letter without a base gets no fallbacks; otherwise the list has no repeats, holds exactly the stand-ins and the base letter, puts the stand-ins first in case-then-code-point order, and ends with the base letter unless a stand-in already is it |
| BalticGen.CollectLanguage | oled-convertor/data/baltic_char_map.py:115-119 | one language's letters are added to the collection, each recording that language |
| BalticGen.CollectBalticChars | oled-convertor/data/baltic_char_map.py:113-119 | the loop over the languages builds exactly the letter collection of the model |
| BalticGen.AllCharsSpec | oled-convertor/data/baltic_char_map.py:113-119 | the collected letters are exactly the single letters of some language's alphabet, and each lists exactly the languages whose alphabet has it |
| BalticGen.SortedLettersSpec | oled-convertor/data/baltic_char_map.py:123 | the letters are processed once each, in code point order |
| BalticGen.AddCharacter | oled-convertor/data/baltic_char_map.py:123-144 | one iteration adds the entry of the next letter |
| BalticGen.BuildCharacters | oled-convertor/data/baltic_char_map.py:121-144 | the loop builds exactly the entries of the sorted letters |
| BalticGen.CharactersSpec | oled-convertor/data/baltic_char_map.py:121-144 | the character map has the letters as its keys, in order, and each letter's value is its entry |
| BalticGen.EntriesSpec | oled-convertor/data/baltic_char_map.py:129-143 | each letter's entry lists its languages and, per ROM, is available exactly when the ROM has the letter, with its byte code and no fallbacks, and otherwise has no byte code and the computed fallbacks |
| BalticGen.AvailableCountSet | oled-convertor/data/baltic_char_map.py:152 | the available count is the number of letters available in that ROM |
| BalticGen.SummarySpec | oled-convertor/data/baltic_char_map.py:146-158 | the summary counts all letters; per ROM, available and missing add up to that total; the best ROM has the highest availability and is the first in ROM order with it |
| BalticGen.DedupeSpec | oled-convertor/data/baltic_char_map.py:186-192 | dropping repeats keeps each value once, loses none, and keeps the order of first appearance |
| BalticGen.AddOne | oled-convertor/data/baltic_char_map.py:190-192 | a fallback is appended only when not already collected |
| BalticGen.AddNew | oled-convertor/data/baltic_char_map.py:190-192 | one ROM's fallbacks are added without repeats |
| BalticGen.FallbackUnion | oled-convertor/data/baltic_char_map.py:186-192 | the CSV fallback column collects the fallbacks of all three ROMs once each, in order of first appearance |
| BalticGen.CsvRowSpec | oled-convertor/data/baltic_char_map.py:193-202 | a CSV row starts with the letter, and a ROM's byte cell holds the byte code exactly when the letter is available there, or is empty |
| BalticGen.GenerateBalticMap | oled-convertor/data/baltic_char_map.py:103-158 | the generator returns the entries of all collected letters, in code point order, using the first lookup found for each ROM, and their summary |
| LogViewer.ParseTimestamp | script.js:2-15 | a line has a time exactly when the stamp pattern matched somewhere in it |
| LogViewer.TimestampSplit | script.js:2-15 | the parsed time is the clock time in milliseconds with the nanosecond remainder kept below it, so no precision is lost |
| LogViewer.TimestampMonotone | script.js:2-15 | an earlier timestamp always parses to a smaller time |
| LogViewer.LogType | script.js:19-24 | the type is the first of `asp_script_print`, `asp_script_rw_data`, `jb_modem` the line contains, else `default` |
| LogViewer.RoundMsBounds | script.js:64-67 | a time difference is shown as the whole number of milliseconds nearest to it, halves rounded up |
| LogViewer.TimeDiffColor | script.js:177-182 | a difference under 1000 ms is light green, under 3000 yellow, under 6000 orange, and red from 6000 on |
| LogViewer.TimeDiffColorMonotone | script.js:177-182 | a larger difference never gets a milder colour |
| LogViewer.ProcessRows | script.js:58-105 | one table row per line with a timestamp, in order, with its time, its text and its type |
| LogViewer.ProcessTracks | script.js:58-105 | after each line the previous time is the last row's, and each type's last time is that of the last row of that type |
| LogViewer.ProcessDiffs | script.js:64-71 | each row's difference is to the row before it (0 for the first), and its type difference is to the last earlier row of its type (0 when there is none) |
| LogViewer.TableRows | script.js:58-105 | the loop builds exactly the rows of the log processing |
| LogViewer.Pick | script.js:121-125 | a picked log has its row's time in whole milliseconds, rounded down, and the trimmed rendered text (`innerText`) of its type and line cells, with the matched timestamp |
| LogViewer.InsertByTimeSpec | script.js:264-265 | adding a log to the sorted picks puts it after every log with an equal or earlier time and before every later one |
| LogViewer.InsertByTimeSorted | script.js:264-265 | the picks stay sorted and gain exactly the new log |
| LogViewer.InsertedIsDuplicate | script.js:256-262 | a log just added counts as already added, so picking it again does nothing |
| LogViewer.SpliceSpec | script.js:272 | removing at an index in range drops that log, a negative index counts from the end, an index past the end drops nothing |
| LogViewer.SpliceSorted | script.js:272 | removing a log keeps the picks sorted |
| LogViewer.TotalNearSpan | script.js:229-237 | the total shown is within half a millisecond per step of the real span from the first pick to the last |
| LogViewer.EscapeRoundTrip | script.js:332 | doubling the quotes of an entry can be undone, so the CSV field holds the entry exactly |
| LogViewer.EscapeNewlines | script.js:332 | escaping adds no newline and removes none |
| LogViewer.ExportName | script.js:308-309 | a cancelled or empty answer gives the default file name; any other answer is used as given |
| LogViewer.CsvBody | script.js:312-338 | the loop builds exactly the header, one row per picked log, and the total row |
| LogViewer.CsvExportLines | script.js:312-341 | when logs are picked and carry no newlines, the file splits into the header, one line per log in order with its difference, and the total line |
| LogViewer.CsvLinesUnbroken | script.js:312-341 | no line of the CSV contains a newline when no log's type or entry does |
| LogViewer.Viewer.constructor | script.js:168 | the viewer starts with an empty table, no picks and the floating table hidden |
| LogViewer.Viewer.ProcessLogs | script.js:49-58 | the table becomes the processed rows of the lines and the picks are cleared |
| LogViewer.Viewer.AddLog | script.js:254-268 | a log already picked changes nothing; otherwise it is inserted by time, the picks stay sorted, and the floating table is shown |
| LogViewer.Viewer.RemoveLog | script.js:271-277 | the log at the index is removed, the picks stay sorted, and the floating table hides once empty |
| LogViewer.Viewer.ClearFloatingTable | script.js:433-441 | once confirmed the picks are emptied and the table hidden; unconfirmed, nothing changes |
| LogViewer.Viewer.UpdateFloatingTable | script.js:214-251 | each pick's difference to the one before it, and the total of those differences |
| LogViewer.Viewer.ExportFloatingTableLogs | script.js:302-341 | the file offered is the CSV of the picks under the chosen name, or none when nothing is picked |

## Left out

- AssetUpdater.Updater.constructor: the constructor writes no button state; the initial `disabled` flags come from page markup that is not part of this model. The model takes the schedule button as disabled, as `resetForm` sets it, and the file sets button as enabled, since only `scheduleUpdate` disables it.
- UpdateController.ScheduleUpdate: a plan id is absent, a number or a string (`PlanId`). A truthy boolean, object or array id, which `if (planId)` also accepts, and its string form in the activate URL are not represented; the same holds for `AssetUpdater.ActivateUrl`.
- Rendering, event wiring, timers and styling are not modelled: DOM updates, `bindEvents`, `initEventListeners`, `attachEventListeners`, `debounce`, the resize and drag handlers, spinners and toasts as DOM. They only display state the model already holds.
- Network and file access are not modelled; their results are parameters. This covers axios, `fetch`, interceptors, `FileReader`, `fs`, `localStorage`, `alert`, `confirm` and `prompt`.
- Concurrency is not modelled: the `async` ordering, and the asset updater's `isUpdating` guard against a second submit (`publisher/asset-updater.js:106`), which only matters while a run is in flight.
- Floating point is not modelled; times are integer nanoseconds, and `toFixed` output is not produced.
- JavaScript `toLowerCase` is modelled for ASCII letters only (`FileSetManager.Lower`). Case folding beyond ASCII is outside the model.
- `Number()` on a controller id is modelled for optionally signed decimal integers; hex, exponent and fractional forms give no id (`AssetUpdater.JsNumber`).
- `JSON.parse` results are inputs. `JSON.stringify` output, and every CSV or JSON file written, is not spelled out beyond the rows that are modelled.
- Unicode normalization (NFD), `isupper` and the Unicode name lookup are an uninterpreted database (`UnicodeDb`). `get_unicode_name` is not modelled, so the Baltic CSV row has no `name` column, and `RomRecord` has no `rom_unicode_name` or `ascii_unicode_name` field (the two name columns `build_records` writes, oled-convertor/data/extract_rom_maps.py:320-337).
- UTF-16 is modelled only as far as the download needs: the unit count and each unit's byte (the unit itself up to 0xFF, `?` above).
- OLED converter: `escapeHtml` only builds display strings, so it is not modelled. Also left out: the HTML of `renderMappingsTable`, `renderUnmappedList` and `renderRomGrid` (their choices are `GroupUnmapped`, `ChooseAlternative` and `GridChoice`), `saveCustomMappings` (storage write), the download blob and link, and the JSON text of `exportMappings`.
- OLED converter `init`: fetching the three ROM files and the Baltic map. `Convertor.LoadData` receives their parsed contents.
- ROM table extractor: left out are the regex-driven parse of the bitmap files (`parse_bitmap_file`; bitmaps are an input) and the section scan of `main` that finds each ROM's lines (`oled-convertor/data/extract_rom_maps.py:403-420`). Also left out: the JSON/CSV text of `write_outputs` and `write_grid_csv` beyond the records and the grid, the `--verify-bitmaps` printing, and the argument parsing.
- Baltic fallback generator: left out are the JSON and CSV file writing beyond `CsvRow`, the metadata block with its generation timestamp, and console output.
- Log viewer: the regex in `parseCustomTimestamp` is an input, and `processFile` (`FileReader`) is left out. `processLogs` receives the lines already split. Also left out: `filterLogs` (a DOM row filter), `updateSummary` (average via floating point and the most frequent type), `resetLogs`, `setupClipboardPaste`, and the resize and drag handlers.
- Controller update CLI: `updateControllerSettings` is one POST whose outcome is the `settingsOk` field of the replies. Its console and curl logging are not modelled. Also left out: `main`'s loading of the settings file with its built-in default settings (`publisher/update-controller.js:286-305`), the console output and `process.exit`.
- Fleet asset updater: left out are `formatJson`, `loadExampleJson`, `exportConfig`, `importConfig` (JSON text and files), `createAxiosInstance` with its curl logging, `addLog`, `toggleFormControls` and `updateProgress` as DOM.
- Fleet asset updater `validateFirmwareForm`: the checkbox check that runs before `scheduleUpdate` is the `checked` input of the schedule-button rule. The deep copy in `mergeConfigurations` has no counterpart, since values are immutable.
- File-set manager: left out are the stored configuration (`loadConfigFromStorage`, `saveConfigToStorage`, `clearConfigFromStorage`, `exportConfig`, `importConfig`), `deleteFile`, `editFile`, `saveFileEdit`, `showImagePreview`, `updateFilePreview`, `renderFileSetDetail`, `renderFiles`, `showToast` as DOM and `escapeHtml`. These are display code or single requests with no logic of their own.
- File-set manager `uploadFiles`: reloading the detail after an upload is a separate `Manager.LoadFileSetDetail` call. `readFileAsBase64` is `Base64Of` on a data URL supplied as an input.
- AssetUpdater.Updater.Submit: does not model the `isUpdating` re-entry guard; a second submit while a run is in flight is a concurrency matter.
- FileSetManager.Manager.Connect: `ready` states only the three-field emptiness check and the trimmed settings. The follow-up `loadFileSets` is the separate `Manager.LoadFileSets`.
- RomExtract.HexEscape: a `\u` escape naming a surrogate is an error in the model, because a Dafny `char` cannot hold a surrogate; Python's `chr` accepts it. The forms `int(h, 16)` also reads (a sign, surrounding whitespace, a `0x` prefix, `_` separators and non-ASCII digits) are rejected as `BadHexEscape`. `RomExtract.HexEscapeSpec` states the model's reading.
- LogViewer.Pick: `innerText` is a parameter. The browser's rendering of the line as markup (tags dropped, entities decoded, whitespace collapsed) is not modelled.
- OledConvertor.Convertor: the mapping edits (`ApplyModalMapping`, `ApplyDirect`, `ChooseAlternative`, `DeleteMapping`, `ClearMappings`, `ImportMappings`) each end in `renderPreview()` in the source. In the model that re-render is the separate `Convertor.RenderPreview` call, and the edits' contracts leave the conversion result unchanged.
- AssetUpdater.MergeSpec: the key-order clause holds for keys that are not integer-like. JavaScript lists integer-like keys (array indices such as `"0"`) first, in ascending order, and the model keeps plain insertion order for every key.
- AssetUpdater.MergeFromKeys: the same order caveat as `AssetUpdater.MergeSpec` applies to integer-like keys.
- AssetUpdater.MergeKey: the same order caveat as `AssetUpdater.MergeSpec` applies to integer-like keys.
- FileSetManager.FileDataUrl: a truthy `dataBinBase64` that is not a string (a number, an array or an object) gives `null` in the model. The source would put its string form into the URL.
- FileSetManager.Manager.LoadFileSetDetail: a reply that is not `null` is taken to be a detail object; other JSON values are outside the model.
