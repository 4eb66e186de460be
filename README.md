# Editor-settings conversion of tslint-to-eslint-config, in Dafny

tslint-to-eslint-config migrates a project from TSLint to ESLint. One
step reads the project's VS Code editor configuration. It picks out the
settings of the TSLint extension and converts each one into the
equivalent ESLint-extension settings. That step is `convertEditorSettings`.

`convertEditorSettings` walks the configuration's entries in order and
drops every key outside a fixed allow-list of six `tslint.*` names. It
passes each remaining setting to a per-setting converter. The outcome of
each setting is recorded in one of three accumulators:

- `missing`: the setting's name alone, when no converter exists (`undefined`);
- `failed`: the `ConversionError`, when the converter rejects the setting;
- `converted`: a `Map` that receives each produced setting, keyed by its own
  name (`Map.set`: a repeated key keeps its first position and takes the
  last value).

The model has three modules:

- `EditorSettingTypes` (`editor_setting_types.dfy`): configuration values,
  `EditorSetting`, `ConversionError`, the missing-setting record, and the
  converter's three-way answer `Conversion = NotFound | Failed | Converted`.
  The converter is a function parameter `Converter = EditorSetting -> Conversion`.
- `SettingMaps` (`setting_maps.dfy`): the insertion-ordered `Map` as a
  sequence of keys plus a map, `Map.prototype.set`, and the effect of
  setting a whole sequence of settings. The lemmas cover last-writer-wins
  and first-seen key order.
- `ConvertEditorSettings` (`convert_editor_settings.dfy`): the allow-list,
  the loop as an imperative method with nested `for` loops and `continue`s,
  and the same loop as a fold (`Step`, `ConvertAll`). The method is proved
  equal to the fold. Lemmas then relate the fold to independent reference
  views of the input (the ordered filters `MissingOf`, `FailuresOf` and
  `Produced`, and `KnownEntries`).

The raw configuration is the sequence of `[name, value]` pairs that
`Object.entries` yields, in that order.

## Model

| member | source | states |
|---|---|---|
| `SettingMaps.SettingMap.Set` | src/editorSettings/convertEditorSettings.ts:61 | `converted.set(...)` keeps the Map well formed: every key is listed once, and exactly the stored keys are listed |
| `SettingMaps.SetSemantics` | src/editorSettings/convertEditorSettings.ts:61 | after `set(k, v)`, `k` maps to `v` and every other key keeps its presence and value; an existing key keeps its position, and a new key is appended last |
| `SettingMaps.SetAll` | src/editorSettings/convertEditorSettings.ts:60-62 | setting a list of produced settings keeps the Map well formed, and keeps every entry stored under its own `editorSettingName` |
| `SettingMaps.SetAllAppend` | src/editorSettings/convertEditorSettings.ts:60-62 | setting `a + b` equals setting `a` and then `b`, so writes from several input settings compose in processing order |
| `SettingMaps.SetAllLastWriterWins` | src/editorSettings/convertEditorSettings.ts:60-62 | a key is present iff it was already present or some produced setting has that name; it then holds the last such setting, and a key no setting names keeps its old entry |
| `SettingMaps.NamesExactly` | src/editorSettings/convertEditorSettings.ts:60-61 | a name is among the produced names iff some produced setting carries it, which links the `editorSettingName` key of each `set` to the settings |
| `SettingMaps.SetAllKeyOrder` | src/editorSettings/convertEditorSettings.ts:60-62 | starting from an empty Map, the keys are exactly the produced names, ordered by each name's first occurrence |
| `ConvertEditorSettings.Step` | src/editorSettings/convertEditorSettings.ts:39-63 | one loop iteration keeps the converted Map well formed and keyed by name |
| `ConvertEditorSettings.ConvertAll` | src/editorSettings/convertEditorSettings.ts:30-66 | after the whole loop, every key `k` of `converted` satisfies `converted[k].editorSettingName == k`, and the Map is well formed |
| `ConvertEditorSettings.ConvertEditorSettings` | src/editorSettings/convertEditorSettings.ts:30-66 | the imperative loop (skip unknown keys, push to `missing` or `failed`, inner `set` loop) returns exactly the fold `ConvertAll`; the result is a function of the entry order and the converter alone |
| `ConvertEditorSettings.KnownEditorSettings` | src/editorSettings/convertEditorSettings.ts:8-15 | the allow-list: exactly the six `tslint.*` setting names that are converted |
| `ConvertEditorSettings.KnownEntries` | src/editorSettings/convertEditorSettings.ts:42-44 | the filter that the `knownEditorSettings.has` test applies: a single entry is kept iff its name is on the allow-list, and the result is never longer than the input |
| `ConvertEditorSettings.KnownEntriesAppend` | src/editorSettings/convertEditorSettings.ts:42-44 | the filter preserves order and repetitions: the known entries of `a + b` are those of `a` followed by those of `b` |
| `ConvertEditorSettings.KnownEntriesExactly` | src/editorSettings/convertEditorSettings.ts:42-44 | an entry is kept iff it occurs in the input and its name is on the allow-list |
| `ConvertEditorSettings.ConvertAllCharacterized` | src/editorSettings/convertEditorSettings.ts:47-62 | `missing` is the ordered list of names of known entries without a converter; `failed` is the ordered list of errors of known entries that failed; `converted` is every produced setting written into an empty Map in processing order |
| `ConvertEditorSettings.OutcomesPartitionKnownEntries` | src/editorSettings/convertEditorSettings.ts:47-62 | each known entry has exactly one outcome: \|missing\| + \|failed\| + (entries that converted) equals the number of known entries |
| `ConvertEditorSettings.MissingAndFailedBounded` | src/editorSettings/convertEditorSettings.ts:47-62 | \|missing\| + \|failed\| is at most the number of known keys in the input |
| `ConvertEditorSettings.AppendEntry` | src/editorSettings/convertEditorSettings.ts:42-62 | processing one more entry changes nothing if its key is unknown; otherwise it appends one name to `missing`, or appends the converter's exact error to `failed`, or writes its settings into `converted`, and leaves the other two accumulators unchanged |
| `ConvertEditorSettings.MissingExactly` | src/editorSettings/convertEditorSettings.ts:49-53 | a name is in `missing` iff some known input entry with that name has no converter |
| `ConvertEditorSettings.MissingOfExactly` | src/editorSettings/convertEditorSettings.ts:49-53 | the same iff, stated for the reference filter `MissingOf` |
| `ConvertEditorSettings.FailedExactly` | src/editorSettings/convertEditorSettings.ts:55-58 | an error is in `failed` iff some known input entry's conversion failed with exactly that error |
| `ConvertEditorSettings.FailuresOfExactly` | src/editorSettings/convertEditorSettings.ts:55-58 | the same iff, stated for the reference filter `FailuresOf` |
| `ConvertEditorSettings.ConvertedLastWriterWins` | src/editorSettings/convertEditorSettings.ts:60-62 | a name is a key of `converted` iff some produced setting has it; the key holds the last such setting in processing order, whether the settings came from one input setting or several; keys iterate in first-produced order |
| `ConvertEditorSettings.UnknownKeysIgnored` | src/editorSettings/convertEditorSettings.ts:42-44 | dropping every non-allow-listed entry from the input leaves the results unchanged |
| `ConvertEditorSettings.ConverterOnlyAskedAboutKnownSettings` | src/editorSettings/convertEditorSettings.ts:42-47 | two converters that agree on the known settings of the input give identical results, so the converter's answers on unknown keys never matter |
| `ConvertEditorSettings.NoKnownKeysNoResults` | src/editorSettings/convertEditorSettings.ts:35-44 | an input without any allow-listed key yields an empty `converted`, `failed` and `missing` |
| `ConvertEditorSettings.MissingNamesDistinct` | src/editorSettings/convertEditorSettings.ts:49-53 | when the input keys are distinct (as an object's keys are), no name appears twice in `missing` |
| `ConvertEditorSettings.LaterSettingWins` | src/editorSettings/convertEditorSettings.ts:60-62 | two known settings that each convert to a setting of the same name leave only the later one in `converted`, under that single key, and record no failure or missing entry |

## Left out

- `convertEditorSetting` and the `editorSettingsConverters` registry are not part of this model. They and the `settings` argument together form the `convert` parameter, a total pure function of the editor setting.
- The internals of `ConversionError` (its fields and the `ErrorSummary` it implements) are not part of this model. An error is an opaque value that flows unchanged into `failed`.
- The configuration object is given as its `Object.entries` sequence. JavaScript's key-order rules (integer-like keys first, then insertion order) are not modelled; the six dotted names are never integer-like.
- Configuration values are an opaque JSON-like datatype. Numbers are exact reals, not IEEE doubles. The loop never inspects values.
- The `Map` and the two arrays are local to the call and are returned as its result. The model therefore keeps them as values that the loop reassigns, with no object identity. The object spread `{ ...changes }` is a copy, and a copy is the same value.
- Determinism is stated as "the result equals a function of the inputs" and through `ConverterOnlyAskedAboutKnownSettings`, not as a separate two-call lemma.
- src/cli/main.ts only wires dependencies together, and src/creation/writeConversionResults.test.ts exercises file writing. Neither has logic of this step. The rule-conversion and merge engine they reference is not part of this model.
