/** Values handled by the editor-settings conversion: raw VS Code configuration
    values, editor settings, and what a per-setting converter can answer. */
module EditorSettingTypes {

  /** Any value a JSON editor configuration can hold. The conversion loop never
      inspects it; it only hands it to the converter. */
  datatype JsonValue =
    | JNull
    | JBool(b: bool)
    | JNumber(n: real)
    | JString(s: string)
    | JArray(items: seq<JsonValue>)
    | JObject(fields: seq<(string, JsonValue)>)

  /** `EditorSetting`: one named editor setting and its value. */
  datatype EditorSetting = EditorSetting(editorSettingName: string, value: JsonValue)

  /** `ConversionError`: a converter's rejection, carried as data. Its
      internals are not part of this model beyond a summary text. */
  datatype ConversionError = ConversionError(summary: string)

  /** `Pick<EditorSetting, "editorSettingName">`: a setting recorded by name only. */
  datatype MissingSetting = MissingSetting(editorSettingName: string)

  /** The three answers of `convertEditorSetting`: `undefined` (no converter
      for this setting), a `ConversionError`, or the produced settings. */
  datatype Conversion =
    | NotFound
    | Failed(error: ConversionError)
    | Converted(settings: seq<EditorSetting>)

  /** `convertEditorSetting` with the converter registry and the TSLint-to-ESLint
      settings already applied: a pure function of the editor setting. */
  type Converter = EditorSetting -> Conversion
}
