/** `convertEditorSettings`: walks a raw VS Code configuration in entry order,
    ignores every key outside the TSLint extension's six settings, and sorts
    each known setting's conversion into converted, failed or missing. */
module ConvertEditorSettings {
  import opened EditorSettingTypes
  import opened SettingMaps

  /** `knownEditorSettings`: the only configuration keys that are converted. */
  const KnownEditorSettings: set<string> := {
    "tslint.configFile",
    "tslint.jsEnable",
    "tslint.ignoreDefinitionFiles",
    "tslint.exclude",
    "tslint.alwaysShowRuleFailuresAsWarnings",
    "tslint.suppressWhileTypeErrorsPresent"
  }

  predicate IsKnown(name: string) {
    name in KnownEditorSettings
  }

  /** One `[configurationName, value]` pair of `Object.entries`. */
  type Entry = (string, JsonValue)

  /** The editor setting handed to the converter for an entry. */
  function SettingOf(entry: Entry): (setting: EditorSetting) {
    EditorSetting(entry.0, entry.1)
  }

  /** `EditorSettingConversionResults`. */
  datatype ConversionResults = ConversionResults(
    converted: SettingMap,
    failed: seq<ConversionError>,
    missing: seq<MissingSetting>)

  /** The three accumulators before the first entry. */
  const NoResults: ConversionResults := ConversionResults(Empty, [], [])

  // ---------------------------------------------------------------------
  // The loop as a fold: what one entry does, and all entries in order.
  // ---------------------------------------------------------------------

  /** One iteration of the loop body on the accumulators `acc`. */
  function Step(acc: ConversionResults, entry: Entry, convert: Converter): (r: ConversionResults)
    requires acc.converted.Valid()
    ensures r.converted.Valid()
    ensures acc.converted.KeyedByName() ==> r.converted.KeyedByName()
  {
    if !IsKnown(entry.0) then acc
    else match convert(SettingOf(entry))
      case NotFound => acc.(missing := acc.missing + [MissingSetting(entry.0)])
      case Failed(error) => acc.(failed := acc.failed + [error])
      case Converted(settings) => acc.(converted := SetAll(acc.converted, settings))
  }

  /** The results of the whole loop over `raw`, entry by entry. The converted
      Map is always well formed and keyed by each setting's own name. */
  function ConvertAll(raw: seq<Entry>, convert: Converter): (r: ConversionResults)
    ensures r.converted.Valid()
    ensures r.converted.KeyedByName()
    decreases |raw|
  {
    if raw == [] then NoResults
    else Step(ConvertAll(raw[..|raw| - 1], convert), raw[|raw| - 1], convert)
  }

  /** `convertEditorSettings(dependencies, rawEditorConfiguration, settings)`,
      with the configuration given as its entries and `convert` standing for
      `convertEditorSetting` bound to the converters and settings. */
  method ConvertEditorSettings(rawEditorConfiguration: seq<Entry>, convert: Converter)
    returns (results: ConversionResults)
    ensures results == ConvertAll(rawEditorConfiguration, convert)
  {
    var converted := Empty;
    var failed: seq<ConversionError> := [];
    var missing: seq<MissingSetting> := [];

    for i := 0 to |rawEditorConfiguration|
      invariant converted.Valid()
      invariant ConversionResults(converted, failed, missing)
                == ConvertAll(rawEditorConfiguration[..i], convert)
    {
      var (configurationName, value) := rawEditorConfiguration[i];
      assert rawEditorConfiguration[..i + 1][..i] == rawEditorConfiguration[..i];
      assert ConvertAll(rawEditorConfiguration[..i + 1], convert)
             == Step(ConversionResults(converted, failed, missing), rawEditorConfiguration[i], convert);
      // Keys outside the allow-list are skipped.
      if !IsKnown(configurationName) {
        continue;
      }

      var editorSetting := EditorSetting(configurationName, value);
      var conversion := convert(editorSetting);

      if conversion.NotFound? {
        missing := missing + [MissingSetting(editorSetting.editorSettingName)];
        continue;
      }

      if conversion.Failed? {
        failed := failed + [conversion.error];
        continue;
      }

      ghost var before := converted;
      for j := 0 to |conversion.settings|
        invariant converted.Valid()
        invariant converted == SetAll(before, conversion.settings[..j])
      {
        var changes := conversion.settings[j];
        assert conversion.settings[..j + 1][..j] == conversion.settings[..j];
        converted := converted.Set(changes.editorSettingName, changes);
      }
      assert conversion.settings[..|conversion.settings|] == conversion.settings;
    }
    assert rawEditorConfiguration[..|rawEditorConfiguration|] == rawEditorConfiguration;
    results := ConversionResults(converted, failed, missing);
  }

  // ---------------------------------------------------------------------
  // Reference views of the input: what each accumulator should end up as.
  // ---------------------------------------------------------------------

  /** The entries whose names are on the allow-list, in input order and with
      repeats kept: a single entry is kept iff it is known, and the filter of
      a concatenation is the concatenation of the filters (`KnownEntriesAppend`). */
  function KnownEntries(raw: seq<Entry>): (known: seq<Entry>)
    ensures |known| <= |raw|
    ensures |raw| == 1 ==> known == if IsKnown(raw[0].0) then raw else []
    decreases |raw|
  {
    if raw == [] then []
    else
      var last := raw[|raw| - 1];
      KnownEntries(raw[..|raw| - 1]) + (if IsKnown(last.0) then [last] else [])
  }

  /** An entry is kept iff it is in the input and its name is allow-listed. */
  lemma {:induction false} KnownEntriesExactly(raw: seq<Entry>, e: Entry)
    ensures e in KnownEntries(raw) <==> e in raw && IsKnown(e.0)
    decreases |raw|
  {
    if raw != [] {
      var prefix := raw[..|raw| - 1];
      KnownEntriesExactly(prefix, e);
      assert raw == prefix + [raw[|raw| - 1]];
    }
  }

  /** Filtering is order-preserving: the known entries of `a + b` are those of
      `a` followed by those of `b`. */
  lemma {:induction false} KnownEntriesAppend(a: seq<Entry>, b: seq<Entry>)
    ensures KnownEntries(a + b) == KnownEntries(a) + KnownEntries(b)
    decreases |b|
  {
    if b == [] {
      assert a + b == a;
    } else {
      var ab := a + b;
      var front := b[..|b| - 1];
      assert ab[..|ab| - 1] == a + front;
      var last := b[|b| - 1];
      assert ab[|ab| - 1] == last;
      var tail := if IsKnown(last.0) then [last] else [];
      assert KnownEntries(ab) == KnownEntries(a + front) + tail;
      assert KnownEntries(b) == KnownEntries(front) + tail;
      KnownEntriesAppend(a, front);
    }
  }

  /** The names of the known entries whose converter is absent, in input order. */
  function MissingOf(raw: seq<Entry>, convert: Converter): (r: seq<MissingSetting>)
    decreases |raw|
  {
    if raw == [] then []
    else
      var last := raw[|raw| - 1];
      MissingOf(raw[..|raw| - 1], convert)
        + (if IsKnown(last.0) && convert(SettingOf(last)).NotFound? then [MissingSetting(last.0)] else [])
  }

  /** The errors of the known entries whose conversion failed, in input order. */
  function FailuresOf(raw: seq<Entry>, convert: Converter): (r: seq<ConversionError>)
    decreases |raw|
  {
    if raw == [] then []
    else
      var last := raw[|raw| - 1];
      FailuresOf(raw[..|raw| - 1], convert)
        + (if IsKnown(last.0) && convert(SettingOf(last)).Failed? then [convert(SettingOf(last)).error] else [])
  }

  /** Every setting the converters produced, in processing order. */
  function Produced(raw: seq<Entry>, convert: Converter): (r: seq<EditorSetting>)
    decreases |raw|
  {
    if raw == [] then []
    else
      var last := raw[|raw| - 1];
      Produced(raw[..|raw| - 1], convert)
        + (if IsKnown(last.0) && convert(SettingOf(last)).Converted? then convert(SettingOf(last)).settings else [])
  }

  /** How many known entries converted successfully (possibly to nothing). */
  function ConvertedCount(raw: seq<Entry>, convert: Converter): (r: nat)
    decreases |raw|
  {
    if raw == [] then 0
    else
      var last := raw[|raw| - 1];
      ConvertedCount(raw[..|raw| - 1], convert)
        + (if IsKnown(last.0) && convert(SettingOf(last)).Converted? then 1 else 0)
  }

  // ---------------------------------------------------------------------
  // Properties of the conversion.
  // ---------------------------------------------------------------------

  /** Each accumulator is exactly its reference view: `missing` and `failed`
      are the ordered filters of the input, and `converted` is every produced
      setting written into an empty Map in processing order. */
  lemma {:induction false} ConvertAllCharacterized(raw: seq<Entry>, convert: Converter)
    ensures ConvertAll(raw, convert).missing == MissingOf(raw, convert)
    ensures ConvertAll(raw, convert).failed == FailuresOf(raw, convert)
    ensures ConvertAll(raw, convert).converted == SetAll(Empty, Produced(raw, convert))
    decreases |raw|
  {
    if raw != [] {
      var prefix := raw[..|raw| - 1];
      var last := raw[|raw| - 1];
      ConvertAllCharacterized(prefix, convert);
      if IsKnown(last.0) && convert(SettingOf(last)).Converted? {
        SetAllAppend(Empty, Produced(prefix, convert), convert(SettingOf(last)).settings);
      } else {
        assert Produced(raw, convert) == Produced(prefix, convert) + [];
        assert Produced(prefix, convert) + [] == Produced(prefix, convert);
      }
    }
  }

  /** Each known entry has exactly one outcome and an unknown one has none:
      |missing| + |failed| + (known entries that converted) == |known entries|. */
  lemma {:induction false} OutcomesPartitionKnownEntries(raw: seq<Entry>, convert: Converter)
    ensures |ConvertAll(raw, convert).missing| + |ConvertAll(raw, convert).failed|
            + ConvertedCount(raw, convert) == |KnownEntries(raw)|
    decreases |raw|
  {
    if raw != [] {
      OutcomesPartitionKnownEntries(raw[..|raw| - 1], convert);
    }
  }

  /** Hence no more settings are missing or failed than there are known keys. */
  lemma MissingAndFailedBounded(raw: seq<Entry>, convert: Converter)
    ensures |ConvertAll(raw, convert).missing| + |ConvertAll(raw, convert).failed| <= |KnownEntries(raw)|
  {
    OutcomesPartitionKnownEntries(raw, convert);
  }

  /** What the last entry adds: nothing if its key is unknown; otherwise one
      name appended to `missing`, or its exact error appended to `failed`, or
      its settings written into `converted`, and the other two unchanged. */
  lemma AppendEntry(raw: seq<Entry>, entry: Entry, convert: Converter)
    ensures !IsKnown(entry.0) ==> ConvertAll(raw + [entry], convert) == ConvertAll(raw, convert)
    ensures IsKnown(entry.0) && convert(SettingOf(entry)).NotFound? ==>
              ConvertAll(raw + [entry], convert)
              == ConvertAll(raw, convert).(missing := ConvertAll(raw, convert).missing + [MissingSetting(entry.0)])
    ensures IsKnown(entry.0) && convert(SettingOf(entry)).Failed? ==>
              ConvertAll(raw + [entry], convert)
              == ConvertAll(raw, convert).(failed := ConvertAll(raw, convert).failed + [convert(SettingOf(entry)).error])
    ensures IsKnown(entry.0) && convert(SettingOf(entry)).Converted? ==>
              ConvertAll(raw + [entry], convert)
              == ConvertAll(raw, convert).(converted :=
                   SetAll(ConvertAll(raw, convert).converted, convert(SettingOf(entry)).settings))
  {
    assert (raw + [entry])[..|raw|] == raw;
  }

  /** A setting is missing iff some known input entry of that name has no
      converter. */
  lemma {:induction false} MissingExactly(raw: seq<Entry>, convert: Converter, name: string)
    ensures MissingSetting(name) in ConvertAll(raw, convert).missing
            <==> exists i :: 0 <= i < |raw| && raw[i].0 == name && IsKnown(name)
                             && convert(SettingOf(raw[i])).NotFound?
    decreases |raw|
  {
    ConvertAllCharacterized(raw, convert);
    MissingOfExactly(raw, convert, name);
  }

  lemma {:induction false} MissingOfExactly(raw: seq<Entry>, convert: Converter, name: string)
    ensures MissingSetting(name) in MissingOf(raw, convert)
            <==> exists i :: 0 <= i < |raw| && raw[i].0 == name && IsKnown(name)
                             && convert(SettingOf(raw[i])).NotFound?
    decreases |raw|
  {
    if raw != [] {
      var prefix := raw[..|raw| - 1];
      MissingOfExactly(prefix, convert, name);
      if exists i :: 0 <= i < |raw| && raw[i].0 == name && IsKnown(name) && convert(SettingOf(raw[i])).NotFound? {
        var i :| 0 <= i < |raw| && raw[i].0 == name && IsKnown(name) && convert(SettingOf(raw[i])).NotFound?;
        if i < |raw| - 1 {
          assert prefix[i] == raw[i];
        }
      }
      if exists i :: 0 <= i < |prefix| && prefix[i].0 == name && IsKnown(name) && convert(SettingOf(prefix[i])).NotFound? {
        var i :| 0 <= i < |prefix| && prefix[i].0 == name && IsKnown(name) && convert(SettingOf(prefix[i])).NotFound?;
        assert raw[i] == prefix[i];
      }
    }
  }

  /** An error is in `failed` iff some known input entry failed with exactly
      that error. */
  lemma {:induction false} FailedExactly(raw: seq<Entry>, convert: Converter, error: ConversionError)
    ensures error in ConvertAll(raw, convert).failed
            <==> exists i :: 0 <= i < |raw| && IsKnown(raw[i].0) && convert(SettingOf(raw[i])) == Failed(error)
  {
    ConvertAllCharacterized(raw, convert);
    FailuresOfExactly(raw, convert, error);
  }

  lemma {:induction false} FailuresOfExactly(raw: seq<Entry>, convert: Converter, error: ConversionError)
    ensures error in FailuresOf(raw, convert)
            <==> exists i :: 0 <= i < |raw| && IsKnown(raw[i].0) && convert(SettingOf(raw[i])) == Failed(error)
    decreases |raw|
  {
    if raw != [] {
      var prefix := raw[..|raw| - 1];
      FailuresOfExactly(prefix, convert, error);
      if exists i :: 0 <= i < |raw| && IsKnown(raw[i].0) && convert(SettingOf(raw[i])) == Failed(error) {
        var i :| 0 <= i < |raw| && IsKnown(raw[i].0) && convert(SettingOf(raw[i])) == Failed(error);
        if i < |raw| - 1 {
          assert prefix[i] == raw[i];
        }
      }
      if exists i :: 0 <= i < |prefix| && IsKnown(prefix[i].0) && convert(SettingOf(prefix[i])) == Failed(error) {
        var i :| 0 <= i < |prefix| && IsKnown(prefix[i].0) && convert(SettingOf(prefix[i])) == Failed(error);
        assert raw[i] == prefix[i];
      }
    }
  }

  /** Last writer wins across the whole run: a name is a key of `converted`
      iff some produced setting carries it, and then it holds the last such
      setting in processing order. Keys iterate in first-produced order. */
  lemma ConvertedLastWriterWins(raw: seq<Entry>, convert: Converter, k: string)
    ensures k in ConvertAll(raw, convert).converted.entries <==> k in Names(Produced(raw, convert))
    ensures k in Names(Produced(raw, convert)) ==>
              exists i :: IsLastNamed(Produced(raw, convert), i, k)
                          && ConvertAll(raw, convert).converted.entries[k] == Produced(raw, convert)[i]
    ensures FirstSeenOrder(ConvertAll(raw, convert).converted.keys, Names(Produced(raw, convert)))
  {
    ConvertAllCharacterized(raw, convert);
    SetAllLastWriterWins(Empty, Produced(raw, convert), k);
    SetAllKeyOrder(Produced(raw, convert));
  }

  /** Unknown keys are skipped entirely: dropping them from the input changes
      nothing. */
  lemma {:induction false} UnknownKeysIgnored(raw: seq<Entry>, convert: Converter)
    ensures ConvertAll(raw, convert) == ConvertAll(KnownEntries(raw), convert)
    decreases |raw|
  {
    if raw != [] {
      var prefix := raw[..|raw| - 1];
      var last := raw[|raw| - 1];
      UnknownKeysIgnored(prefix, convert);
      if IsKnown(last.0) {
        var k := KnownEntries(prefix) + [last];
        assert k[..|k| - 1] == KnownEntries(prefix);
      } else {
        assert KnownEntries(raw) == KnownEntries(prefix) + [];
        assert KnownEntries(prefix) + [] == KnownEntries(prefix);
      }
    }
  }

  /** The converter is consulted only on known settings of the input: two
      converters that agree there give identical results, so the results are
      determined by the entry order and those answers alone. */
  lemma {:induction false} ConverterOnlyAskedAboutKnownSettings(raw: seq<Entry>, c1: Converter, c2: Converter)
    requires forall i :: 0 <= i < |raw| && IsKnown(raw[i].0) ==> c1(SettingOf(raw[i])) == c2(SettingOf(raw[i]))
    ensures ConvertAll(raw, c1) == ConvertAll(raw, c2)
    decreases |raw|
  {
    if raw != [] {
      var prefix := raw[..|raw| - 1];
      assert forall i :: 0 <= i < |prefix| ==> prefix[i] == raw[i];
      ConverterOnlyAskedAboutKnownSettings(prefix, c1, c2);
    }
  }

  /** A configuration without any of the six keys yields empty results. */
  lemma {:induction false} NoKnownKeysNoResults(raw: seq<Entry>, convert: Converter)
    requires forall i :: 0 <= i < |raw| ==> !IsKnown(raw[i].0)
    ensures ConvertAll(raw, convert) == NoResults
    decreases |raw|
  {
    if raw != [] {
      var prefix := raw[..|raw| - 1];
      assert forall i :: 0 <= i < |prefix| ==> prefix[i] == raw[i];
      NoKnownKeysNoResults(prefix, convert);
    }
  }

  /** Configuration keys are distinct, as `Object.entries` yields them. */
  ghost predicate DistinctNames(raw: seq<Entry>) {
    forall i, j :: 0 <= i < j < |raw| ==> raw[i].0 != raw[j].0
  }

  /** With distinct input keys, no setting is reported missing twice. */
  lemma {:induction false} MissingNamesDistinct(raw: seq<Entry>, convert: Converter)
    requires DistinctNames(raw)
    ensures forall i, j :: 0 <= i < j < |ConvertAll(raw, convert).missing| ==>
              ConvertAll(raw, convert).missing[i] != ConvertAll(raw, convert).missing[j]
    decreases |raw|
  {
    if raw != [] {
      var prefix := raw[..|raw| - 1];
      var last := raw[|raw| - 1];
      var m := ConvertAll(prefix, convert).missing;
      assert DistinctNames(prefix);
      MissingNamesDistinct(prefix, convert);
      if IsKnown(last.0) && convert(SettingOf(last)).NotFound? {
        MissingExactly(prefix, convert, last.0);
        assert MissingSetting(last.0) !in m;
      }
    }
  }

  /** One known entry that converts to a single setting yields a Map holding
      just that setting, and nothing else. */
  lemma SingleConversion(a: Entry, s: EditorSetting, convert: Converter)
    requires IsKnown(a.0) && convert(SettingOf(a)) == Converted([s])
    ensures ConvertAll([a], convert)
            == ConversionResults(SettingMap([s.editorSettingName], map[s.editorSettingName := s]), [], [])
  {
    assert [a][..0] == [];
    SetAllSingle(Empty, s);
  }

  /** Setting `sb` into a Map whose only key is `sb`'s name replaces the entry. */
  lemma OverwriteSingle(n: string, sa: EditorSetting, sb: EditorSetting)
    requires sb.editorSettingName == n
    ensures SettingMap([n], map[n := sa]).Valid()
    ensures SetAll(SettingMap([n], map[n := sa]), [sb]) == SettingMap([n], map[n := sb])
  {
    SetAllSingle(SettingMap([n], map[n := sa]), sb);
  }

  /** Two known entries converted to settings of the same name: the later
      entry's setting is kept and nothing is recorded as an error. */
  lemma LaterSettingWins(a: Entry, b: Entry, sa: EditorSetting, sb: EditorSetting, convert: Converter)
    requires IsKnown(a.0) && IsKnown(b.0)
    requires convert(SettingOf(a)) == Converted([sa]) && convert(SettingOf(b)) == Converted([sb])
    requires sa.editorSettingName == sb.editorSettingName
    ensures ConvertAll([a, b], convert).converted.entries == map[sb.editorSettingName := sb]
    ensures ConvertAll([a, b], convert).converted.keys == [sb.editorSettingName]
    ensures ConvertAll([a, b], convert).failed == [] && ConvertAll([a, b], convert).missing == []
  {
    var n := sb.editorSettingName;
    var first := ConvertAll([a], convert);
    SingleConversion(a, sa, convert);
    assert [a, b][..1] == [a];
    var r := ConvertAll([a, b], convert);
    assert r == Step(first, b, convert);
    OverwriteSingle(n, sa, sb);
    assert r == ConversionResults(SettingMap([n], map[n := sb]), [], []);
  }
}
