/** The JavaScript `Map<string, EditorSetting>` that collects converted
    settings: a dictionary whose keys remember the order in which they were
    first set. */
module SettingMaps {
  import opened EditorSettingTypes

  /** `keys` is the Map's iteration order, `entries` its contents. */
  datatype SettingMap = SettingMap(keys: seq<string>, entries: map<string, EditorSetting>) {

    /** Each key is listed once, and exactly the stored keys are listed. */
    ghost predicate Valid() {
      && (forall i, j :: 0 <= i < j < |keys| ==> keys[i] != keys[j])
      && (forall k :: k in entries <==> k in keys)
    }

    /** Every entry is stored under its own `editorSettingName`. */
    ghost predicate KeyedByName() {
      forall k :: k in entries ==> entries[k].editorSettingName == k
    }

    /** `Map.prototype.set`; what it does is stated by `SetSemantics`. */
    function Set(k: string, v: EditorSetting): (r: SettingMap)
      requires Valid()
      ensures r.Valid()
    {
      SettingMap(if k in entries then keys else keys + [k], entries[k := v])
    }
  }

  /** After `m.set(k, v)` the key maps to `v` and every other key is
      untouched; an existing key keeps its position and a new key goes last. */
  lemma SetSemantics(m: SettingMap, k: string, v: EditorSetting)
    requires m.Valid()
    ensures k in m.Set(k, v).entries && m.Set(k, v).entries[k] == v
    ensures forall j :: j != k ==> (j in m.Set(k, v).entries <==> j in m.entries)
    ensures forall j :: j != k && j in m.entries ==> m.Set(k, v).entries[j] == m.entries[j]
    ensures |m.keys| <= |m.Set(k, v).keys| && m.Set(k, v).keys[..|m.keys|] == m.keys
    ensures k in m.entries ==> m.Set(k, v).keys == m.keys
    ensures k !in m.entries ==> m.Set(k, v).keys == m.keys + [k]
  {
  }

  /** `new Map()`. */
  const Empty: SettingMap := SettingMap([], map[])

  /** The names of a sequence of settings, in order. */
  function Names(settings: seq<EditorSetting>): (names: seq<string>) {
    seq(|settings|, i requires 0 <= i < |settings| => settings[i].editorSettingName)
  }

  /** Names of a sequence with one more setting: the old names, then its name. */
  lemma NamesSnoc(settings: seq<EditorSetting>)
    requires settings != []
    ensures Names(settings) == Names(settings[..|settings| - 1]) + [settings[|settings| - 1].editorSettingName]
  {
    var prefix := settings[..|settings| - 1];
    assert forall i :: 0 <= i < |prefix| ==> Names(settings)[i] == Names(prefix)[i];
  }

  /** A name is listed iff some setting carries it. */
  lemma {:induction false} NamesExactly(settings: seq<EditorSetting>, k: string)
    ensures k in Names(settings) <==> exists i :: 0 <= i < |settings| && settings[i].editorSettingName == k
    decreases |settings|
  {
    if settings != [] {
      var prefix := settings[..|settings| - 1];
      NamesSnoc(settings);
      NamesExactly(prefix, k);
      if exists i :: 0 <= i < |settings| && settings[i].editorSettingName == k {
        var i :| 0 <= i < |settings| && settings[i].editorSettingName == k;
        if i < |prefix| {
          assert prefix[i] == settings[i];
        }
      }
      if exists i :: 0 <= i < |prefix| && prefix[i].editorSettingName == k {
        var i :| 0 <= i < |prefix| && prefix[i].editorSettingName == k;
        assert settings[i] == prefix[i];
      }
    }
  }

  /** `m.set(s.editorSettingName, { ...s })` for every `s` of `settings`, in order. */
  function SetAll(m: SettingMap, settings: seq<EditorSetting>): (r: SettingMap)
    requires m.Valid()
    ensures r.Valid()
    ensures m.KeyedByName() ==> r.KeyedByName()
    decreases |settings|
  {
    if settings == [] then m
    else
      var last := settings[|settings| - 1];
      SetAll(m, settings[..|settings| - 1]).Set(last.editorSettingName, last)
  }

  /** Setting a single setting is one `set`. */
  lemma SetAllSingle(m: SettingMap, s: EditorSetting)
    requires m.Valid()
    ensures SetAll(m, [s]) == m.Set(s.editorSettingName, s)
  {
    assert [s][..0] == [];
  }

  /** Setting a concatenation is setting the first part, then the second. */
  lemma {:induction false} SetAllAppend(m: SettingMap, a: seq<EditorSetting>, b: seq<EditorSetting>)
    requires m.Valid()
    ensures SetAll(m, a + b) == SetAll(SetAll(m, a), b)
    decreases |b|
  {
    if b == [] {
      assert a + b == a;
    } else {
      var ab := a + b;
      var front := b[..|b| - 1];
      var last := b[|b| - 1];
      assert ab[..|ab| - 1] == a + front;
      assert ab[|ab| - 1] == last;
      assert SetAll(m, ab) == SetAll(m, a + front).Set(last.editorSettingName, last);
      SetAllAppend(m, a, front);
      assert SetAll(SetAll(m, a), b) == SetAll(SetAll(m, a), front).Set(last.editorSettingName, last);
    }
  }

  /** `settings[i]` is the last setting of `settings` named `k`. */
  ghost predicate IsLastNamed(settings: seq<EditorSetting>, i: int, k: string) {
    && 0 <= i < |settings|
    && settings[i].editorSettingName == k
    && forall j :: i < j < |settings| ==> settings[j].editorSettingName != k
  }

  /** Last writer wins: after setting `settings` into `m`, a key is present iff
      it was already present or some setting carries that name; a name that
      some setting carries maps to the last such setting, and any other key
      keeps its old entry. */
  lemma {:induction false} SetAllLastWriterWins(m: SettingMap, settings: seq<EditorSetting>, k: string)
    requires m.Valid()
    ensures k in SetAll(m, settings).entries <==> k in m.entries || k in Names(settings)
    ensures k in Names(settings) ==>
              exists i :: IsLastNamed(settings, i, k) && SetAll(m, settings).entries[k] == settings[i]
    ensures k !in Names(settings) && k in m.entries ==> SetAll(m, settings).entries[k] == m.entries[k]
    decreases |settings|
  {
    if settings != [] {
      var n := |settings|;
      var prefix := settings[..n - 1];
      var last := settings[n - 1];
      var p := SetAll(m, prefix);
      SetAllLastWriterWins(m, prefix, k);
      NamesSnoc(settings);
      assert SetAll(m, settings) == p.Set(last.editorSettingName, last);
      if last.editorSettingName == k {
        assert IsLastNamed(settings, n - 1, k);
      } else if k in Names(prefix) {
        var i :| IsLastNamed(prefix, i, k) && p.entries[k] == prefix[i];
        assert settings[i] == prefix[i];
        forall j | i < j < n ensures settings[j].editorSettingName != k {
          if j < n - 1 {
            assert settings[j] == prefix[j];
          }
        }
        assert IsLastNamed(settings, i, k);
      }
    }
  }

  /** The position of the first occurrence of `k` in `names`. */
  function FirstIndex(names: seq<string>, k: string): (i: nat)
    requires k in names
    ensures i < |names| && names[i] == k
    ensures forall j :: 0 <= j < i ==> names[j] != k
  {
    if names[0] == k then 0 else 1 + FirstIndex(names[1..], k)
  }

  lemma {:induction false} FirstIndexOfPrefix(names: seq<string>, more: seq<string>, k: string)
    requires k in names
    ensures FirstIndex(names + more, k) == FirstIndex(names, k)
  {
    var i := FirstIndex(names, k);
    var i' := FirstIndex(names + more, k);
    assert (names + more)[i] == k;
    assert i' <= i;
  }

  /** `keys` lists exactly the members of `names`, each in the order of its
      first occurrence there. */
  ghost predicate FirstSeenOrder(keys: seq<string>, names: seq<string>) {
    && (forall k :: k in keys ==> k in names)
    && (forall k :: k in names ==> k in keys)
    && (forall a, b :: 0 <= a < b < |keys| ==> FirstIndex(names, keys[a]) < FirstIndex(names, keys[b]))
  }

  /** Appending one name keeps the first-seen order, whether the name is new
      (it goes last) or already listed (nothing moves). */
  lemma FirstSeenOrderAppend(keys: seq<string>, names: seq<string>, x: string)
    requires FirstSeenOrder(keys, names)
    ensures FirstSeenOrder(if x in keys then keys else keys + [x], names + [x])
  {
    var names' := names + [x];
    forall k | k in names ensures FirstIndex(names', k) == FirstIndex(names, k) {
      FirstIndexOfPrefix(names, [x], k);
    }
    if x !in keys {
      var keys' := keys + [x];
      assert x !in names;
      assert FirstIndex(names', x) == |names|;
      forall a, b | 0 <= a < b < |keys'|
        ensures FirstIndex(names', keys'[a]) < FirstIndex(names', keys'[b])
      {
        if b == |keys| {
          assert keys'[a] == keys[a] && keys[a] in names;
        } else {
          assert keys'[a] == keys[a] && keys'[b] == keys[b];
        }
      }
    }
  }

  /** Starting from an empty Map, the iteration order is the order in which the
      names first appear among the settings. */
  lemma {:induction false} SetAllKeyOrder(settings: seq<EditorSetting>)
    ensures FirstSeenOrder(SetAll(Empty, settings).keys, Names(settings))
    decreases |settings|
  {
    if settings != [] {
      var n := |settings|;
      var prefix := settings[..n - 1];
      var last := settings[n - 1];
      var p := SetAll(Empty, prefix);
      var x := last.editorSettingName;
      SetAllKeyOrder(prefix);
      NamesSnoc(settings);
      assert SetAll(Empty, settings) == p.Set(x, last);
      assert p.Set(x, last).keys == if x in p.keys then p.keys else p.keys + [x];
      FirstSeenOrderAppend(p.keys, Names(prefix), x);
    }
  }
}
