/**
 * Config: settings read lazily from an INI file with sections. The file is
 * parsed on the first `get` and again on every later `get` for as long as
 * no parse has produced an array; `get` answers a whole section or one key
 * of it.
 *
 * The file system is an input: a map from file name to the result of
 * parsing that file, absent when the file does not exist.
 */
module Configs {
  import opened Php
  import opened SqlText

  /** A top-level INI entry: a plain value, or a section of values. */
  datatype Entry = Scalar(value: string) | Section(values: map<string, string>)

  type Ini = map<string, Entry>

  /** What the files hold: None when `parse_ini_file` fails and returns false. */
  type Disk = map<string, Option<Ini>>

  /** The static `$config`: never loaded (NULL), a failed parse (false), or the parsed array. */
  datatype Store = Unloaded | Failed | Loaded(ini: Ini)

  /** What `get` answers: a whole top-level entry, or one value of a section. */
  datatype Answer = Whole(entry: Entry) | Value(value: string)

  function NoFile(name: string): string
  {
    "Could not find config file " + name
  }

  function NoSection(section: string): string
  {
    "Could not find section " + section + " in config!"
  }

  function NoKey(section: string, key: string): string
  {
    "Could not find key " + key + " from section " + section + " in config!"
  }

  /** `loadConfig`: raises when the file is missing, otherwise stores what the parse gives. */
  function LoadConfig(name: string, disk: Disk): (r: Result<Store, string>)
    ensures r.Err? <==> name !in disk
    ensures r.Err? ==> r.error == NoFile(name)
    ensures r.Ok? ==> (r.value.Loaded? <==> disk[name].Some?)
  {
    if name !in disk then Err(NoFile(name))
    else if disk[name].Some? then Ok(Loaded(disk[name].value)) else Ok(Failed)
  }

  /** The guard at the top of `get`: load only while the store is not an array. */
  function Ensure(store: Store, name: string, disk: Disk): Result<Store, string>
  {
    if store.Loaded? then Ok(store) else LoadConfig(name, disk)
  }

  /**
   * The character index a key names when the entry is a string: PHP reads
   * `$string[$key]` as a string offset when the key is plain decimal text.
   */
  function Offset(key: string): (r: Option<nat>)
    ensures r.Some? ==> Digits(r.value) == key
  {
    if Canonical(key) then
      DigitValueRoundTrip(key);
      Some(DigitValue(key))
    else None
  }

  /** Every plain decimal key names its own index: with `Offset`'s ensures, Offset(k) == Some(n) exactly when k is the text of n. */
  lemma OffsetOfDigits(n: nat)
    ensures Offset(Digits(n)) == Some(n)
  {
    DigitsCanonical(n);
    DigitsRoundTrip(n);
  }

  /** The key of `get` names something: a key of a section, or a character of a string entry. */
  predicate Holds(entry: Entry, key: string)
  {
    || (entry.Section? && key in entry.values)
    || (entry.Scalar? && Offset(key).Some? && Offset(key).value < |entry.value|)
  }

  /** The section and key checks of `get` on a store that is now in place. */
  function Lookup(store: Store, section: string, key: string): (r: Result<Answer, string>)
    ensures r.Ok? ==> store.Loaded? && section in store.ini
    ensures !(store.Loaded? && section in store.ini) ==> r == Err(NoSection(section))
  {
    if !(store.Loaded? && section in store.ini) then Err(NoSection(section))
    else
      var entry := store.ini[section];
      if Empty(key) then Ok(Whole(entry))
      else if !Holds(entry, key) then Err(NoKey(section, key))
      else if entry.Section? then Ok(Value(entry.values[key]))
      else Ok(Value([entry.value[Offset(key).value]]))
  }

  /** The whole of `get`: the store afterwards and the answer. */
  function Retrieve(store: Store, name: string, disk: Disk, section: string, key: string): (Store, Result<Answer, string>)
  {
    var s := Ensure(store, name, disk);
    if s.Err? then (store, Err(s.error)) else (s.value, Lookup(s.value, section, key))
  }

  /**
   * Once a parse has produced an array it is never replaced: later calls
   * neither read the file nor depend on the file name or the files.
   */
  lemma LoadedOnce(ini: Ini, name: string, name': string, disk: Disk, disk': Disk, section: string, key: string)
    ensures Retrieve(Loaded(ini), name, disk, section, key) == Retrieve(Loaded(ini), name', disk', section, key)
    ensures Retrieve(Loaded(ini), name, disk, section, key).0 == Loaded(ini)
  {
  }

  /**
   * Before a successful parse every call tries the current file again: a
   * missing file raises and leaves the store as it was, a failed parse
   * leaves the store not an array, so every section reads as missing.
   */
  lemma LoadRetried(store: Store, name: string, disk: Disk, section: string, key: string)
    requires !store.Loaded?
    ensures name !in disk ==> Retrieve(store, name, disk, section, key) == (store, Err(NoFile(name)))
    ensures name in disk && disk[name].None? ==> Retrieve(store, name, disk, section, key) == (Failed, Err(NoSection(section)))
    ensures name in disk && disk[name].Some? ==> Retrieve(store, name, disk, section, key).0 == Loaded(disk[name].value)
  {
  }

  /**
   * On a loaded configuration: an unknown section raises; an empty key, ""
   * or "0", answers the whole entry; a key of the section answers its
   * value; a decimal index into a string entry answers that character; any
   * other key raises.
   */
  lemma LookupMeaning(ini: Ini, section: string, key: string)
    ensures section !in ini ==> Lookup(Loaded(ini), section, key) == Err(NoSection(section))
    ensures section in ini && Empty(key) ==> Lookup(Loaded(ini), section, key) == Ok(Whole(ini[section]))
    ensures section in ini && !Empty(key) && ini[section].Section? && key in ini[section].values ==>
      Lookup(Loaded(ini), section, key) == Ok(Value(ini[section].values[key]))
    ensures section in ini && !Empty(key) && ini[section].Scalar? && Holds(ini[section], key) ==>
      Lookup(Loaded(ini), section, key) == Ok(Value([ini[section].value[Offset(key).value]]))
    ensures section in ini && !Empty(key) && !Holds(ini[section], key) ==>
      Lookup(Loaded(ini), section, key) == Err(NoKey(section, key))
  {
  }

  /**
   * A string entry answers a decimal index with the character there: with
   * `a = hello`, `get("a", "1")` is "e". Index 0 is out of reach, since "0"
   * asks for the whole entry.
   */
  lemma ScalarOffset(ini: Ini, section: string, n: nat)
    requires section in ini && ini[section].Scalar? && 1 <= n
    ensures n < |ini[section].value| ==> Lookup(Loaded(ini), section, Digits(n)) == Ok(Value([ini[section].value[n]]))
    ensures n >= |ini[section].value| ==> Lookup(Loaded(ini), section, Digits(n)) == Err(NoKey(section, Digits(n)))
  {
    OffsetOfDigits(n);
    assert Digits(n)[0] != '0';
  }

  /** A key named "0" is unreachable: asking for it answers the whole section instead. */
  lemma ZeroKeyUnreachable(values: map<string, string>, section: string)
    requires "0" in values
    ensures Lookup(Loaded(map[section := Section(values)]), section, "0") == Ok(Whole(Section(values)))
  {
  }

  /** The class's static state. */
  class Config {
    var fileName: string
    var store: Store

    /** "config.ini", not loaded. */
    constructor ()
      ensures fileName == "config.ini" && store == Unloaded
    {
      fileName := "config.ini";
      store := Unloaded;
    }

    /** `setFileName`: only a later load reads the new file. */
    method SetFileName(name: string)
      modifies this`fileName
      ensures fileName == name && store == old(store)
    {
      fileName := name;
    }

    /** `loadConfig`. */
    method Load(disk: Disk) returns (r: Result<(), string>)
      modifies this`store
      ensures var l := LoadConfig(fileName, disk);
        if l.Err? then r == Err(l.error) && store == old(store) else r == Ok(()) && store == l.value
    {
      if fileName !in disk {
        return Err("Could not find config file " + fileName);
      }
      var parsed := disk[fileName];
      store := if parsed.Some? then Loaded(parsed.value) else Failed;
      r := Ok(());
    }

    /** `get`. */
    method Get(disk: Disk, section: string, key: string := "") returns (r: Result<Answer, string>)
      modifies this`store
      ensures (store, r) == Retrieve(old(store), fileName, disk, section, key)
    {
      if !store.Loaded? {
        var l := Load(disk);
        if l.Err? {
          return Err(l.error);
        }
      }
      if !(store.Loaded? && section in store.ini) {
        return Err("Could not find section " + section + " in config!");
      }
      var entry := store.ini[section];
      if Empty(key) {
        return Ok(Whole(entry));
      }
      if !Holds(entry, key) {
        return Err("Could not find key " + key + " from section " + section + " in config!");
      }
      if entry.Section? {
        r := Ok(Value(entry.values[key]));
      } else {
        r := Ok(Value([entry.value[Offset(key).value]]));
      }
    }
  }
}
