/**
 * Memory: a process-wide key/value store. `set` overwrites, `get` answers
 * only for keys that are set to something other than NULL (`isset`).
 *
 * The store is a static array in the source; here it is the one field of a
 * `Memory` object that stands for the class.
 */
module MemoryStore {
  import opened Php

  /** The message `get` builds as written: it reads an undefined variable, which is empty. */
  const MissingAsWritten := "Could not find key  in memory!"

  /** The message evidently intended: it names the key. */
  function Missing(key: string): string
  {
    "Could not find key " + key + " in memory!"
  }

  /** PHP's `isset` on an array entry: present and not NULL. */
  predicate IsSet(m: map<string, Value>, key: string)
  {
    key in m && m[key] != Null
  }

  /** `get` as written: every missing key raises the same message. */
  function LookupAsWritten(m: map<string, Value>, key: string): (r: Result<Value, string>)
    ensures r.Ok? <==> IsSet(m, key)
    ensures r.Ok? ==> r.value == m[key] && r.value.Text?
    ensures r.Err? ==> r.error == MissingAsWritten
  {
    if !IsSet(m, key) then Err(MissingAsWritten) else Ok(m[key])
  }

  /** `get` with the key in the message. */
  function Lookup(m: map<string, Value>, key: string): (r: Result<Value, string>)
    ensures r.Ok? <==> IsSet(m, key)
    ensures r.Ok? ==> r.value == m[key] && r.value.Text?
    ensures r.Err? ==> r.error == Missing(key)
  {
    if !IsSet(m, key) then Err(Missing(key)) else Ok(m[key])
  }

  /**
   * As written, the message cannot tell two missing keys apart; with the
   * key in the message it can.
   */
  lemma AsWrittenHidesKey(m: map<string, Value>, a: string, b: string)
    requires !IsSet(m, a) && !IsSet(m, b) && a != b
    ensures LookupAsWritten(m, a) == LookupAsWritten(m, b)
    ensures Lookup(m, a) != Lookup(m, b)
  {
    if Missing(a) == Missing(b) {
      MissingNamesKey(a, b);
    }
  }

  /** With the key in the message, distinct missing keys give distinct messages. */
  lemma {:induction false} MissingNamesKey(a: string, b: string)
    requires Missing(a) == Missing(b)
    ensures a == b
  {
    var pre := "Could not find key ";
    var post := " in memory!";
    assert |a| == |b|;
    assert a == Missing(a)[|pre|..|pre| + |a|];
    assert b == Missing(b)[|pre|..|pre| + |b|];
  }

  /** Both versions agree on every key except in the text of the error. */
  lemma AsWrittenDiffersOnlyInMessage(m: map<string, Value>, key: string)
    ensures LookupAsWritten(m, key).Ok? == Lookup(m, key).Ok?
    ensures Lookup(m, key).Ok? ==> LookupAsWritten(m, key) == Lookup(m, key)
  {
  }

  /** After `set(k, v)` with a non-NULL v, `get(k)` returns v and every other key reads as before. */
  lemma SetThenGet(m: map<string, Value>, key: string, s: string, other: string)
    ensures Lookup(m[key := Text(s)], key) == Ok(Text(s))
    ensures other != key ==> Lookup(m[key := Text(s)], other) == Lookup(m, other)
  {
  }

  /**
   * A key never set raises, and storing NULL makes a key read as missing
   * even if it held a value before.
   */
  lemma NullIsMissing(m: map<string, Value>, key: string)
    ensures key !in m ==> Lookup(m, key) == Err(Missing(key))
    ensures Lookup(m[key := Null], key) == Err(Missing(key))
  {
  }

  /** The later of two `set` calls on one key wins. */
  lemma LastSetWins(m: map<string, Value>, key: string, v: Value, w: Value)
    ensures Lookup(m[key := v][key := w], key) == Lookup(m[key := w], key)
  {
  }

  /** The class and its static array. */
  class Memory {
    var memory: map<string, Value>

    /** The array starts empty. */
    constructor ()
      ensures memory == map[]
    {
      memory := map[];
    }

    /** `get`, with the key named in the message. */
    method Get(key: string) returns (r: Result<Value, string>)
      ensures r == Lookup(memory, key)
    {
      if !(key in memory && memory[key] != Null) {
        return Err("Could not find key " + key + " in memory!");
      }
      r := Ok(memory[key]);
    }

    /** `set`: stores or overwrites, NULL included. */
    method Set(key: string, value: Value)
      modifies this
      ensures memory == old(memory)[key := value]
    {
      memory := memory[key := value];
    }
  }
}
