/**
 * DatabaseRow: a fetched row, fixed at construction. Reading a column uses
 * `array_key_exists`, so a column holding NULL is present and yields NULL;
 * only a missing column raises.
 */
module DatabaseRows {
  import opened Php
  import opened PhpArrays

  /** The row's raw data, in column order. */
  datatype Row = Row(data: Entries<Value>)

  function Missing(key: string): string
  {
    "Row doesn't contain requested key " + key
  }

  /** `__get`: the stored value of a present column, an exception for a missing one. */
  function Get(row: Row, key: string): (r: Result<Value, string>)
    ensures r.Ok? <==> HasKey(row.data, key)
    ensures r.Err? ==> r.error == Missing(key)
  {
    var i := IndexOf(row.data, key);
    if i.Some? then Ok(row.data[i.value].1) else Err(Missing(key))
  }

  /** `getData`: the array the row was built from. */
  function GetData(row: Row): (r: Entries<Value>)
    ensures Row(r) == row
  {
    row.data
  }

  /**
   * A column's value is the one stored under its key, NULL included: a row
   * built from [(k, NULL)] answers NULL for k rather than raising.
   */
  lemma GetStored(data: Entries<Value>, key: string, i: nat)
    requires UniqueKeys(data) && i < |data| && data[i].0 == key
    ensures Get(Row(data), key) == Ok(data[i].1)
    ensures Get(Row([(key, Null)]), key) == Ok(Null)
  {
    assert HasKey(data, key);
    assert Row([(key, Null)]).data[0].0 == key;
  }
}
