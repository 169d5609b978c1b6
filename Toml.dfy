/** The already-parsed TOML document the typed decoder works on: the text
    produced by `decrypt` is parsed by the TOML library (not part of this
    model) into nested tables of values. */
module Toml {
  import opened Results

  datatype Node =
    | Text(s: string)
    | Integer(n: int)
    | Boolean(b: bool)
    | Table(entries: seq<(string, Node)>)

  /** Why a value could not be turned into the typed save structure. A
      `Panic` is an `unwrap` on an error or an index out of bounds in the
      decoder itself: in the program it aborts the whole run. */
  datatype DecodeError =
    | InvalidType
    | InvalidValue
    | UnknownVariant(tag: string)
    | MissingField(field: string)
    | Panic

  /** The value stored under `key` in a table: the first entry with that key. */
  function Lookup(entries: seq<(string, Node)>, key: string): Option<Node> {
    if entries == [] then None
    else if entries[0].0 == key then Some(entries[0].1)
    else Lookup(entries[1..], key)
  }

  /** A lookup finds a value exactly when some entry has the key, and then
      finds the first such entry. */
  lemma {:induction false} LookupMeaning(entries: seq<(string, Node)>, key: string)
    ensures Lookup(entries, key).Some? <==> exists i :: 0 <= i < |entries| && entries[i].0 == key
    ensures Lookup(entries, key).Some? ==>
      exists i :: 0 <= i < |entries| && entries[i] == (key, Lookup(entries, key).value) &&
        (forall j :: 0 <= j < i ==> entries[j].0 != key)
  {
    if entries != [] && entries[0].0 != key {
      LookupMeaning(entries[1..], key);
      if Lookup(entries, key).Some? {
        var i :| 0 <= i < |entries[1..]| && entries[1..][i] == (key, Lookup(entries, key).value) &&
          forall j :: 0 <= j < i ==> entries[1..][j].0 != key;
        assert entries[i + 1] == (key, Lookup(entries, key).value);
        assert forall j :: 0 < j < i + 1 ==> entries[j] == entries[1..][j - 1];
      } else {
        forall i | 0 <= i < |entries|
          ensures entries[i].0 != key
        {
          if i > 0 {
            assert entries[i] == entries[1..][i - 1];
          }
        }
      }
    } else if entries != [] {
      assert entries[0] == (key, Lookup(entries, key).value);
    }
  }
}
