/** The day's saved loop: how a matrix is written to the key-value store and the
    lenient decoder that reads it back. */
module Persistence {
  import opened Wrappers
  import opened Json
  import opened Grid

  /** What the store hands back for a key, once the text has gone through `JSON.parse`:
      the empty string (which the loader treats as absent), text the parser rejects, or
      a parsed value. */
  datatype Stored = Blank | Unparsable | Parsed(value: Json.Value)

  type Store = map<string, Stored>

  const StorageKeyPrefix: string := "chord-loop:"

  /** The store key of one calendar day; `today` is the ISO date, treated as opaque. */
  function StorageKey(today: string): (key: string)
    ensures |key| == |StorageKeyPrefix| + |today|
    ensures key[..|StorageKeyPrefix|] == StorageKeyPrefix
    ensures key[|StorageKeyPrefix|..] == today
  {
    StorageKeyPrefix + today
  }

  /** `JSON.stringify` of one row, as a value. */
  function EncodeRow(row: seq<bool>): (v: Json.Value)
    ensures v.JArray? && |v.items| == |row|
    ensures forall s :: 0 <= s < |row| ==> v.items[s] == FromBool(row[s])
  {
    JArray(seq(|row|, s requires 0 <= s < |row| => FromBool(row[s])))
  }

  /** `JSON.stringify` of the matrix, as a value: an array of arrays of booleans. */
  function Encode(m: Matrix): (v: Json.Value)
    ensures v.JArray? && |v.items| == |m|
    ensures forall r :: 0 <= r < |m| ==> v.items[r] == EncodeRow(m[r])
  {
    JArray(seq(|m|, r requires 0 <= r < |m| => EncodeRow(m[r])))
  }

  /** One decoded row: a row that is not an array of Steps items becomes all off; any
      other row keeps the truthiness of each item. */
  function DecodeRow(v: Json.Value): (row: seq<bool>)
    ensures |row| == Steps
    ensures v.JArray? && |v.items| == Steps ==>
              forall s :: 0 <= s < Steps ==> (row[s] <==> Truthy(v.items[s]))
    ensures !(v.JArray? && |v.items| == Steps) ==> row == EmptyRow()
  {
    if v.JArray? && |v.items| == Steps then
      seq(Steps, s requires 0 <= s < Steps => Truthy(v.items[s]))
    else
      EmptyRow()
  }

  /** The outer check of the decoder: anything but an array of Rows items abandons the
      load (None); otherwise every row is decoded on its own, so the result always has
      the widget's Rows × Steps shape. */
  function Decode(v: Json.Value): (r: Option<Matrix>)
    ensures r.Some? <==> v.JArray? && |v.items| == Rows
    ensures r.Some? ==> WellFormed(r.value)
    ensures r.Some? ==> forall i :: 0 <= i < Rows ==> r.value[i] == DecodeRow(v.items[i])
  {
    if v.JArray? && |v.items| == Rows then
      Some(seq(Rows, i requires 0 <= i < Rows => DecodeRow(v.items[i])))
    else
      None
  }

  /** The matrix after loading `key` over `current`: a missing key, a blank or
      unparsable entry, and a wrongly shaped outer value all leave `current` as it was. */
  function Load(store: Store, key: string, current: Matrix): (m: Matrix)
    ensures key !in store ==> m == current
    ensures key in store && !store[key].Parsed? ==> m == current
    ensures key in store && store[key].Parsed? ==>
              m == (match Decode(store[key].value) case Some(x) => x case None => current)
  {
    if key in store && store[key].Parsed? then
      match Decode(store[key].value)
      case Some(x) => x
      case None => current
    else
      current
  }

  /** Whether loading `key` replaces the matrix (as opposed to being abandoned). */
  predicate Loads(store: Store, key: string) {
    key in store && store[key].Parsed? && Decode(store[key].value).Some?
  }

  /** Encoding a row of Steps cells and decoding it gives the same row back. */
  lemma EncodeDecodeRow(row: seq<bool>)
    requires |row| == Steps
    ensures DecodeRow(EncodeRow(row)) == row
  {
  }

  /** Encoding a widget matrix and decoding the result gives the same matrix back. */
  lemma EncodeDecodeRoundTrip(m: Matrix)
    requires WellFormed(m)
    ensures Decode(Encode(m)) == Some(m)
  {
    var d := Decode(Encode(m));
    forall r | 0 <= r < Rows
      ensures d.value[r] == m[r]
    {
      EncodeDecodeRow(m[r]);
    }
    assert d.value == m;
  }

  /** A load never produces a matrix of another shape: whatever the store holds, the
      matrix after loading a widget matrix is still Rows × Steps. */
  lemma LoadKeepsShape(store: Store, key: string, current: Matrix)
    requires WellFormed(current)
    ensures WellFormed(Load(store, key, current))
  {
  }

  /** Saving a matrix under a key and then loading that key gives the saved matrix,
      whatever the matrix in memory was. */
  lemma SaveLoadRoundTrip(store: Store, key: string, m: Matrix, current: Matrix)
    requires WellFormed(m)
    ensures Loads(store[key := Parsed(Encode(m))], key)
    ensures Load(store[key := Parsed(Encode(m))], key, current) == m
  {
    EncodeDecodeRoundTrip(m);
  }

  /** A stored array with the right number of rows where one row has the wrong length:
      that row loads as all off, and every well-formed row loads cell by cell. */
  lemma LoadRowByRow(store: Store, key: string, current: Matrix)
    requires key in store && store[key].Parsed?
    requires store[key].value.JArray? && |store[key].value.items| == Rows
    ensures forall r :: 0 <= r < Rows ==>
              var item := store[key].value.items[r];
              if item.JArray? && |item.items| == Steps then
                forall s :: 0 <= s < Steps ==> (Load(store, key, current)[r][s] <==> Truthy(item.items[s]))
              else
                Load(store, key, current)[r] == EmptyRow()
  {
  }
}
