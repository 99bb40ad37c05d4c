/** The layout of a table's records, and the key that get_primary_key computes from one
    (ha_blockchain.cc get_primary_key, write_row, find_row). */
module Records {
  import opened Bytes
  import opened Hex
  import opened KeyImage
  import opened TableStorage

  datatype KeyPart = KeyPart(offset: nat, shape: Shape)

  /** A table without key_info is keyed by its first column. */
  datatype Schema = Schema(
    name: string, nullBytes: nat, recLength: nat, firstLength: nat, keyParts: Option<seq<KeyPart>>)

  predicate SchemaOk(s: Schema) {
    && s.name != "" && s.nullBytes + s.firstLength <= s.recLength
    && (s.keyParts.Some? ==> PartsFit(s, s.keyParts.value))
  }

  /** Key columns lie behind the null bytes, inside the record. */
  predicate PartsFit(s: Schema, parts: seq<KeyPart>) {
    forall i | 0 <= i < |parts| :: PartFits(s, parts[i])
  }

  predicate PartFits(s: Schema, p: KeyPart) {
    s.nullBytes <= p.offset && p.offset + PackLength(p.shape) <= s.recLength
  }

  function RowLength(s: Schema): nat
    requires SchemaOk(s)
  {
    s.recLength - s.nullBytes
  }

  /** What is stored of a record: the null bytes are dropped. */
  function RowOf(s: Schema, rec: BYTES): (row: BYTES)
    requires SchemaOk(s) && |rec| == s.recLength
    ensures |row| == RowLength(s)
  {
    rec[s.nullBytes..]
  }

  /** The record that a stored row is read back into: null bytes and any missing tail are zero. */
  function RecordOf(s: Schema, row: BYTES): (rec: BYTES)
    requires SchemaOk(s) && |row| <= RowLength(s)
    ensures |rec| == s.recLength
  {
    ZeroBytes(s.nullBytes) + row + ZeroBytes(RowLength(s) - |row|)
  }

  /** Byte for byte: zeros, the row, zeros. */
  lemma {:induction false} RecordBytes(s: Schema, row: BYTES, rec: BYTES)
    requires SchemaOk(s) && |row| <= RowLength(s) && rec == RecordOf(s, row)
    ensures forall i :: 0 <= i < s.nullBytes ==> rec[i] == 0
    ensures rec[s.nullBytes..s.nullBytes + |row|] == row
    ensures forall i :: s.nullBytes + |row| <= i < |rec| ==> rec[i] == 0
  {
  }

  lemma {:induction false} RowReadBack(s: Schema, rec: BYTES)
    requires SchemaOk(s) && |rec| == s.recLength
    ensures RowOf(s, RecordOf(s, RowOf(s, rec))) == RowOf(s, rec)
  {
  }

  function ShapesOf(parts: seq<KeyPart>): (ss: seq<Shape>)
    ensures |ss| == |parts|
  {
    seq(|parts|, i requires 0 <= i < |parts| => parts[i].shape)
  }

  function Column(s: Schema, p: KeyPart, rec: BYTES): (b: BYTES)
    requires |rec| == s.recLength && PartFits(s, p)
    ensures |b| == PackLength(p.shape)
  {
    rec[p.offset..p.offset + PackLength(p.shape)]
  }

  /** The key columns of a record, one after the other. */
  function Gathered(s: Schema, parts: seq<KeyPart>, rec: BYTES): BYTES
    requires |rec| == s.recLength && PartsFit(s, parts)
  {
    if parts == [] then [] else Column(s, parts[0], rec) + Gathered(s, parts[1..], rec)
  }

  lemma {:induction false} GatheredLength(s: Schema, parts: seq<KeyPart>, rec: BYTES)
    requires |rec| == s.recLength && PartsFit(s, parts)
    ensures |Gathered(s, parts, rec)| == PackTotal(ShapesOf(parts)) <= StoreTotal(ShapesOf(parts))
  {
    if parts != [] {
      GatheredLength(s, parts[1..], rec);
      assert ShapesOf(parts)[1..] == ShapesOf(parts[1..]);
    }
  }

  /** The state of the copying loop before part i. */
  ghost predicate Gathering(s: Schema, parts: seq<KeyPart>, i: nat, rec: BYTES, front: BYTES, all: BYTES)
    requires |rec| == s.recLength && PartsFit(s, parts)
  {
    i <= |parts| && front + Gathered(s, parts[i..], rec) == all
  }

  lemma {:induction false} GatherStep(s: Schema, parts: seq<KeyPart>, i: nat, rec: BYTES, front: BYTES, all: BYTES)
    requires |rec| == s.recLength && PartsFit(s, parts) && i < |parts|
    requires Gathering(s, parts, i, rec, front, all)
    ensures PartFits(s, parts[i]) && |front| + PackLength(parts[i].shape) <= |all|
    ensures Gathering(s, parts, i + 1, rec, front + Column(s, parts[i], rec), all)
  {
    assert parts[i..][1..] == parts[i + 1..] && parts[i..][0] == parts[i];
    var column, rest := Column(s, parts[i], rec), Gathered(s, parts[i + 1..], rec);
    assert front + (column + rest) == (front + column) + rest;
  }

  /** The bytes that are hashed into a record's key. */
  function KeyBytes(s: Schema, rec: BYTES): BYTES
    requires SchemaOk(s) && |rec| == s.recLength
  {
    match s.keyParts
    case Some(parts) => Gathered(s, parts, rec)
    case None => rec[s.nullBytes..s.nullBytes + s.firstLength]
  }

  type Hash = BYTES -> Bytes32

  /** The key of a stored row. */
  function KeyOf(s: Schema, hash: Hash, row: BYTES): Bytes32
    requires SchemaOk(s) && |row| <= RowLength(s)
  {
    hash(KeyBytes(s, RecordOf(s, row)))
  }

  lemma {:induction false} GatheredIgnoresNulls(s: Schema, parts: seq<KeyPart>, rec: BYTES, rec': BYTES)
    requires SchemaOk(s) && |rec| == |rec'| == s.recLength && PartsFit(s, parts)
    requires RowOf(s, rec) == RowOf(s, rec')
    ensures Gathered(s, parts, rec) == Gathered(s, parts, rec')
  {
    if parts != [] {
      var p, n := parts[0], s.nullBytes;
      assert Column(s, p, rec) == RowOf(s, rec)[p.offset - n..p.offset - n + PackLength(p.shape)];
      assert Column(s, p, rec') == RowOf(s, rec')[p.offset - n..p.offset - n + PackLength(p.shape)];
      GatheredIgnoresNulls(s, parts[1..], rec, rec');
    }
  }

  /** The key depends on a record only through what is stored of it. */
  lemma {:induction false} KeyOfRecord(s: Schema, hash: Hash, rec: BYTES)
    requires SchemaOk(s) && |rec| == s.recLength
    ensures hash(KeyBytes(s, rec)) == KeyOf(s, hash, RowOf(s, rec))
  {
    var rec' := RecordOf(s, RowOf(s, rec));
    RowReadBack(s, rec);
    match s.keyParts
    case Some(parts) => GatheredIgnoresNulls(s, parts, rec, rec');
    case None =>
      assert KeyBytes(s, rec) == RowOf(s, rec)[..s.firstLength];
      assert KeyBytes(s, rec') == RowOf(s, rec')[..s.firstLength];
  }

  /** Without key parts only the first column is hashed, whatever stands behind it. */
  lemma {:induction false} FirstColumnIsKey(s: Schema, hash: Hash, row: BYTES)
    requires SchemaOk(s) && s.keyParts.None? && |row| == RowLength(s)
    ensures KeyOf(s, hash, row) == hash(row[..s.firstLength])
  {
    var n := s.nullBytes;
    assert RecordOf(s, row)[n..n + s.firstLength] == row[..s.firstLength];
  }

  // ---------------------------------------------------------------- searching by key

  /** The record's key columns hold the given fields. */
  ghost predicate Stores(s: Schema, parts: seq<KeyPart>, rec: BYTES, fs: seq<Field>) {
    && |rec| == s.recLength && PartsFit(s, parts) && FieldsOk(fs) && Shapes(fs) == ShapesOf(parts)
    && forall i :: 0 <= i < |parts| ==> Column(s, parts[i], rec) == RecordImage(fs[i])
  }

  lemma {:induction false} GatheredIsRecordKey(s: Schema, parts: seq<KeyPart>, rec: BYTES, fs: seq<Field>)
    requires Stores(s, parts, rec, fs)
    ensures Gathered(s, parts, rec) == RecordKey(fs)
  {
    if parts != [] {
      assert Shapes(fs[1..]) == Shapes(fs)[1..] && ShapesOf(parts[1..]) == ShapesOf(parts)[1..];
      GatheredIsRecordKey(s, parts[1..], rec, fs[1..]);
    }
  }

  /** Searching for the fields of a stored record leads to the very key it was stored under. */
  lemma {:induction false} SearchFindsKey(s: Schema, hash: Hash, rec: BYTES, fs: seq<Field>)
    requires SchemaOk(s) && s.keyParts.Some? && Stores(s, s.keyParts.value, rec, fs)
    requires AllConvertible(ShapesOf(s.keyParts.value))
    ensures |SearchKey(fs)| == StoreTotal(ShapesOf(s.keyParts.value))
    ensures hash(HashedSearch(SearchKey(fs), ShapesOf(s.keyParts.value))) == KeyOf(s, hash, RowOf(s, rec))
  {
    KeyImagesAgree(fs);
    GatheredIsRecordKey(s, s.keyParts.value, rec, fs);
    KeyOfRecord(s, hash, rec);
  }

  /** The table's rows have its row length and are filed under the keys computed from them. */
  ghost predicate WellStored(s: Schema, hash: Hash, tab: Table)
    requires SchemaOk(s)
  {
    forall k {:trigger WellStoredAt(s, hash, k, tab[k])} :: k in tab ==> WellStoredAt(s, hash, k, tab[k])
  }

  predicate WellStoredAt(s: Schema, hash: Hash, k: BYTES, row: BYTES)
    requires SchemaOk(s)
  {
    |row| == RowLength(s) && KeyOf(s, hash, row) == k
  }
}
