/** The two byte layouts of a primary key: the one get_primary_key concatenates from a record and the one
    the server hands to index_read, and the loop that turns the second into the first
    (ha_blockchain.cc get_primary_key, index_read). */
module KeyImage {
  import opened Bytes
  import opened Hex

  /** A key part: a fixed number of bytes, or a varchar of at most max bytes. */
  datatype Shape = FixedShape(length: nat) | VarShape(max: nat)

  datatype Field = FixedField(bytes: BYTES) | VarField(max: nat, data: BYTES)

  function ShapeOf(f: Field): Shape {
    match f
    case FixedField(b) => FixedShape(|b|)
    case VarField(max, _) => VarShape(max)
  }

  /** A varchar holds at most its maximum, which a two-byte length can express. */
  predicate FieldOk(f: Field) {
    f.VarField? ==> |f.data| <= f.max <= 65535
  }

  /** Bytes a field occupies in a record: one length byte for maxima below 256, two otherwise. */
  function PackLength(s: Shape): nat {
    match s
    case FixedShape(n) => n
    case VarShape(max) => if max < 256 then max + 1 else max + 2
  }

  /** Bytes a field occupies in a search key. */
  function StoreLength(s: Shape): nat {
    match s
    case FixedShape(n) => n
    case VarShape(max) => max + 2
  }

  /** The field as stored in a record, the varchar's tail zeroed. */
  function RecordImage(f: Field): (b: BYTES)
    requires FieldOk(f)
    ensures |b| == PackLength(ShapeOf(f))
  {
    match f
    case FixedField(b) => b
    case VarField(max, data) =>
      (if max < 256 then [|data|] else [|data| % 256, |data| / 256]) + data + ZeroBytes(max - |data|)
  }

  /** The field as it appears in a search key: always two length bytes, low byte first. */
  function SearchImage(f: Field): (b: BYTES)
    requires FieldOk(f)
    ensures |b| == StoreLength(ShapeOf(f))
  {
    match f
    case FixedField(b) => b
    case VarField(max, data) => [|data| % 256, |data| / 256] + data + ZeroBytes(max - |data|)
  }

  predicate FieldsOk(fs: seq<Field>) {
    forall i | 0 <= i < |fs| :: FieldOk(fs[i])
  }

  function RecordKey(fs: seq<Field>): BYTES
    requires FieldsOk(fs)
  {
    if fs == [] then [] else RecordImage(fs[0]) + RecordKey(fs[1..])
  }

  function SearchKey(fs: seq<Field>): BYTES
    requires FieldsOk(fs)
  {
    if fs == [] then [] else SearchImage(fs[0]) + SearchKey(fs[1..])
  }

  function Shapes(fs: seq<Field>): (ss: seq<Shape>)
    ensures |ss| == |fs|
  {
    seq(|fs|, i requires 0 <= i < |fs| => ShapeOf(fs[i]))
  }

  function PackTotal(ss: seq<Shape>): nat {
    if ss == [] then 0 else PackLength(ss[0]) + PackTotal(ss[1..])
  }

  function StoreTotal(ss: seq<Shape>): nat {
    if ss == [] then 0 else StoreLength(ss[0]) + StoreTotal(ss[1..])
  }

  // ---------------------------------------------------------------- the shift loop

  /** index_read's test for a varchar with a single length byte. */
  predicate Shifts(s: Shape) {
    s.VarShape? && PackLength(s) % 4 == 1
  }

  /** memcpy(buf + pos + 1, buf + pos + 2, keyLength - pos - 2), done as an overlapping move. */
  function ShiftAt(buf: BYTES, pos: nat, keyLength: nat): (b: BYTES)
    requires pos + 2 <= keyLength <= |buf|
    ensures |b| == |buf|
  {
    buf[..pos + 1] + buf[pos + 2..keyLength] + buf[keyLength - 1..]
  }

  /** The buffer after one round, for a part at position pos. */
  function Round(buf: BYTES, s: Shape, pos: nat, keyLength: nat): (b: BYTES)
    requires pos + StoreLength(s) <= keyLength <= |buf|
    ensures |b| == |buf|
  {
    if Shifts(s) then ShiftAt(buf, pos, keyLength) else buf
  }

  /** The buffer after the parts from position pos on have been adjusted. */
  function Adjusted(buf: BYTES, ss: seq<Shape>, pos: nat, keyLength: nat): (b: BYTES)
    requires pos + StoreTotal(ss) <= keyLength <= |buf|
    ensures |b| == |buf|
    decreases |ss|
  {
    if ss == [] then buf
    else Adjusted(Round(buf, ss[0], pos, keyLength), ss[1..], pos + PackLength(ss[0]), keyLength)
  }

  /** The allocation of index_read, eight bytes for each key byte, and the copy into it. */
  method CopyKey(key: BYTES) returns (keyAdj: array<Byte>)
    ensures fresh(keyAdj) && keyAdj[..] == key + ZeroBytes(7 * |key|)
  {
    keyAdj := new Byte[8 * |key|](i => 0);
    forall i | 0 <= i < |key| {
      keyAdj[i] := key[i];
    }
  }

  /** index_read's copy of the search key and its adjustment in place; the first initialPos bytes are
      what gets hashed. Every copy stays within the key's length. */
  method AdjustKey(key: BYTES, ss: seq<Shape>) returns (keyAdj: array<Byte>, initialPos: nat)
    requires |key| == StoreTotal(ss)
    ensures fresh(keyAdj) && keyAdj.Length == 8 * |key|
    ensures |key| <= |keyAdj[..]| && initialPos == PackTotal(ss) <= |key|
    ensures keyAdj[..] == Adjusted(key + ZeroBytes(7 * |key|), ss, 0, |key|)
  {
    var keyLength := |key|;
    keyAdj := CopyKey(key);
    ghost var all := Adjusted(keyAdj[..], ss, 0, keyLength);
    PackBelowStore(ss);
    initialPos := 0;
    var i := 0;
    assert ss[0..] == ss;
    while i < |ss|
      invariant 0 <= i <= |ss|
      invariant ToAdjust(keyAdj[..], ss, i, initialPos, keyLength, all)
    {
      ToAdjustStep(keyAdj[..], ss, i, initialPos, keyLength, all);
      AdjustPart(keyAdj, ss[i], initialPos, keyLength);
      initialPos := initialPos + PackLength(ss[i]);
      i := i + 1;
    }
  }

  /** The state of the loop before round i: the rounds to come turn the buffer into the final one. */
  ghost predicate ToAdjust(buf: BYTES, ss: seq<Shape>, i: nat, pos: nat, keyLength: nat, all: BYTES)
    requires i <= |ss|
  {
    && pos + StoreTotal(ss[i..]) <= keyLength <= |buf|
    && pos + PackTotal(ss[i..]) == PackTotal(ss)
    && Adjusted(buf, ss[i..], pos, keyLength) == all
  }

  lemma {:induction false} ToAdjustStep(buf: BYTES, ss: seq<Shape>, i: nat, pos: nat, keyLength: nat, all: BYTES)
    requires i < |ss| && ToAdjust(buf, ss, i, pos, keyLength, all)
    ensures pos + StoreLength(ss[i]) <= keyLength
    ensures ToAdjust(Round(buf, ss[i], pos, keyLength), ss, i + 1, pos + PackLength(ss[i]), keyLength, all)
  {
    assert ss[i..][1..] == ss[i + 1..];
  }

  /** Deletes the second byte of a varchar part with a single length byte, by moving everything after it
      one to the front. */
  method AdjustPart(keyAdj: array<Byte>, s: Shape, pos: nat, keyLength: nat)
    requires pos + StoreLength(s) <= keyLength <= keyAdj.Length
    modifies keyAdj
    ensures keyAdj[..] == Round(old(keyAdj[..]), s, pos, keyLength)
  {
    if Shifts(s) {
      forall j | pos + 1 <= j < keyLength - 1 {
        keyAdj[j] := keyAdj[j + 1];
      }
    }
  }

  lemma {:induction false} PackBelowStore(ss: seq<Shape>)
    ensures PackTotal(ss) <= StoreTotal(ss)
  {
    if ss != [] {
      PackBelowStore(ss[1..]);
    }
  }

  lemma {:induction false} KeyLengths(fs: seq<Field>)
    requires FieldsOk(fs)
    ensures |RecordKey(fs)| == PackTotal(Shapes(fs)) && |SearchKey(fs)| == StoreTotal(Shapes(fs))
  {
    if fs != [] {
      KeyLengths(fs[1..]);
      assert Shapes(fs)[1..] == Shapes(fs[1..]);
    }
  }

  // ---------------------------------------------------------------- when the layouts agree

  /** The test recognises exactly the one-byte lengths: maxima below 256 divisible by 4, and larger ones
      that do not leave 3. */
  predicate Convertible(s: Shape) {
    s.VarShape? ==> if s.max < 256 then s.max % 4 == 0 else s.max % 4 != 3
  }

  predicate AllConvertible(ss: seq<Shape>) {
    forall i | 0 <= i < |ss| :: Convertible(ss[i])
  }

  /** The bytes of b stand at position pos of buf. */
  predicate Holds(buf: BYTES, pos: nat, b: BYTES) {
    pos + |b| <= |buf| && buf[pos..pos + |b|] == b
  }

  predicate SameFront(a: BYTES, b: BYTES, n: nat) {
    n <= |a| && n <= |b| && a[..n] == b[..n]
  }

  lemma {:induction false} Join(buf: BYTES, pos: nat, a: BYTES, b: BYTES)
    ensures Holds(buf, pos, a + b) <==> Holds(buf, pos, a) && Holds(buf, pos + |a|, b)
  {
    if Holds(buf, pos, a + b) {
      forall i | 0 <= i < |a| ensures buf[pos + i] == a[i] { assert (a + b)[i] == a[i]; }
      forall i | 0 <= i < |b| ensures buf[pos + |a| + i] == b[i] { assert (a + b)[|a| + i] == b[i]; }
    }
    if Holds(buf, pos, a) && Holds(buf, pos + |a|, b) {
      forall i | 0 <= i < |a + b| ensures buf[pos + i] == (a + b)[i] {
        if i >= |a| { assert buf[pos + |a| + (i - |a|)] == b[i - |a|]; }
      }
    }
  }

  lemma {:induction false} FrontHolds(buf: BYTES, buf': BYTES, n: nat, pos: nat, b: BYTES)
    requires SameFront(buf, buf', n) && Holds(buf, pos, b) && pos + |b| <= n
    ensures Holds(buf', pos, b)
  {
    assert buf[pos..pos + |b|] == buf[..n][pos..pos + |b|] == buf'[pos..pos + |b|];
  }

  lemma {:induction false} ShiftMoves(buf: BYTES, image: BYTES, rest: BYTES, pos: nat, keyLength: nat)
    requires |image| >= 2 && pos + |image| + |rest| <= keyLength <= |buf|
    requires Holds(buf, pos, image) && Holds(buf, pos + |image|, rest)
    ensures var buf' := ShiftAt(buf, pos, keyLength);
      SameFront(buf, buf', pos) && Holds(buf', pos, image[..1] + image[2..]) && Holds(buf', pos + |image| - 1, rest)
  {
    var buf', kept := ShiftAt(buf, pos, keyLength), image[..1] + image[2..];
    forall i | 0 <= i < |kept| ensures buf'[pos + i] == kept[i] {
      if i == 0 {
        assert buf[pos + 0] == image[0];
      } else {
        assert buf[pos + (i + 1)] == image[i + 1];
      }
    }
    forall i | 0 <= i < |rest| ensures buf'[pos + |image| - 1 + i] == rest[i] {
      assert buf[pos + |image| + i] == rest[i];
    }
  }

  /** How a part's two images relate, as far as the loop can tell. */
  predicate Converts(s: Shape, image: BYTES, kept: BYTES) {
    && |image| == StoreLength(s) && |kept| == PackLength(s)
    && if Shifts(s) then |image| >= 2 && kept == image[..1] + image[2..] else kept == image
  }

  lemma {:induction false} ImagesConvert(f: Field)
    requires FieldOk(f) && Convertible(ShapeOf(f))
    ensures Converts(ShapeOf(f), SearchImage(f), RecordImage(f))
  {
    if Shifts(ShapeOf(f)) {
      assert f.max < 256 && |f.data| < 256;
      assert SearchImage(f)[2..] == f.data + ZeroBytes(f.max - |f.data|);
    }
  }

  /** One round turns a search image into the record image; what follows moves up behind it. */
  lemma {:induction false} RoundConverts(buf: BYTES, s: Shape, image: BYTES, kept: BYTES, rest: BYTES, pos: nat,
                                         keyLength: nat, buf': BYTES)
    requires Converts(s, image, kept) && pos + |image + rest| <= keyLength <= |buf|
    requires Holds(buf, pos, image + rest) && buf' == Round(buf, s, pos, keyLength)
    ensures SameFront(buf, buf', pos) && Holds(buf', pos, kept) && Holds(buf', pos + |kept|, rest)
  {
    Join(buf, pos, image, rest);
    if Shifts(s) {
      ShiftMoves(buf, image, rest, pos, keyLength);
    }
  }

  /** A key taken apart into its first part and the others. */
  lemma {:induction false} Unfold(fs: seq<Field>, ss: seq<Shape>)
    requires FieldsOk(fs) && ss == Shapes(fs) && fs != []
    ensures FieldOk(fs[0]) && FieldsOk(fs[1..]) && ss[0] == ShapeOf(fs[0]) && ss[1..] == Shapes(fs[1..])
    ensures SearchKey(fs) == SearchImage(fs[0]) + SearchKey(fs[1..])
    ensures RecordKey(fs) == RecordImage(fs[0]) + RecordKey(fs[1..])
  {
  }

  /** One more round: what the rest of the loop leaves of a part that has been converted. */
  lemma {:induction false} RoundThenRest(buf: BYTES, buf': BYTES, r: BYTES, pos: nat, n: nat, first: BYTES,
                                         rest: BYTES, all: BYTES)
    requires n == pos + |first| && all == first + rest
    requires SameFront(buf, buf', pos) && Holds(buf', pos, first)
    requires SameFront(buf', r, n) && Holds(r, n, rest)
    ensures SameFront(buf, r, pos) && Holds(r, pos, all)
  {
    FrontHolds(buf', r, n, pos, first);
    Join(r, pos, first, rest);
    assert buf[..pos] == buf'[..n][..pos] == r[..pos];
  }

  lemma {:induction false} RoundStep(buf: BYTES, ss: seq<Shape>, image: BYTES, kept: BYTES, rest: BYTES,
                                     all: BYTES, pos: nat,
                                     keyLength: nat, r: BYTES) returns (buf': BYTES, n: nat)
    requires ss != [] && Converts(ss[0], image, kept) && |rest| == StoreTotal(ss[1..]) && all == image + rest
    requires pos + |all| <= keyLength <= |buf| && Holds(buf, pos, all)
    requires pos + StoreTotal(ss) <= keyLength && r == Adjusted(buf, ss, pos, keyLength)
    ensures |buf'| == |buf| && n == pos + |kept| && n + |rest| <= keyLength
    ensures r == Adjusted(buf', ss[1..], n, keyLength)
    ensures SameFront(buf, buf', pos) && Holds(buf', pos, kept) && Holds(buf', n, rest)
  {
    buf', n := Round(buf, ss[0], pos, keyLength), pos + |kept|;
    RoundConverts(buf, ss[0], image, kept, rest, pos, keyLength, buf');
  }

  /** The first round of the loop. */
  lemma {:induction false} FirstRound(buf: BYTES, fs: seq<Field>, ss: seq<Shape>, pos: nat, keyLength: nat, r: BYTES)
    returns (buf': BYTES, n: nat)
    requires FieldsOk(fs) && ss == Shapes(fs) && fs != [] && Convertible(ss[0])
    requires pos + |SearchKey(fs)| <= keyLength <= |buf| && Holds(buf, pos, SearchKey(fs))
    requires pos + StoreTotal(ss) <= keyLength && r == Adjusted(buf, ss, pos, keyLength)
    ensures FieldOk(fs[0]) && FieldsOk(fs[1..]) && ss[1..] == Shapes(fs[1..]) && ss[0] == ShapeOf(fs[0])
    ensures |buf'| == |buf| && n == pos + |RecordImage(fs[0])|
    ensures RecordKey(fs) == RecordImage(fs[0]) + RecordKey(fs[1..])
    ensures n + |SearchKey(fs[1..])| <= keyLength && n + StoreTotal(ss[1..]) <= keyLength
    ensures r == Adjusted(buf', ss[1..], n, keyLength)
    ensures SameFront(buf, buf', pos) && Holds(buf', pos, RecordImage(fs[0])) && Holds(buf', n, SearchKey(fs[1..]))
  {
    Unfold(fs, ss);
    KeyLengths(fs[1..]);
    ImagesConvert(fs[0]);
    buf', n := RoundStep(buf, ss, SearchImage(fs[0]), RecordImage(fs[0]), SearchKey(fs[1..]), SearchKey(fs), pos,
      keyLength, r);
  }

  /** The whole loop: it leaves the record images where the search images stood, and the front alone. */
  lemma {:induction false} AdjustedAgrees(buf: BYTES, fs: seq<Field>, pos: nat, keyLength: nat, ss: seq<Shape>,
                                          r: BYTES)
    requires FieldsOk(fs) && ss == Shapes(fs) && AllConvertible(ss)
    requires pos + |SearchKey(fs)| <= keyLength <= |buf| && Holds(buf, pos, SearchKey(fs))
    requires pos + StoreTotal(ss) <= keyLength && r == Adjusted(buf, ss, pos, keyLength)
    ensures SameFront(buf, r, pos) && Holds(r, pos, RecordKey(fs))
    decreases |ss|
  {
    if fs != [] {
      var buf', n := FirstRound(buf, fs, ss, pos, keyLength, r);
      AdjustedAgrees(buf', fs[1..], n, keyLength, ss[1..], r);
      RoundThenRest(buf, buf', r, pos, n, RecordImage(fs[0]), RecordKey(fs[1..]), RecordKey(fs));
    }
  }

  /** The bytes that index_read hashes for a search key. */
  function HashedSearch(key: BYTES, ss: seq<Shape>): BYTES
    requires |key| == StoreTotal(ss)
  {
    PackBelowStore(ss);
    Adjusted(key + ZeroBytes(7 * |key|), ss, 0, |key|)[..PackTotal(ss)]
  }

  /** For convertible parts the adjusted search key is byte for byte the record's key. */
  lemma {:induction false} KeyImagesAgree(fs: seq<Field>)
    requires FieldsOk(fs) && AllConvertible(Shapes(fs))
    ensures |SearchKey(fs)| == StoreTotal(Shapes(fs))
    ensures HashedSearch(SearchKey(fs), Shapes(fs)) == RecordKey(fs)
  {
    KeyLengths(fs);
    var key := SearchKey(fs);
    var buf := key + ZeroBytes(7 * |key|);
    assert Holds(buf, 0, key);
    AdjustedAgrees(buf, fs, 0, |key|, Shapes(fs), Adjusted(buf, Shapes(fs), 0, |key|));
  }

  // ---------------------------------------------------------------- and when not

  /** Adjusting never touches a byte up to and including the one at pos. */
  lemma {:induction false} AdjustedKeepsFront(buf: BYTES, ss: seq<Shape>, pos: nat, keyLength: nat, i: nat)
    requires pos + StoreTotal(ss) <= keyLength <= |buf| && i <= pos && i < |buf|
    ensures Adjusted(buf, ss, pos, keyLength)[i] == buf[i]
    decreases |ss|
  {
    if ss != [] {
      AdjustedKeepsFront(Round(buf, ss[0], pos, keyLength), ss[1..], pos + PackLength(ss[0]), keyLength, i);
    }
  }

  /** A field of the given shape; the varchar one is where the layouts part if the shape is not convertible. */
  function Witness(s: Shape): (f: Field)
    requires s.VarShape? ==> s.max <= 65535
    ensures FieldOk(f) && ShapeOf(f) == s
  {
    match s
    case FixedShape(n) => FixedField(ZeroBytes(n))
    case VarShape(max) => VarField(max, if max == 0 then [] else [1])
  }

  function Witnesses(ss: seq<Shape>): (fs: seq<Field>)
    requires ShapesOk(ss)
    ensures FieldsOk(fs) && |fs| == |ss|
  {
    seq(|ss|, i requires 0 <= i < |ss| => Witness(ss[i]))
  }

  predicate ShapesOk(ss: seq<Shape>) {
    forall i | 0 <= i < |ss| && ss[i].VarShape? :: ss[i].max <= 65535
  }

  /** Fields that show the difference wherever a part is not convertible. */
  predicate Telling(fs: seq<Field>) {
    forall i | 0 <= i < |fs| :: !Convertible(ShapeOf(fs[i])) && ShapeOf(fs[i]).max <= 65535 ==>
      fs[i] == Witness(ShapeOf(fs[i]))
  }

  /** The buffer r and the key rk part at offset i from pos. */
  predicate PartAt(r: BYTES, pos: nat, rk: BYTES, i: nat) {
    i < |rk| && pos + i < |r| && r[pos + i] != rk[i]
  }

  lemma {:induction false} PartLater(r: BYTES, pos: nat, n: nat, first: BYTES, rest: BYTES, all: BYTES,
                                     j: nat) returns (i: nat)
    requires PartAt(r, n, rest, j) && n == pos + |first| && all == first + rest
    ensures PartAt(r, pos, all, i)
  {
    i := |first| + j;
    assert all[i] == rest[j];
  }

  /** A byte, counted from pos, that comes out wrong: the second one of the first non-convertible part. */
  lemma {:induction false} AdjustedDiffers(buf: BYTES, fs: seq<Field>, pos: nat, keyLength: nat, ss: seq<Shape>,
                                           r: BYTES) returns (i: nat)
    requires FieldsOk(fs) && ss == Shapes(fs) && !AllConvertible(ss) && Telling(fs)
    requires pos + |SearchKey(fs)| <= keyLength <= |buf| && Holds(buf, pos, SearchKey(fs))
    requires pos + StoreTotal(ss) <= keyLength && r == Adjusted(buf, ss, pos, keyLength)
    ensures PartAt(r, pos, RecordKey(fs), i)
    decreases |ss|
  {
    if Convertible(ss[0]) {
      var buf', n := FirstRound(buf, fs, ss, pos, keyLength, r);
      LaterPartFails(ss);
      var j := AdjustedDiffers(buf', fs[1..], n, keyLength, ss[1..], r);
      i := PartLater(r, pos, n, RecordImage(fs[0]), RecordKey(fs[1..]), RecordKey(fs), j);
    } else {
      i := 1;
      FirstDiffers(buf, fs, pos, keyLength, ss, r);
    }
  }

  lemma {:induction false} FirstDiffers(buf: BYTES, fs: seq<Field>, pos: nat, keyLength: nat, ss: seq<Shape>, r: BYTES)
    requires FieldsOk(fs) && ss == Shapes(fs) && ss != [] && !Convertible(ss[0]) && Telling(fs)
    requires pos + |SearchKey(fs)| <= keyLength <= |buf| && Holds(buf, pos, SearchKey(fs))
    requires pos + StoreTotal(ss) <= keyLength && r == Adjusted(buf, ss, pos, keyLength)
    ensures PartAt(r, pos, RecordKey(fs), 1)
  {
    Unfold(fs, ss);
    Join(buf, pos, SearchImage(fs[0]), SearchKey(fs[1..]));
    FirstPartDiffers(buf, ss, pos, keyLength);
  }

  lemma {:induction false} FirstPartDiffers(buf: BYTES, ss: seq<Shape>, pos: nat, keyLength: nat)
    requires ss != [] && !Convertible(ss[0]) && ss[0].max <= 65535
    requires pos + StoreTotal(ss) <= keyLength <= |buf| && Holds(buf, pos, SearchImage(Witness(ss[0])))
    ensures |RecordImage(Witness(ss[0]))| >= 2 && pos + 1 < |buf|
    ensures Adjusted(buf, ss, pos, keyLength)[pos + 1] != RecordImage(Witness(ss[0]))[1]
  {
    SecondByteWrong(buf, ss[0], pos, keyLength);
    AdjustedStep(buf, ss, pos, keyLength);
    AdjustedKeepsFront(Round(buf, ss[0], pos, keyLength), ss[1..], pos + PackLength(ss[0]), keyLength, pos + 1);
  }

  lemma {:induction false} AdjustedStep(buf: BYTES, ss: seq<Shape>, pos: nat, keyLength: nat)
    requires ss != [] && pos + StoreTotal(ss) <= keyLength <= |buf|
    ensures pos + PackLength(ss[0]) + StoreTotal(ss[1..]) <= keyLength
    ensures Adjusted(buf, ss, pos, keyLength)
      == Adjusted(Round(buf, ss[0], pos, keyLength), ss[1..], pos + PackLength(ss[0]), keyLength)
  {
  }

  lemma {:induction false} LaterPartFails(ss: seq<Shape>)
    requires ss != [] && !AllConvertible(ss) && Convertible(ss[0])
    ensures !AllConvertible(ss[1..])
  {
    var j :| 0 <= j < |ss| && !Convertible(ss[j]);
    assert ss[1..][j - 1] == ss[j];
  }

  lemma {:induction false} SecondByteWrong(buf: BYTES, s: Shape, pos: nat, keyLength: nat)
    requires !Convertible(s) && s.max <= 65535
    requires pos + |SearchImage(Witness(s))| <= keyLength <= |buf| && Holds(buf, pos, SearchImage(Witness(s)))
    ensures |RecordImage(Witness(s))| >= 2
    ensures Round(buf, s, pos, keyLength)[pos + 1] != RecordImage(Witness(s))[1]
  {
    var image := SearchImage(Witness(s));
    assert image[1] == 0 && image[2] == 1;
    assert buf[pos..pos + |image|] == image;
    assert buf[pos + 1] == 0 && buf[pos + 2] == 1;
    if s.max < 256 {
      assert !Shifts(s) && RecordImage(Witness(s))[1] == 1;
    } else {
      assert Shifts(s) && RecordImage(Witness(s))[1] == 0;
      assert ShiftAt(buf, pos, keyLength)[pos + 1] == buf[pos + 2];
    }
  }

  /** The loop reproduces the record's key for every search key of the given part shapes if and only if
      every part is convertible. */
  lemma {:induction false} KeyImagesAgreeIff(ss: seq<Shape>)
    requires ShapesOk(ss)
    ensures (forall fs :: FieldsOk(fs) && Shapes(fs) == ss && |SearchKey(fs)| == StoreTotal(ss) ==>
        HashedSearch(SearchKey(fs), ss) == RecordKey(fs)) <==> AllConvertible(ss)
  {
    if AllConvertible(ss) {
      forall fs | FieldsOk(fs) && Shapes(fs) == ss && |SearchKey(fs)| == StoreTotal(ss)
        ensures HashedSearch(SearchKey(fs), ss) == RecordKey(fs)
      {
        KeyImagesAgree(fs);
      }
    } else {
      var fs := Witnesses(ss);
      assert Shapes(fs) == ss;
      KeyLengths(fs);
      var key := SearchKey(fs);
      var buf := key + ZeroBytes(7 * |key|);
      assert Holds(buf, 0, key);
      var i := AdjustedDiffers(buf, fs, 0, |key|, ss, Adjusted(buf, ss, 0, |key|));
      PackBelowStore(ss);
      assert HashedSearch(key, ss)[i] != RecordKey(fs)[i];
    }
  }
}
