/** The parts of the Solidity contract ABI that the table contract's functions use, read from the
    "Formal Specification of the Encoding" and "Use of Dynamic Types" sections of the Solidity Contract
    ABI Specification. Decoding is non-strict: no padding after the last byte is asked for. */
module Abi {
  import opened Bytes
  import opened Hex

  /** The uint256 at a position, if there is one. */
  function UintAt(data: BYTES, pos: nat): Option<nat> {
    if pos + 32 <= |data| then Some(Num(data[pos..pos + 32])) else None
  }

  function WordAt(data: BYTES, pos: nat): (r: Option<BYTES>)
    ensures r.Some? ==> |r.value| == 32
  {
    if pos + 32 <= |data| then Some(data[pos..pos + 32]) else None
  }

  /** A length word followed by that many bytes. */
  function StringAt(data: BYTES, pos: nat): Option<BYTES> {
    match UintAt(data, pos)
    case None => None
    case Some(n) => if pos + 32 + n <= |data| then Some(data[pos + 32..pos + 32 + n]) else None
  }

  /** n string heads from position head, their offsets counted from base. */
  function StringsAt(data: BYTES, base: nat, head: nat, n: nat): Option<seq<BYTES>>
    decreases n
  {
    if n == 0 then Some([])
    else
      match UintAt(data, head)
      case None => None
      case Some(offset) =>
        match (StringAt(data, base + offset), StringsAt(data, base, head + 32, n - 1))
        case (Some(v), Some(rest)) => Some([v] + rest)
        case _ => None
  }

  function WordsAt(data: BYTES, pos: nat, n: nat): (r: Option<seq<BYTES>>)
    ensures r.Some? ==> Words(r.value)
    decreases n
  {
    if n == 0 then Some([])
    else
      match (WordAt(data, pos), WordsAt(data, pos + 32, n - 1))
      case (Some(w), Some(rest)) => Some([w] + rest)
      case _ => None
  }

  /** Arguments (bytes32, string). */
  function DecodePut(args: BYTES): Option<(BYTES, BYTES)> {
    match (WordAt(args, 0), UintAt(args, 32))
    case (Some(key), Some(offset)) =>
      (match StringAt(args, offset)
       case Some(value) => Some((key, value))
       case None => None)
    case _ => None
  }

  /** Arguments (bytes32[], string[]). */
  function DecodePutBatch(args: BYTES): Option<(seq<BYTES>, seq<BYTES>)> {
    match (UintAt(args, 0), UintAt(args, 32))
    case (Some(p), Some(q)) =>
      (match (UintAt(args, p), UintAt(args, q))
       case (Some(m), Some(n)) =>
         (match (WordsAt(args, p + 32, m), StringsAt(args, q + 32, q + 32, n))
          case (Some(keys), Some(values)) => Some((keys, values))
          case _ => None)
       case _ => None)
    case _ => None
  }

  /** A single string, as get returns it, with pad zero bytes after it. */
  function EncodeString(value: BYTES, pad: nat): BYTES {
    Word(32) + Word(|value|) + value + ZeroBytes(pad)
  }

  function Concat(words: seq<BYTES>): BYTES {
    if words == [] then [] else words[0] + Concat(words[1..])
  }

  ghost predicate Words(ws: seq<BYTES>) {
    forall i :: 0 <= i < |ws| ==> |ws[i]| == 32
  }

  /** A bytes32[] and a string, as tableScan returns them, with pad zero bytes after the string. */
  function EncodeScan(keys: seq<BYTES>, text: BYTES, pad: nat): BYTES {
    Word(64) + Word(96 + 32 * |keys|) + Word(|keys|) + Concat(keys) + Word(|text|) + text + ZeroBytes(pad)
  }

  lemma {:induction false} ConcatAt(ws: seq<BYTES>, i: nat)
    requires Words(ws) && i < |ws|
    ensures |Concat(ws)| == 32 * |ws| && Concat(ws)[32 * i..32 * i + 32] == ws[i]
  {
    ConcatLength(ws);
    if i == 0 {
    } else {
      var rest := ws[1..];
      ConcatAt(rest, i - 1);
      assert Concat(ws)[32 * i..32 * i + 32] == Concat(rest)[32 * (i - 1)..32 * (i - 1) + 32];
    }
  }

  lemma {:induction false} ConcatLength(ws: seq<BYTES>)
    requires Words(ws)
    ensures |Concat(ws)| == 32 * |ws|
  {
    if ws != [] {
      ConcatLength(ws[1..]);
    }
  }

  lemma {:induction false} ConcatAppend(ws: seq<BYTES>, w: BYTES)
    ensures Concat(ws + [w]) == Concat(ws) + w
  {
    if ws == [] {
      assert [w][1..] == [];
    } else {
      assert (ws + [w])[1..] == ws[1..] + [w];
      ConcatAppend(ws[1..], w);
    }
  }

  lemma SliceInside(head: BYTES, mid: BYTES, tail: BYTES, lo: nat, hi: nat)
    requires lo <= hi <= |mid|
    ensures (head + mid + tail)[|head| + lo..|head| + hi] == mid[lo..hi]
  {
  }

  lemma {:induction false} LayoutOf(data: BYTES, v: BYTES, w: BYTES, count: BYTES, keys: seq<BYTES>, tail: BYTES)
    requires Words(keys) && |v| == |w| == |count| == 32 && data == v + w + count + Concat(keys) + tail
    ensures |data| == 32 * (|keys| + 3) + |tail| && data[64..96] == count && data[32 * (|keys| + 3)..] == tail
    ensures forall i :: 0 <= i < |keys| ==> data[32 * (i + 3)..32 * (i + 4)] == keys[i]
  {
    ConcatLength(keys);
    forall i | 0 <= i < |keys| ensures data[32 * (i + 3)..32 * (i + 4)] == keys[i] {
      ConcatAt(keys, i);
      SliceInside(v + w + count, Concat(keys), tail, 32 * i, 32 * i + 32);
    }
  }

  /** Where the decoder finds the pieces of a scan reply. */
  lemma {:induction false} EncodeScanLayout(keys: seq<BYTES>, text: BYTES, pad: nat)
    requires Words(keys)
    ensures var b, n := EncodeScan(keys, text, pad), |keys|;
      && |b| == 32 * (n + 4) + |text| + pad
      && b[64..96] == Word(n)
      && b[32 * (n + 4)..] == text + ZeroBytes(pad)
      && forall i :: 0 <= i < n ==> b[32 * (i + 3)..32 * (i + 4)] == keys[i]
  {
    ScanLayout(Word(64), Word(96 + 32 * |keys|), Word(|keys|), keys, Word(|text|), text, ZeroBytes(pad));
  }

  lemma {:induction false} ScanLayout(v: BYTES, w: BYTES, count: BYTES, keys: seq<BYTES>, length: BYTES, text: BYTES,
                                      zeros: BYTES)
    requires Words(keys) && |v| == |w| == |count| == |length| == 32
    ensures var b, n := v + w + count + Concat(keys) + length + text + zeros, |keys|;
      && |b| == 32 * (n + 4) + |text| + |zeros|
      && b[64..96] == count
      && b[32 * (n + 4)..] == text + zeros
      && forall i :: 0 <= i < n ==> b[32 * (i + 3)..32 * (i + 4)] == keys[i]
  {
    var b := v + w + count + Concat(keys) + length + text + zeros;
    LayoutOf(b, v, w, count, keys, length + text + zeros);
    TailOf(b, 32 * (|keys| + 3), length, text, zeros);
  }

  lemma {:induction false} TailOf(b: BYTES, p: nat, w: BYTES, text: BYTES, zeros: BYTES)
    requires p <= |b| && b[p..] == w + text + zeros && |w| == 32
    ensures b[p + 32..] == text + zeros
  {
    assert b[p + 32..] == b[p..][32..];
  }

  lemma {:induction false} StringRoundTrip(before: BYTES, value: BYTES, after: BYTES)
    requires |value| < Pow256(32)
    ensures StringAt(before + Word(|value|) + value + after, |before|) == Some(value)
  {
    var data, p := before + Word(|value|) + value + after, |before|;
    BigEndianNum(|value|, 32);
    assert data[p..p + 32] == Word(|value|);
    assert data[p + 32..p + 32 + |value|] == value;
  }
}
