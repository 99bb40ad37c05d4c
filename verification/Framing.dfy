/** The '####' framing of a table scan: where the decoder's search for the separator's hex digits can
    go wrong, and the exact condition under which it does not (adapter_ethereum.cpp split,
    TableStorage.sol tableScan). */
module Framing {
  import opened Bytes
  import opened Hex

  /** "####" as bytes, and as the hex digits that the decoder searches for. */
  const SEPARATOR: BYTES := [0x23, 0x23, 0x23, 0x23]
  const TOKEN := "23232323"

  predicate OccursAt(s: string, p: nat) {
    p + 8 <= |s| && s[p..p + 8] == TOKEN
  }

  /** Four '#' bytes in a row. */
  predicate HashesAt(v: BYTES, i: nat) {
    i + 4 <= |v| && v[i..i + 4] == SEPARATOR
  }

  /** The token's digits, shifted by half a byte: ?2 32 32 32 3?. */
  predicate StraddleAt(v: BYTES, i: nat) {
    i + 5 <= |v| && v[i] % 16 == 2 && v[i + 1] == v[i + 2] == v[i + 3] == 0x32 && v[i + 4] / 16 == 3
  }

  /** What a stored value must satisfy to survive a table scan, said of its bytes. */
  predicate SeparatorSafe(v: BYTES) {
    && (forall i | 0 <= i < |v| :: !HashesAt(v, i))
    && (forall i | 0 <= i < |v| :: !StraddleAt(v, i))
    && (v != [] ==> v[|v| - 1] != 0x23)
  }

  lemma {:induction false} TokenIsSeparator()
    ensures ToHex(SEPARATOR) == TOKEN
  {
    assert HexAt(SEPARATOR, 0) == '2' && HexAt(SEPARATOR, 1) == '3';
  }

  lemma {:induction false} EvenOccurrence(v: BYTES, i: nat)
    ensures OccursAt(ToHex(v), 2 * i) <==> HashesAt(v, i)
  {
    TokenIsSeparator();
    if i + 4 <= |v| {
      ToHexSlice(v, i, i + 4);
      if ToHex(v[i..i + 4]) == ToHex(SEPARATOR) {
        ToHexInjective(v[i..i + 4], SEPARATOR);
      }
    }
  }

  lemma {:induction false} TwosAndThrees(d: Nibble)
    ensures Digit(d) == '2' <==> d == 2
    ensures Digit(d) == '3' <==> d == 3
  {
    DigitRoundTrip(d);
  }

  /** The two digits of byte i sit at 2i and 2i + 1. */
  lemma {:induction false} DigitsOf(v: BYTES, i: nat)
    requires i < |v|
    ensures ToHex(v)[2 * i] == '3' <==> v[i] / 16 == 3
    ensures ToHex(v)[2 * i + 1] == '2' <==> v[i] % 16 == 2
    ensures ToHex(v)[2 * i] == '2' && ToHex(v)[2 * i + 1] == '3' <==> v[i] == 0x23
    ensures ToHex(v)[2 * i] == '3' && ToHex(v)[2 * i + 1] == '2' <==> v[i] == 0x32
  {
    assert ToHex(v)[2 * i] == HexAt(v, 2 * i) && ToHex(v)[2 * i + 1] == HexAt(v, 2 * i + 1);
    TwosAndThrees(v[i] / 16);
    TwosAndThrees(v[i] % 16);
  }

  lemma {:induction false} TokenDigits(s: string, p: nat)
    requires p + 8 <= |s|
    ensures s[p..p + 8] == TOKEN <==>
      s[p] == s[p + 2] == s[p + 4] == s[p + 6] == '2' && s[p + 1] == s[p + 3] == s[p + 5] == s[p + 7] == '3'
  {
    var w := s[p..p + 8];
    assert w[0] == s[p] && w[1] == s[p + 1] && w[2] == s[p + 2] && w[3] == s[p + 3];
    assert w[4] == s[p + 4] && w[5] == s[p + 5] && w[6] == s[p + 6] && w[7] == s[p + 7];
  }

  /** The digits of byte i, as far as the token is concerned. */
  ghost predicate DigitsAt(s: string, v: BYTES, i: nat)
    requires |s| == 2 * |v| && i < |v|
  {
    && (s[2 * i] == '3' <==> v[i] / 16 == 3) && (s[2 * i + 1] == '2' <==> v[i] % 16 == 2)
    && (s[2 * i] == '3' && s[2 * i + 1] == '2' <==> v[i] == 0x32)
  }

  lemma {:induction false} OddDigits(s: string, v: BYTES, i: nat)
    requires |s| == 2 * |v| && i + 5 <= |v|
    requires forall j {:trigger DigitsAt(s, v, j)} :: i <= j < i + 5 ==> DigitsAt(s, v, j)
    ensures OccursAt(s, 2 * i + 1) <==> StraddleAt(v, i)
  {
    TokenDigits(s, 2 * i + 1);
    assert DigitsAt(s, v, i) && DigitsAt(s, v, i + 1) && DigitsAt(s, v, i + 2) && DigitsAt(s, v, i + 3) &&
      DigitsAt(s, v, i + 4);
  }

  lemma {:induction false} OddOccurrence(v: BYTES, i: nat)
    ensures OccursAt(ToHex(v), 2 * i + 1) <==> StraddleAt(v, i)
  {
    if i + 5 <= |v| {
      forall j | i <= j < i + 5 ensures DigitsAt(ToHex(v), v, j) {
        DigitsOf(v, j);
      }
      OddDigits(ToHex(v), v, i);
    }
  }

  /** An occurrence that begins inside the value and runs into the token: only an even number of digits
      can lie inside, and then the value ends in '#'. */
  lemma {:induction false} StraddlingOccurrence(v: BYTES, rest: string, p: nat)
    requires p < 2 * |v| < p + 8 && OccursAt(ToHex(v) + TOKEN + rest, p)
    ensures p % 2 == 0 && v[|v| - 1] == 0x23
  {
    var h := ToHex(v);
    var s := h + TOKEN + rest;
    var m, n := 2 * |v| - p, |v| - 1;
    assert s[p..p + 8][m] == s[p + m] == TOKEN[0];
    assert m % 2 == 0;
    assert s[p..p + 8][m - 2] == s[2 * n] == h[2 * n];
    assert s[p..p + 8][m - 1] == s[2 * n + 1] == h[2 * n + 1];
    assert TOKEN[m - 2] == '2' && TOKEN[m - 1] == '3';
    DigitsOf(v, n);
  }

  lemma {:induction false} TrailingHashOccurs(v: BYTES, rest: string)
    requires v != [] && v[|v| - 1] == 0x23
    ensures OccursAt(ToHex(v) + TOKEN + rest, 2 * |v| - 2)
  {
    var n := |v| - 1;
    var s := ToHex(v) + TOKEN + rest;
    assert s[2 * n] == HexAt(v, 2 * n) == '2' && s[2 * n + 1] == HexAt(v, 2 * n + 1) == '3';
    assert s[2 * n..2 * n + 8] == [s[2 * n], s[2 * n + 1]] + TOKEN[..6];
  }

  lemma {:induction false} OccursInside(v: BYTES, rest: string, p: nat)
    requires p + 8 <= 2 * |v|
    ensures OccursAt(ToHex(v) + TOKEN + rest, p) <==> OccursAt(ToHex(v), p)
  {
    assert (ToHex(v) + TOKEN + rest)[p..p + 8] == ToHex(v)[p..p + 8];
  }

  lemma {:induction false} SafeHasNone(v: BYTES, rest: string, p: nat)
    requires SeparatorSafe(v) && p < 2 * |v|
    ensures !OccursAt(ToHex(v) + TOKEN + rest, p)
  {
    if OccursAt(ToHex(v) + TOKEN + rest, p) {
      if p + 8 > 2 * |v| {
        StraddlingOccurrence(v, rest, p);
      } else {
        OccursInside(v, rest, p);
        EvenOccurrence(v, p / 2);
        OddOccurrence(v, p / 2);
      }
    }
  }

  lemma {:induction false} UnsafeHasOne(v: BYTES, rest: string, i: nat)
    requires i < |v| && (HashesAt(v, i) || StraddleAt(v, i))
    ensures exists p :: 0 <= p < 2 * |v| && OccursAt(ToHex(v) + TOKEN + rest, p)
  {
    if HashesAt(v, i) {
      EvenOccurrence(v, i);
      OccursInside(v, rest, 2 * i);
    } else {
      OddOccurrence(v, i);
      OccursInside(v, rest, 2 * i + 1);
    }
  }

  /** In hex(v) + token + rest the first occurrence of the token is the intended one if and only if v is
      separator-safe; what follows never matters. */
  lemma {:induction false} FirstOccurrenceIff(v: BYTES, rest: string)
    ensures OccursAt(ToHex(v) + TOKEN + rest, 2 * |v|)
    ensures (forall p :: 0 <= p < 2 * |v| ==> !OccursAt(ToHex(v) + TOKEN + rest, p)) <==> SeparatorSafe(v)
  {
    var s := ToHex(v) + TOKEN + rest;
    assert s[2 * |v|..2 * |v| + 8] == TOKEN;
    if SeparatorSafe(v) {
      forall p | 0 <= p < 2 * |v| ensures !OccursAt(s, p) {
        SafeHasNone(v, rest, p);
      }
    } else if v[|v| - 1] == 0x23 {
      TrailingHashOccurs(v, rest);
    } else {
      var i :| 0 <= i < |v| && (HashesAt(v, i) || StraddleAt(v, i));
      UnsafeHasOne(v, rest, i);
    }
  }

  /** A value without a single '#' that the scan nevertheless cuts in two. */
  lemma {:induction false} HashFreeButUnsafe()
    ensures var v: BYTES := [0x02, 0x32, 0x32, 0x32, 0x30]; 0x23 !in v && !SeparatorSafe(v)
  {
    assert StraddleAt([0x02, 0x32, 0x32, 0x32, 0x30], 0);
  }

  // ---------------------------------------------------------------- the search loop

  /** std::string::find for the token. */
  function FindFrom(s: string, p: nat): (r: Option<nat>)
    ensures r.Some? ==> p <= r.value && OccursAt(s, r.value)
    ensures forall q :: p <= q < (if r.Some? then r.value else |s|) ==> !OccursAt(s, q)
    decreases |s| - p
  {
    if p + 8 > |s| then None
    else if OccursAt(s, p) then Some(p)
    else FindFrom(s, p + 1)
  }

  /** The pieces that the token loop cuts off. */
  function Tokens(s: string): seq<string>
    decreases |s|
  {
    match FindFrom(s, 0)
    case None => []
    case Some(p) => [s[..p]] + Tokens(s[p + 8..])
  }

  /** Pieces, each with the token behind it, and what is left. */
  function Framed(pieces: seq<string>, rest: string): string {
    if pieces == [] then rest else pieces[0] + TOKEN + Framed(pieces[1..], rest)
  }

  /** The first token of s is at p. */
  ghost predicate FirstAt(s: string, p: nat) {
    OccursAt(s, p) && forall q :: 0 <= q < p ==> !OccursAt(s, q)
  }

  /** Every piece ends at the first token of what is left of the text, and no token is in the rest. */
  ghost predicate CutAtFirst(pieces: seq<string>, rest: string)
    decreases |pieces|
  {
    if pieces == [] then forall q :: 0 <= q < |rest| ==> !OccursAt(rest, q)
    else FirstAt(Framed(pieces, rest), |pieces[0]|) && CutAtFirst(pieces[1..], rest)
  }

  /** That is what the loop cuts off, and nothing else is. */
  lemma {:induction false} TokensIff(s: string, pieces: seq<string>)
    ensures pieces == Tokens(s) <==> exists rest :: s == Framed(pieces, rest) && CutAtFirst(pieces, rest)
    decreases |s|
  {
    if pieces == Tokens(s) {
      var rest := TokensCut(s);
    }
    forall rest | s == Framed(pieces, rest) && CutAtFirst(pieces, rest) ensures pieces == Tokens(s) {
      CutIsTokens(s, pieces, rest);
    }
  }

  lemma {:induction false} TokensCut(s: string) returns (rest: string)
    ensures s == Framed(Tokens(s), rest) && CutAtFirst(Tokens(s), rest)
    decreases |s|
  {
    var found := FindFrom(s, 0);
    if found.Some? {
      var p := found.value;
      rest := TokensCut(s[p + 8..]);
      FramedCons(s, p, Tokens(s), Tokens(s[p + 8..]), rest);
    } else {
      rest := s;
    }
  }

  lemma {:induction false} FramedCons(s: string, p: nat, pieces: seq<string>, more: seq<string>, rest: string)
    requires FirstAt(s, p) && pieces == [s[..p]] + more
    requires s[p + 8..] == Framed(more, rest) && CutAtFirst(more, rest)
    ensures s == Framed(pieces, rest) && CutAtFirst(pieces, rest)
  {
    assert pieces[1..] == more;
    assert s == s[..p] + s[p..p + 8] + s[p + 8..];
  }

  lemma {:induction false} CutIsTokens(s: string, pieces: seq<string>, rest: string)
    requires s == Framed(pieces, rest) && CutAtFirst(pieces, rest)
    ensures pieces == Tokens(s)
    decreases |pieces|
  {
    if pieces == [] {
      var found := FindFrom(s, 0);
    } else {
      CutFirst(s, pieces[0], Framed(pieces[1..], rest));
      CutIsTokens(Framed(pieces[1..], rest), pieces[1..], rest);
      assert pieces == [pieces[0]] + pieces[1..];
    }
  }

  lemma {:induction false} CutFirst(s: string, piece: string, tail: string)
    requires s == piece + TOKEN + tail && FirstAt(s, |piece|)
    ensures Tokens(s) == [piece] + Tokens(tail)
  {
    var found := FindFrom(s, 0);
    assert found == Some(|piece|);
    assert s[..|piece|] == piece && s[|piece| + 8..] == tail;
  }

  /** With a token at p the first one is not behind it; between is what lies behind the first and before p's end. */
  lemma {:induction false} AfterFirst(s: string, p: nat, tail: string) returns (between: string)
    requires OccursAt(s, p) && tail == s[p + 8..]
    ensures |Tokens(s)| == 1 + |Tokens(between + tail)|
  {
    var first := FindFrom(s, 0);
    assert first.Some? && first.value <= p;
    var q := first.value;
    between := s[q + 8..p + 8];
    assert s[q + 8..] == between + tail;
  }

  lemma OccursBehind(front: string, s: string, p: nat, all: string, at: nat, tail: string)
    requires OccursAt(s, p) && all == front + s && at == |front| + p && tail == s[p + 8..]
    ensures OccursAt(all, at) && all[at + 8..] == tail
  {
    assert all[at..at + 8] == s[p..p + 8];
  }

  /** A text in front costs no token. */
  lemma {:induction false} TokensBehind(front: string, s: string)
    ensures |Tokens(front + s)| >= |Tokens(s)|
    decreases |s|
  {
    var found := FindFrom(s, 0);
    if found.Some? {
      var all, at, tail := front + s, |front| + found.value, s[found.value + 8..];
      OccursBehind(front, s, found.value, all, at, tail);
      var between := AfterFirst(all, at, tail);
      TokensBehind(between, tail);
      assert |Tokens(s)| == 1 + |Tokens(tail)|;
    }
  }

  /** The loop finds at least as many tokens as were written. */
  lemma {:induction false} TokenMore(front: string, s: string)
    ensures |Tokens(front + TOKEN + s)| >= 1 + |Tokens(s)|
  {
    var all := front + TOKEN + s;
    assert all[|front|..|front| + 8] == TOKEN && all[|front| + 8..] == s;
    var between := AfterFirst(all, |front|, s);
    TokensBehind(between, s);
  }

  /** tableScan's concatenation: every value followed by the separator. */
  function Blob(values: seq<BYTES>): BYTES {
    if values == [] then [] else values[0] + SEPARATOR + Blob(values[1..])
  }

  lemma {:induction false} BlobAppend(values: seq<BYTES>, v: BYTES)
    ensures Blob(values + [v]) == Blob(values) + v + SEPARATOR
  {
    if values == [] {
      assert [v][1..] == [];
    } else {
      assert (values + [v])[1..] == values[1..] + [v];
      BlobAppend(values[1..], v);
    }
  }

  ghost predicate AllSafe(values: seq<BYTES>) {
    forall i :: 0 <= i < |values| ==> SeparatorSafe(values[i])
  }

  function HexAll(values: seq<BYTES>): (hs: seq<string>)
    ensures |hs| == |values|
  {
    seq(|values|, i requires 0 <= i < |values| => ToHex(values[i]))
  }

  /** The first piece: never longer than the value, and exactly the value if and only if that is safe. */
  lemma {:induction false} FirstToken(v: BYTES, rest: BYTES)
    ensures var ts := Tokens(ToHex(v + SEPARATOR + rest));
      if SeparatorSafe(v) then ts == [ToHex(v)] + Tokens(ToHex(rest))
      else ts != [] && |ts[0]| < 2 * |v|
  {
    var h := ToHex(rest);
    var s := ToHex(v + SEPARATOR + rest);
    TokenIsSeparator();
    ToHexConcat(v + SEPARATOR, rest);
    ToHexConcat(v, SEPARATOR);
    assert s == ToHex(v) + TOKEN + h;
    FirstOccurrenceIff(v, h);
    var found := FindFrom(s, 0);
    assert found.Some? && found.value <= 2 * |v|;
    if SeparatorSafe(v) {
      assert s[..2 * |v|] == ToHex(v) && s[2 * |v| + 8..] == h;
    }
  }

  /** So a scan of n rows never yields fewer than n pieces. */
  lemma {:induction false} EnoughTokens(values: seq<BYTES>, pad: nat)
    ensures |Tokens(ToHex(Blob(values) + ZeroBytes(pad)))| >= |values|
  {
    if values != [] {
      var v, rest := values[0], Blob(values[1..]) + ZeroBytes(pad);
      assert Blob(values) + ZeroBytes(pad) == v + SEPARATOR + rest;
      TokenIsSeparator();
      ToHexConcat(v + SEPARATOR, rest);
      ToHexConcat(v, SEPARATOR);
      TokenMore(ToHex(v), ToHex(rest));
      EnoughTokens(values[1..], pad);
    }
  }

  lemma {:induction false} NoTokenInZeros(pad: nat)
    ensures Tokens(ToHex(ZeroBytes(pad))) == []
  {
    ZeroBytesHex(pad);
    forall p: nat ensures !OccursAt(Zeros(2 * pad), p) {
      if p + 8 <= 2 * pad {
        assert Zeros(2 * pad)[p..p + 8][0] == '0';
      }
    }
  }

  lemma {:induction false} HexAllCons(values: seq<BYTES>)
    requires values != []
    ensures HexAll(values) == [ToHex(values[0])] + HexAll(values[1..])
  {
  }

  /** All values safe: the loop recovers every one of them, and stops at the padding. */
  lemma {:induction false} SafeTokens(values: seq<BYTES>, pad: nat)
    requires AllSafe(values)
    ensures Tokens(ToHex(Blob(values) + ZeroBytes(pad))) == HexAll(values)
  {
    if values == [] {
      assert Blob(values) + ZeroBytes(pad) == ZeroBytes(pad);
      NoTokenInZeros(pad);
    } else {
      var rest := Blob(values[1..]) + ZeroBytes(pad);
      assert Blob(values) + ZeroBytes(pad) == values[0] + SEPARATOR + rest;
      FirstToken(values[0], rest);
      SafeTokens(values[1..], pad);
      HexAllCons(values);
    }
  }

  /** Some value unsafe: the first unsafe one comes out shorter than it went in. */
  lemma {:induction false} UnsafeToken(values: seq<BYTES>, pad: nat) returns (i: nat)
    requires !AllSafe(values)
    ensures i < |values|
    ensures var ts := Tokens(ToHex(Blob(values) + ZeroBytes(pad)));
      i < |ts| && |ts[i]| < 2 * |values[i]|
  {
    var v, tail := values[0], values[1..];
    var rest := Blob(tail) + ZeroBytes(pad);
    assert Blob(values) + ZeroBytes(pad) == v + SEPARATOR + rest;
    FirstToken(v, rest);
    if SeparatorSafe(v) {
      assert !AllSafe(tail) by {
        var j :| 0 <= j < |values| && !SeparatorSafe(values[j]);
        assert values[j] == tail[j - 1];
      }
      var k := UnsafeToken(tail, pad);
      i := k + 1;
      assert tail[k] == values[i];
    } else {
      i := 0;
    }
  }
}
