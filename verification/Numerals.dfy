/** What the extraction of an int in hex mode makes of any text: every text taken apart, and what each form is
    read as (encoding_helpers.cpp hex_to_int). */
module Numerals {
  import opened Bytes
  import opened Hex

  predicate IsBlank(s: string) { forall c :: c in s ==> IsSpace(c) }

  /** 0x, any number of times. */
  predicate IsPrefix(s: string) {
    s == "" || (StartsPrefix(s) && IsPrefix(s[2..]))
  }

  predicate StartsPrefix(s: string) {
    |s| >= 2 && s[0] == '0' && (s[1] == 'x' || s[1] == 'X')
  }

  /** White space, a sign, prefixes, digits, and what the extraction leaves unread. */
  datatype Numeral = Numeral(blanks: string, sign: string, prefix: string, digits: string, rest: string)

  predicate Unsigned(s: string) {
    s == "" || (!IsSpace(s[0]) && s[0] != '-' && s[0] != '+')
  }

  predicate Form(n: Numeral) {
    && IsBlank(n.blanks) && n.sign in ["", "-", "+"] && IsPrefix(n.prefix) && IsHex(n.digits)
    && (n.rest == "" || !IsHexDigit(n.rest[0])) && !StartsPrefix(n.digits + n.rest)
    && (n.sign == "" && n.prefix == "" && n.digits == "" ==> Unsigned(n.rest))
  }

  function Spelled(n: Numeral): string {
    n.blanks + (n.sign + (n.prefix + (n.digits + n.rest)))
  }

  /** A text of that form: nothing is stored if it is all white space, otherwise the number. */
  lemma {:induction false} ExtractForm(n: Numeral)
    requires Form(n)
    ensures Extract(Spelled(n)) ==
      if n.sign == "" && n.prefix == "" && n.digits == "" && n.rest == "" then None
      else Some(Clamp((if n.sign == "-" then -1 else 1) * ParseHex(n.digits)))
  {
    var tail := n.digits + n.rest;
    var body := n.prefix + tail;
    BodyStarts(n, tail, body);
    SkipsBlanks(n.blanks, n.sign + body);
    SkipsPrefix(n.prefix, tail);
    ReadsDigits(n.digits, n.rest);
    ExtractParts(Spelled(n), n.sign, body, tail, n.digits);
  }

  lemma {:induction false} ExtractParts(s: string, sign: string, body: string, tail: string, digits: string)
    requires SkipSpace(s) == sign + body && SkipPrefix(body) == tail && LeadingDigits(tail) == digits
    requires sign in ["", "-", "+"] && (sign == "" ==> Unsigned(body))
    ensures Extract(s) ==
      if sign + body == "" then None else Some(Clamp((if sign == "-" then -1 else 1) * ParseHex(digits)))
  {
    if sign == "" {
      assert sign + body == body;
    } else {
      assert (sign + body)[1..] == body && (sign + body)[0] == sign[0];
    }
  }

  lemma {:induction false} BodyStarts(n: Numeral, tail: string, body: string)
    requires Form(n) && tail == n.digits + n.rest && body == n.prefix + tail
    ensures n.sign + body == "" || !IsSpace((n.sign + body)[0])
    ensures n.sign == "" ==> Unsigned(body)
  {
    if n.prefix != "" {
      assert body[0] == '0';
    } else if n.digits != "" {
      assert body[0] == n.digits[0] && IsHexDigit(n.digits[0]);
    } else {
      assert body == n.rest;
    }
  }

  lemma {:induction false} SkipsBlanks(blanks: string, s: string)
    requires IsBlank(blanks) && (s == "" || !IsSpace(s[0]))
    ensures SkipSpace(blanks + s) == s
  {
    if blanks == "" {
      assert blanks + s == s;
    } else {
      assert (blanks + s)[1..] == blanks[1..] + s && (blanks + s)[0] == blanks[0];
      SkipsBlanks(blanks[1..], s);
    }
  }

  lemma {:induction false} SkipsPrefix(prefix: string, s: string)
    requires IsPrefix(prefix) && !StartsPrefix(s)
    ensures SkipPrefix(prefix + s) == s
  {
    if prefix == "" {
      assert prefix + s == s;
    } else {
      assert (prefix + s)[2..] == prefix[2..] + s;
      SkipsPrefix(prefix[2..], s);
    }
  }

  lemma {:induction false} ReadsDigits(digits: string, rest: string)
    requires IsHex(digits) && (rest == "" || !IsHexDigit(rest[0]))
    ensures LeadingDigits(digits + rest) == digits
  {
    if digits == "" {
      assert digits + rest == rest;
    } else {
      assert (digits + rest)[1..] == digits[1..] + rest;
      ReadsDigits(digits[1..], rest);
      assert digits == [digits[0]] + digits[1..];
    }
  }

  /** Every text has that form. */
  lemma {:induction false} FormExists(s: string) returns (n: Numeral)
    ensures Form(n) && s == Spelled(n)
  {
    var blanks, t := CutBlanks(s);
    var sign := if t != "" && t[0] == '-' then "-" else if t != "" && t[0] == '+' then "+" else "";
    var prefix, u := CutPrefix(t[|sign|..]);
    var digits, rest := CutDigits(u);
    n := Numeral(blanks, sign, prefix, digits, rest);
    assert t == sign + t[|sign|..];
    if sign == "" && prefix == "" && digits == "" {
      assert rest == t;
    }
  }

  lemma {:induction false} CutBlanks(s: string) returns (blanks: string, rest: string)
    ensures s == blanks + rest && IsBlank(blanks) && (rest == "" || !IsSpace(rest[0]))
  {
    if s != "" && IsSpace(s[0]) {
      blanks, rest := CutBlanks(s[1..]);
      blanks := [s[0]] + blanks;
    } else {
      return "", s;
    }
  }

  lemma {:induction false} CutPrefix(s: string) returns (prefix: string, rest: string)
    ensures s == prefix + rest && IsPrefix(prefix) && !StartsPrefix(rest)
  {
    if StartsPrefix(s) {
      prefix, rest := CutPrefix(s[2..]);
      assert (s[..2] + prefix)[2..] == prefix;
      prefix := s[..2] + prefix;
    } else {
      return "", s;
    }
  }

  lemma {:induction false} CutDigits(s: string) returns (digits: string, rest: string)
    ensures s == digits + rest && IsHex(digits) && (rest == "" || !IsHexDigit(rest[0]))
  {
    if s != "" && IsHexDigit(s[0]) {
      digits, rest := CutDigits(s[1..]);
      digits := [s[0]] + digits;
    } else {
      return "", s;
    }
  }
}
