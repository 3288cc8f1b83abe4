/**
 Share and session tokens: 32 random bytes in unpadded base64url (sections 5 and
 3.2 of RFC 4648). `DecodeString` is Go's lenient decoder: it skips line breaks and
 ignores the unused low bits of the last digit. SHA-256 is a free constructor, that
 is, an arbitrary injective function of the raw token.
 */
module Tokens {
  import opened Outcomes
  import opened Text

  type Crumb = x: int | 0 <= x < 4

  /** A byte by its four base-4 digits and a base64 digit by its three, high first. */
  datatype Byte = Byte(b3: Crumb, b2: Crumb, b1: Crumb, b0: Crumb)
  datatype Sextet = Sextet(d2: Crumb, d1: Crumb, d0: Crumb) {
    function Value(): (v: int)
      ensures 0 <= v < 64
    {
      16 * d2 + 4 * d1 + d0
    }
  }

  function SextetOf(v: int): (d: Sextet)
    requires 0 <= v < 64
    ensures d.Value() == v
  {
    var high := if v < 16 then 0 else if v < 32 then 1 else if v < 48 then 2 else 3;
    var rest := v - 16 * high;
    var middle := if rest < 4 then 0 else if rest < 8 then 1 else if rest < 12 then 2 else 3;
    Sextet(high, middle, rest - 4 * middle)
  }

  datatype Digest = Sha256Hex(raw: string)

  const TOKEN_BYTES := 32
  const TOKEN_CHARS := 43

  lemma SextetUnique(d: Sextet)
    ensures SextetOf(d.Value()) == d
  {
    var e := SextetOf(d.Value());
    assert 16 * (e.d2 - d.d2) + 4 * (e.d1 - d.d1) + (e.d0 - d.d0) == 0;
  }

  function Symbol(digit: Sextet): (c: char)
    ensures ValueOf(c) == Some(digit)
    ensures (c as int) < 0x80
  {
    SextetUnique(digit);
    SymbolOf(digit.Value())
  }

  function SymbolOf(d: int): (c: char)
    requires 0 <= d < 64
    ensures ValueOf(c) == Some(SextetOf(d))
    ensures (c as int) < 0x80
  {
    if d < 26 then ('A' as int + d) as char
    else if d < 52 then ('a' as int + (d - 26)) as char
    else if d < 62 then ('0' as int + (d - 52)) as char
    else if d == 62 then '-'
    else '_'
  }

  function ValueOf(c: char): (d: Option<Sextet>)
  {
    if 'A' <= c <= 'Z' then Some(SextetOf(c as int - 'A' as int))
    else if 'a' <= c <= 'z' then Some(SextetOf(26 + (c as int - 'a' as int)))
    else if '0' <= c <= '9' then Some(SextetOf(52 + (c as int - '0' as int)))
    else if c == '-' then Some(SextetOf(62))
    else if c == '_' then Some(SextetOf(63))
    else None
  }

  // The digits cut from two adjacent bytes, and the bytes put together from two adjacent digits.

  function Digit0(a: Byte): Sextet { Sextet(a.b3, a.b2, a.b1) }
  function Digit1(a: Byte, b: Byte): Sextet { Sextet(a.b0, b.b3, b.b2) }
  function Digit2(b: Byte, c: Byte): Sextet { Sextet(b.b1, b.b0, c.b3) }
  function Digit3(c: Byte): Sextet { Sextet(c.b2, c.b1, c.b0) }

  function Byte0(p: Sextet, q: Sextet): Byte { Byte(p.d2, p.d1, p.d0, q.d2) }
  function Byte1(q: Sextet, r: Sextet): Byte { Byte(q.d1, q.d0, r.d2, r.d1) }
  function Byte2(r: Sextet, s: Sextet): Byte { Byte(r.d0, s.d2, s.d1, s.d0) }

  const ZERO := Byte(0, 0, 0, 0)

  /** The digits of the encoding: four per three bytes, then two or three for a tail. */
  function EncodeDigits(b: seq<Byte>): (d: seq<Sextet>)
    ensures 3 * |d| == 4 * |b| + (if |b| % 3 == 0 then 0 else if |b| % 3 == 1 then 2 else 1)
  {
    if |b| == 0 then []
    else if |b| == 1 then [Digit0(b[0]), Digit1(b[0], ZERO)]
    else if |b| == 2 then [Digit0(b[0]), Digit1(b[0], b[1]), Digit2(b[1], ZERO)]
    else [Digit0(b[0]), Digit1(b[0], b[1]), Digit2(b[1], b[2]), Digit3(b[2])] + EncodeDigits(b[3..])
  }

  function DecodeDigits(d: seq<Sextet>): (r: Option<seq<Byte>>)
  {
    if |d| == 0 then Some([])
    else if |d| == 1 then None
    else if |d| == 2 then Some([Byte0(d[0], d[1])])
    else if |d| == 3 then Some([Byte0(d[0], d[1]), Byte1(d[1], d[2])])
    else
      match DecodeDigits(d[4..])
      case None => None
      case Some(rest) => Some([Byte0(d[0], d[1]), Byte1(d[1], d[2]), Byte2(d[2], d[3])] + rest)
  }

  function Spell(d: seq<Sextet>): (s: string)
    ensures |s| == |d|
    ensures forall i :: 0 <= i < |d| ==> s[i] == Symbol(d[i])
  {
    seq(|d|, i requires 0 <= i < |d| => Symbol(d[i]))
  }

  function ReadDigits(s: string): (r: Option<seq<Sextet>>)
  {
    if s == "" then Some([])
    else if s[0] == '\r' || s[0] == '\n' then ReadDigits(s[1..])
    else
      match (ValueOf(s[0]), ReadDigits(s[1..]))
      case (Some(d), Some(rest)) => Some([d] + rest)
      case _ => None
  }

  function EncodeToString(b: seq<Byte>): (s: string) {
    Spell(EncodeDigits(b))
  }

  function DecodeString(s: string): (r: Option<seq<Byte>>) {
    match ReadDigits(s)
    case Some(d) => DecodeDigits(d)
    case None => None
  }

  /** A digest for an acceptable token; the empty string of the source is `None`. */
  function TokenHash(raw: string): (hash: Option<Digest>) {
    if ByteLen(raw) != TOKEN_CHARS then None
    else
      match DecodeString(raw)
      case None => None
      case Some(decoded) =>
        if |decoded| != TOKEN_BYTES || EncodeToString(decoded) != raw then None
        else Some(Sha256Hex(raw))
  }

  lemma {:induction false} DigitsRoundTrip(b: seq<Byte>)
    ensures DecodeDigits(EncodeDigits(b)) == Some(b)
  {
    if |b| == 1 {
      assert b == [b[0]];
    } else if |b| == 2 {
      assert b == [b[0], b[1]];
    } else if |b| >= 3 {
      DigitsRoundTrip(b[3..]);
      assert EncodeDigits(b)[4..] == EncodeDigits(b[3..]);
      assert b == [b[0], b[1], b[2]] + b[3..];
    }
  }

  lemma {:induction false} SpellRoundTrip(d: seq<Sextet>)
    ensures ReadDigits(Spell(d)) == Some(d)
    ensures ByteLen(Spell(d)) == |d|
  {
    if d != [] {
      SpellRoundTrip(d[1..]);
      assert Spell(d)[1..] == Spell(d[1..]);
      assert d == [d[0]] + d[1..];
    }
  }

  /** Decoding undoes encoding, for byte strings of every length. */
  lemma DecodeUndoesEncode(b: seq<Byte>)
    ensures DecodeString(EncodeToString(b)) == Some(b)
  {
    DigitsRoundTrip(b);
    SpellRoundTrip(EncodeDigits(b));
  }

  /** `NewToken`, with the bytes read from the random source as its argument. */
  function NewToken(random: seq<Byte>): (token: (string, Option<Digest>))
    requires |random| == TOKEN_BYTES
  {
    var raw := EncodeToString(random);
    (raw, TokenHash(raw))
  }

  lemma NewTokenAccepted(random: seq<Byte>)
    requires |random| == TOKEN_BYTES
    ensures var (raw, hash) := NewToken(random);
      |raw| == TOKEN_CHARS && hash == Some(Sha256Hex(raw)) && DecodeString(raw) == Some(random)
  {
    DecodeUndoesEncode(random);
    SpellRoundTrip(EncodeDigits(random));
  }

  /**
   Exactly the canonical encodings of 32-byte strings are given a digest, and no two
   of them stand for the same bytes or share a digest.
   */
  lemma AcceptedExactly(raw: string)
    ensures TokenHash(raw).Some? <==>
            exists b: seq<Byte> :: |b| == TOKEN_BYTES && EncodeToString(b) == raw
    ensures TokenHash(raw).Some? ==> |raw| == TOKEN_CHARS && TokenHash(raw) == Some(Sha256Hex(raw))
    ensures forall other :: TokenHash(raw).Some? && TokenHash(other).Some? && other != raw ==>
              TokenHash(other) != TokenHash(raw) && DecodeString(other) != DecodeString(raw)
  {
    forall b: seq<Byte> | |b| == TOKEN_BYTES && EncodeToString(b) == raw
      ensures TokenHash(raw).Some? && |raw| == TOKEN_CHARS
    {
      NewTokenAccepted(b);
    }
  }

  /** The encoding of 3n + 2 bytes with `low` in the two unused bits of its last digit. */
  function Sloppy(b: seq<Byte>, low: Crumb): (d: seq<Sextet>)
    requires |b| % 3 == 2
    ensures |d| == |EncodeDigits(b)|
  {
    if |b| == 2 then [Digit0(b[0]), Digit1(b[0], b[1]), Digit2(b[1], Byte(low, 0, 0, 0))]
    else EncodeDigits(b)[..4] + Sloppy(b[3..], low)
  }

  lemma {:induction false} LowBitsIgnored(b: seq<Byte>, low: Crumb)
    requires |b| % 3 == 2
    ensures DecodeDigits(Sloppy(b, low)) == Some(b)
    ensures Sloppy(b, low) == EncodeDigits(b) <==> low == 0
  {
    if |b| == 2 {
      assert b == [b[0], b[1]];
    } else {
      var e, d := EncodeDigits(b), Sloppy(b, low);
      LowBitsIgnored(b[3..], low);
      assert d[4..] == Sloppy(b[3..], low) && e[4..] == EncodeDigits(b[3..]);
      assert b == [b[0], b[1], b[2]] + b[3..];
      assert d == e[..4] + d[4..] && e == e[..4] + e[4..];
    }
  }

  /**
   Why the token is encoded again and compared: every accepted token has three more
   spellings of the same length that decode to the same bytes, and all are refused.
   */
  lemma SloppySpellingsRefused(b: seq<Byte>, low: Crumb)
    requires |b| == TOKEN_BYTES && low != 0
    ensures var sloppy := Spell(Sloppy(b, low));
      && |sloppy| == TOKEN_CHARS
      && DecodeString(sloppy) == Some(b)
      && TokenHash(sloppy) == None
  {
    var d := Sloppy(b, low);
    LowBitsIgnored(b, low);
    SpellRoundTrip(d);
    SpellRoundTrip(EncodeDigits(b));
  }
}
