/**
 * Base64 over the URL- and filename-safe alphabet (section 5 of RFC 4648),
 * padded with '=' as in section 4. The encoder is `base64.urlsafe_b64encode`;
 * the decoder is stricter than `base64.urlsafe_b64decode`.
 */
module Base64Url {
  import opened Wrappers
  import Utf8
  type byte = Utf8.byte

  /** The 64 symbols: 'A'-'Z', 'a'-'z', '0'-'9', '-' and '_'. */
  predicate IsSymbol(c: char) {
    'A' <= c <= 'Z' || 'a' <= c <= 'z' || '0' <= c <= '9' || c == '-' || c == '_'
  }

  function Symbol(v: int): (c: char)
    requires 0 <= v < 64
    ensures IsSymbol(c)
  {
    if v < 26 then ('A' as int + v) as char
    else if v < 52 then ('a' as int + v - 26) as char
    else if v < 62 then ('0' as int + v - 52) as char
    else if v == 62 then '-'
    else '_'
  }

  /** The 6-bit value a symbol stands for; the inverse of Symbol. */
  function Value(c: char): (v: int)
    requires IsSymbol(c)
    ensures 0 <= v < 64 && Symbol(v) == c
  {
    if 'A' <= c <= 'Z' then c as int - 'A' as int
    else if 'a' <= c <= 'z' then c as int - 'a' as int + 26
    else if '0' <= c <= '9' then c as int - '0' as int + 52
    else if c == '-' then 62
    else 63
  }

  lemma ValueSymbol(v: int)
    requires 0 <= v < 64
    ensures Value(Symbol(v)) == v
  {
  }

  /** Three bytes as four symbols. */
  function EncodeTriple(a: byte, b: byte, c: byte): (s: string)
    ensures |s| == 4 && forall i | 0 <= i < 4 :: IsSymbol(s[i])
  {
    [Symbol(a / 4), Symbol(a % 4 * 16 + b / 16), Symbol(b % 16 * 4 + c / 64), Symbol(c % 64)]
  }

  /** The number of '=' that close the encoding of `n` bytes. */
  function Padding(n: nat): nat {
    (3 - n % 3) % 3
  }

  /** `urlsafe_b64encode(b)`: four symbols per started group of three bytes. */
  function Encode(b: seq<byte>): (s: string)
    ensures |s| == 4 * ((|b| + 2) / 3)
    decreases |b|
  {
    if |b| == 0 then []
    else if |b| == 1 then [Symbol(b[0] / 4), Symbol(b[0] % 4 * 16), '=', '=']
    else if |b| == 2 then [Symbol(b[0] / 4), Symbol(b[0] % 4 * 16 + b[1] / 16), Symbol(b[1] % 16 * 4), '=']
    else EncodeTriple(b[0], b[1], b[2]) + Encode(b[3..])
  }

  /** Four symbols as three bytes. */
  function DecodeQuad(s: string): (b: seq<byte>)
    requires |s| == 4 && forall i | 0 <= i < 4 :: IsSymbol(s[i])
  {
    var w, x, y, z := Value(s[0]), Value(s[1]), Value(s[2]), Value(s[3]);
    [w * 4 + x / 16, x % 16 * 16 + y / 4, y % 4 * 64 + z]
  }

  /** The last group of four characters, which may end in one or two '='. */
  function DecodeLast(s: string): (r: Option<seq<byte>>)
    requires |s| == 4
  {
    if !IsSymbol(s[0]) || !IsSymbol(s[1]) then None
    else if s[2] == '=' && s[3] == '=' then
      Some([Value(s[0]) * 4 + Value(s[1]) / 16])
    else if IsSymbol(s[2]) && s[3] == '=' then
      Some([Value(s[0]) * 4 + Value(s[1]) / 16, Value(s[1]) % 16 * 16 + Value(s[2]) / 4])
    else if IsSymbol(s[2]) && IsSymbol(s[3]) then
      Some(DecodeQuad(s))
    else None
  }

  /**
   * `urlsafe_b64decode(s)`, stricter than Python: None for malformed padding or
   * length, and also for characters outside the alphabet, which Python drops.
   * A decoded text is exactly as long as the encoding of its result.
   */
  function Decode(s: string): (r: Option<seq<byte>>)
    ensures r.Some? ==> |s| == 4 * ((|r.value| + 2) / 3)
    decreases |s|
  {
    if |s| == 0 then Some([])
    else if |s| < 4 then None
    else if |s| == 4 then DecodeLast(s)
    else if IsSymbol(s[0]) && IsSymbol(s[1]) && IsSymbol(s[2]) && IsSymbol(s[3]) then
      match Decode(s[4..])
      case None => None
      case Some(rest) => Some(DecodeQuad(s[..4]) + rest)
    else None
  }

  /** One full group survives the round trip. */
  lemma DecodeQuadEncodeTriple(a: byte, b: byte, c: byte)
    ensures DecodeQuad(EncodeTriple(a, b, c)) == [a, b, c]
  {
    ValueSymbol(a / 4);
    ValueSymbol(a % 4 * 16 + b / 16);
    ValueSymbol(b % 16 * 4 + c / 64);
    ValueSymbol(c % 64);
  }

  lemma DecodeEncodeOne(a: byte)
    ensures Decode(Encode([a])) == Some([a])
  {
  }

  lemma DecodeEncodeTwo(a: byte, b: byte)
    ensures Decode(Encode([a, b])) == Some([a, b])
  {
    var s := Encode([a, b]);
    var x := a % 4 * 16 + b / 16;
    ValueSymbol(a / 4);
    ValueSymbol(x);
    ValueSymbol(b % 16 * 4);
    assert Value(s[0]) == a / 4 && Value(s[1]) == x && Value(s[2]) == b % 16 * 4;
    assert x / 16 == a % 4 && x % 16 == b / 16;
  }

  /** A leading full group decodes independently of what follows it. */
  lemma DecodeAfterQuad(q: string, t: string)
    requires |q| == 4 && forall i | 0 <= i < 4 :: IsSymbol(q[i])
    requires |t| >= 4
    ensures Decode(t).Some? ==> Decode(q + t) == Some(DecodeQuad(q) + Decode(t).value)
  {
  }

  lemma DecodeLastQuad(q: string)
    requires |q| == 4 && forall i | 0 <= i < 4 :: IsSymbol(q[i])
    ensures Decode(q) == Some(DecodeQuad(q))
  {
  }

  lemma DecodeEncodeThree(b: seq<byte>)
    requires |b| == 3
    ensures Decode(Encode(b)) == Some(b)
  {
    var q := EncodeTriple(b[0], b[1], b[2]);
    assert Encode(b) == q;
    DecodeLastQuad(q);
    DecodeQuadEncodeTriple(b[0], b[1], b[2]);
    assert DecodeQuad(q) == b;
  }

  /** Longer inputs encode one full group at a time. */
  lemma EncodeMore(b: seq<byte>)
    requires |b| > 3
    ensures Encode(b) == EncodeTriple(b[0], b[1], b[2]) + Encode(b[3..])
    ensures |Encode(b[3..])| >= 4
  {
  }

  lemma DecodeEncodeMore(b: seq<byte>)
    requires |b| > 3
    requires Decode(Encode(b[3..])) == Some(b[3..])
    ensures Decode(Encode(b)) == Some([b[0], b[1], b[2]] + b[3..])
  {
    EncodeMore(b);
    DecodeQuadEncodeTriple(b[0], b[1], b[2]);
    DecodeAfterQuad(EncodeTriple(b[0], b[1], b[2]), Encode(b[3..]));
  }

  lemma FirstThree(b: seq<byte>)
    requires |b| >= 3
    ensures [b[0], b[1], b[2]] + b[3..] == b
  {
  }

  /** Decoding undoes encoding, for every byte string. */
  lemma {:induction false} DecodeEncode(b: seq<byte>)
    ensures Decode(Encode(b)) == Some(b)
  {
    if |b| == 1 {
      assert b == [b[0]];
      DecodeEncodeOne(b[0]);
    } else if |b| == 2 {
      assert b == [b[0], b[1]];
      DecodeEncodeTwo(b[0], b[1]);
    } else if |b| == 3 {
      DecodeEncodeThree(b);
    } else if |b| > 3 {
      DecodeEncode(b[3..]);
      DecodeEncodeMore(b);
      FirstThree(b);
    }
  }

  /** `s` is symbols followed by exactly `p` padding characters. */
  predicate PaddedBy(s: string, p: nat) {
    && p <= |s|
    && (forall i | 0 <= i < |s| - p :: IsSymbol(s[i]))
    && (forall i | |s| - p <= i < |s| :: s[i] == '=')
  }

  /**
   * The encoding uses only the URL-safe alphabet, followed by exactly
   * Padding(|b|) '=' characters.
   */
  lemma {:induction false} EncodeAlphabet(b: seq<byte>)
    ensures PaddedBy(Encode(b), Padding(|b|))
    decreases |b|
  {
    if |b| >= 3 {
      var s := Encode(b);
      var rest := Encode(b[3..]);
      var head := EncodeTriple(b[0], b[1], b[2]);
      var p := Padding(|b|);
      assert s == head + rest;
      assert p == Padding(|b[3..]|);
      EncodeAlphabet(b[3..]);
      assert PaddedBy(rest, p);
      forall i | 0 <= i < |s| - p
        ensures IsSymbol(s[i])
      {
        if i >= 4 {
          assert s[i] == rest[i - 4];
        } else {
          assert s[i] == head[i];
        }
      }
      forall i | |s| - p <= i < |s|
        ensures s[i] == '='
      {
        assert s[i] == rest[i - 4];
      }
    }
  }
}
