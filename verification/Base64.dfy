/** Unpadded standard base64 (section 4 of RFC 4648), with the leniency of Go's decoder. */
module Base64 {
  import opened Common

  type Byte = x: int | 0 <= x < 256
  type Sextet = x: int | 0 <= x < 64

  function Symbol(v: Sextet): char {
    if v < 26 then ('A' as int + v) as char
    else if v < 52 then ('a' as int + (v - 26)) as char
    else if v < 62 then ('0' as int + (v - 52)) as char
    else if v == 62 then '+' else '/'
  }

  function SymbolValue(c: char): Option<Sextet> {
    if 'A' <= c <= 'Z' then Some(c as int - 'A' as int)
    else if 'a' <= c <= 'z' then Some(c as int - 'a' as int + 26)
    else if '0' <= c <= '9' then Some(c as int - '0' as int + 52)
    else if c == '+' then Some(62)
    else if c == '/' then Some(63)
    else None
  }

  lemma SymbolRoundTrip(v: Sextet)
    ensures SymbolValue(Symbol(v)) == Some(v)
    ensures Symbol(v) != '$' && Symbol(v) != '\r' && Symbol(v) != '\n'
  {
  }

  // Three bytes are four groups of six bits.

  function Six1(a: Byte): Sextet { a / 4 }
  function Six2(a: Byte, b: Byte): Sextet { var hi, lo: int := a % 4, b / 16; hi * 16 + lo }
  function Six3(b: Byte, c: Byte): Sextet { var hi, lo: int := b % 16, c / 64; hi * 4 + lo }
  function Six4(c: Byte): Sextet { c % 64 }

  function Byte1(w: Sextet, x: Sextet): Byte { var hi: int, lo: int := w, x / 16; hi * 4 + lo }
  function Byte2(x: Sextet, y: Sextet): Byte { var hi: int, lo: int := x % 16, y / 4; hi * 16 + lo }
  function Byte3(y: Sextet, z: Sextet): Byte { var hi: int, lo: int := y % 4, z; hi * 64 + lo }

  function Encode(bytes: seq<Byte>): string {
    if bytes == [] then ""
    else if |bytes| == 1 then [Symbol(Six1(bytes[0])), Symbol(Six2(bytes[0], 0))]
    else if |bytes| == 2 then
      [Symbol(Six1(bytes[0])), Symbol(Six2(bytes[0], bytes[1])), Symbol(Six3(bytes[1], 0))]
    else
      [Symbol(Six1(bytes[0])), Symbol(Six2(bytes[0], bytes[1])), Symbol(Six3(bytes[1], bytes[2])), Symbol(Six4(bytes[2]))]
      + Encode(bytes[3..])
  }

  /** Line breaks are skipped wherever they stand. */
  function Unbroken(s: string): string {
    if s == "" then ""
    else (if s[0] == '\r' || s[0] == '\n' then "" else [s[0]]) + Unbroken(s[1..])
  }

  function Values(s: string): Option<seq<Sextet>> {
    if s == "" then Some([])
    else
      var v, rest := SymbolValue(s[0]), Values(s[1..]);
      if v.None? || rest.None? then None else Some([v.value] + rest.value)
  }

  /** The bytes of whole groups; the unused low bits of a short last group are not looked at. */
  function Bytes(v: seq<Sextet>): Option<seq<Byte>> {
    if |v| == 0 then Some([])
    else if |v| == 1 then None
    else if |v| == 2 then Some([Byte1(v[0], v[1])])
    else if |v| == 3 then Some([Byte1(v[0], v[1]), Byte2(v[1], v[2])])
    else
      var rest := Bytes(v[4..]);
      if rest.None? then None
      else Some([Byte1(v[0], v[1]), Byte2(v[1], v[2]), Byte3(v[2], v[3])] + rest.value)
  }

  function Decode(s: string): Option<seq<Byte>> {
    var v := Values(Unbroken(s));
    if v.None? then None else Bytes(v.value)
  }

  /** What Encode writes, as numbers. */
  function Sextets(bytes: seq<Byte>): seq<Sextet> {
    if bytes == [] then []
    else if |bytes| == 1 then [Six1(bytes[0]), Six2(bytes[0], 0)]
    else if |bytes| == 2 then [Six1(bytes[0]), Six2(bytes[0], bytes[1]), Six3(bytes[1], 0)]
    else
      [Six1(bytes[0]), Six2(bytes[0], bytes[1]), Six3(bytes[1], bytes[2]), Six4(bytes[2])] + Sextets(bytes[3..])
  }

  function Symbols(v: seq<Sextet>): string {
    if v == [] then "" else [Symbol(v[0])] + Symbols(v[1..])
  }

  lemma {:induction false} ValuesOfSymbols(v: seq<Sextet>)
    ensures Values(Symbols(v)) == Some(v)
    ensures Unbroken(Symbols(v)) == Symbols(v) && '$' !in Symbols(v)
  {
    if v != [] {
      SymbolRoundTrip(v[0]);
      ValuesOfSymbols(v[1..]);
      assert Symbols(v)[1..] == Symbols(v[1..]);
      assert v == [v[0]] + v[1..];
    }
  }

  lemma SymbolsCons(v: Sextet, rest: seq<Sextet>)
    ensures Symbols([v] + rest) == [Symbol(v)] + Symbols(rest)
  {
    assert ([v] + rest)[1..] == rest;
  }

  lemma SymbolsPair(a: Sextet, b: Sextet, rest: seq<Sextet>)
    ensures Symbols([a, b] + rest) == [Symbol(a), Symbol(b)] + Symbols(rest)
  {
    SymbolsCons(b, rest);
    SymbolsCons(a, [b] + rest);
    assert [a, b] + rest == [a] + ([b] + rest);
  }

  lemma {:induction false} EncodeIsSymbols(bytes: seq<Byte>)
    ensures Encode(bytes) == Symbols(Sextets(bytes))
    decreases |bytes|
  {
    var v := Sextets(bytes);
    if |bytes| > 2 {
      EncodeIsSymbols(bytes[3..]);
      SymbolsPair(v[0], v[1], [v[2], v[3]] + Sextets(bytes[3..]));
      SymbolsPair(v[2], v[3], Sextets(bytes[3..]));
      assert v == [v[0], v[1]] + ([v[2], v[3]] + Sextets(bytes[3..]));
    } else if bytes != [] {
      SymbolsPair(v[0], v[1], v[2..]);
      assert v == [v[0], v[1]] + v[2..];
      if |bytes| == 2 {
        SymbolsCons(v[2], []);
        assert v[2..] == [v[2]] + [];
      }
    }
  }

  const UPPER := "ABCDEFGHIJKLMNOPQRSTUVWXYZ"
  const LOWER := "abcdefghijklmnopqrstuvwxyz"
  const DIGITS := "0123456789"

  /** The alphabet of table 1. */
  lemma StandardAlphabet(v: Sextet)
    ensures |UPPER| == |LOWER| == 26 && |DIGITS| == 10
    ensures Symbol(v) == (UPPER + LOWER + DIGITS + "+/")[v]
  {
    assert v < 26 ==> UPPER[v] as int == 'A' as int + v;
  }

  /** The 24 bits of a group, most significant first. */
  lemma StandardGroups(a: Byte, b: Byte, c: Byte)
    ensures 0x4_0000 * Six1(a) + 0x1000 * Six2(a, b) + 0x40 * Six3(b, c) + Six4(c) == 0x1_0000 * a + 0x100 * b + c
  {
  }

  lemma GroupBits(a: Byte, b: Byte, c: Byte)
    ensures Byte1(Six1(a), Six2(a, b)) == a
    ensures Byte2(Six2(a, b), Six3(b, c)) == b
    ensures Byte3(Six3(b, c), Six4(c)) == c
  {
  }

  lemma BytesFour(w: Sextet, x: Sextet, y: Sextet, z: Sextet, rest: seq<Sextet>)
    requires Bytes(rest).Some?
    ensures Bytes([w, x, y, z] + rest) == Some([Byte1(w, x), Byte2(x, y), Byte3(y, z)] + Bytes(rest).value)
  {
    assert ([w, x, y, z] + rest)[4..] == rest;
  }

  lemma BytesTwoThree(w: Sextet, x: Sextet, y: Sextet)
    ensures Bytes([w, x]) == Some([Byte1(w, x)])
    ensures Bytes([w, x, y]) == Some([Byte1(w, x), Byte2(x, y)])
  {
  }

  lemma {:induction false} BytesOfSextets(bytes: seq<Byte>)
    ensures Bytes(Sextets(bytes)) == Some(bytes)
    decreases |bytes|
  {
    if |bytes| == 1 {
      GroupBits(bytes[0], 0, 0);
      BytesTwoThree(Six1(bytes[0]), Six2(bytes[0], 0), 0);
      assert bytes == [bytes[0]];
    } else if |bytes| == 2 {
      GroupBits(bytes[0], bytes[1], 0);
      BytesTwoThree(Six1(bytes[0]), Six2(bytes[0], bytes[1]), Six3(bytes[1], 0));
      assert bytes == [bytes[0], bytes[1]];
    } else if |bytes| > 2 {
      BytesOfSextets(bytes[3..]);
      GroupBits(bytes[0], bytes[1], bytes[2]);
      BytesFour(Six1(bytes[0]), Six2(bytes[0], bytes[1]), Six3(bytes[1], bytes[2]), Six4(bytes[2]), Sextets(bytes[3..]));
      assert bytes == [bytes[0], bytes[1], bytes[2]] + bytes[3..];
    }
  }

  /** Every byte string comes back, through text that holds no dollar sign. */
  lemma RoundTrip(bytes: seq<Byte>)
    ensures Decode(Encode(bytes)) == Some(bytes)
    ensures '$' !in Encode(bytes)
  {
    EncodeIsSymbols(bytes);
    ValuesOfSymbols(Sextets(bytes));
    BytesOfSextets(bytes);
  }

  predicate Allowed(c: char) {
    'A' <= c <= 'Z' || 'a' <= c <= 'z' || '0' <= c <= '9' || c == '+' || c == '/' || c == '\r' || c == '\n'
  }

  /** Text of the alphabet, line breaks aside. */
  predicate InAlphabet(s: string) { forall c | c in s :: Allowed(c) }

  lemma {:induction false} ValuesExactly(s: string)
    ensures Values(Unbroken(s)).Some? <==> InAlphabet(s)
    ensures Values(Unbroken(s)).Some? ==> |Values(Unbroken(s)).value| == |Unbroken(s)|
  {
    if s != "" {
      ValuesExactly(s[1..]);
      assert InAlphabet(s) <==> Allowed(s[0]) && InAlphabet(s[1..]) by { assert s == [s[0]] + s[1..]; }
      if s[0] == '\r' || s[0] == '\n' {
        assert Unbroken(s) == Unbroken(s[1..]);
      } else {
        assert Unbroken(s)[1..] == Unbroken(s[1..]);
      }
    }
  }

  lemma {:induction false} BytesExactly(v: seq<Sextet>)
    ensures Bytes(v).Some? <==> |v| % 4 != 1
  {
    if |v| > 3 { BytesExactly(v[4..]); }
  }

  /** Decoding fails exactly for foreign characters and for a last group of one. */
  lemma DecodeExactly(s: string)
    ensures Decode(s).Some? <==> InAlphabet(s) && |Unbroken(s)| % 4 != 1
  {
    ValuesExactly(s);
    if InAlphabet(s) { BytesExactly(Values(Unbroken(s)).value); }
  }
}
