/**
 Password hashes in PHC string format (server/internal/platform/password/password.go). Text is
 bytes; the key derivation is a parameter.
 */
module Phc {
  import opened Common
  import opened Base64

  // ---- Splitting at the dollar signs ----

  function Split(s: string): (parts: seq<string>)
    ensures parts != []
  {
    if s == "" then [""]
    else
      var rest := Split(s[1..]);
      if s[0] == '$' then [""] + rest else [[s[0]] + rest[0]] + rest[1..]
  }

  lemma {:induction false} SplitFirst(a: string, rest: string)
    requires '$' !in a
    ensures Split(a + (['$'] + rest)) == [a] + Split(rest)
  {
    var s := a + (['$'] + rest);
    if a == "" {
      assert s == ['$'] + rest && s[1..] == rest;
    } else {
      assert s[1..] == a[1..] + (['$'] + rest);
      SplitFirst(a[1..], rest);
      assert a == [a[0]] + a[1..];
      assert Split(s) == [a] + Split(rest);
    }
  }

  lemma {:induction false} SplitLast(a: string)
    requires '$' !in a
    ensures Split(a) == [a]
  {
    if a != "" {
      SplitLast(a[1..]);
      assert a == [a[0]] + a[1..];
    }
  }

  // ---- Decimal numbers ----

  predicate Digit(c: char) {
    '0' <= c <= '9'
  }

  function Decimal(n: nat): (s: string)
    ensures s != "" && forall c | c in s :: Digit(c)
  {
    if n < 10 then [('0' as int + n) as char] else Decimal(n / 10) + [('0' as int + n % 10) as char]
  }

  function Number(digits: string): nat
    requires forall c | c in digits :: Digit(c)
  {
    if digits == "" then 0
    else
      assert Digit(digits[|digits| - 1]);
      Number(digits[..|digits| - 1]) * 10 + (digits[|digits| - 1] as int - '0' as int)
  }

  lemma {:induction false} NumberOfDecimal(n: nat)
    ensures Number(Decimal(n)) == n
  {
    var s := Decimal(n);
    if n < 10 {
      assert s[..0] == "";
    } else {
      NumberOfDecimal(n / 10);
      assert s[..|s| - 1] == Decimal(n / 10);
    }
  }

  function DigitRun(s: string): (k: nat)
    ensures k <= |s| && forall c | c in s[..k] :: Digit(c)
  {
    if s == "" || !Digit(s[0]) then 0 else 1 + DigitRun(s[1..])
  }

  lemma {:induction false} DigitRunIs(a: string, rest: string)
    requires (forall c | c in a :: Digit(c)) && (rest == "" || !Digit(rest[0]))
    ensures DigitRun(a + rest) == |a|
  {
    if a == "" {
      assert a + rest == rest;
    } else {
      assert (a + rest)[1..] == a[1..] + rest;
      DigitRunIs(a[1..], rest);
    }
  }

  // ---- Scanning, as fmt.Sscanf does it ----

  /** Spaces before a number are skipped; a line break there is an error. */
  function SkipSpace(s: string): Option<string> {
    if s == "" then Some(s)
    else if s[0] == '\r' && |s| > 1 && s[1] == '\n' then SkipSpace(s[1..])
    else if s[0] == '\n' then None
    else if s[0] in {' ', '\t', '\r', '\U{0B}', '\U{0C}'} then SkipSpace(s[1..])
    else Some(s)
  }

  /** An unsigned number below `bound`, and the text after it. */
  function ScanUint(s: string, bound: nat): Option<(nat, string)> {
    var t := SkipSpace(s);
    if t.None? then None
    else
      var k := DigitRun(t.value);
      if k == 0 then None
      else if Number(t.value[..k]) >= bound then None
      else Some((Number(t.value[..k]), t.value[k..]))
  }

  /** A signed number, and the text after it. */
  function ScanInt(s: string): Option<(int, string)> {
    var t := SkipSpace(s);
    if t.None? then None
    else
      var signed := t.value != "" && (t.value[0] == '+' || t.value[0] == '-');
      var digits := if signed then t.value[1..] else t.value;
      var k := DigitRun(digits);
      if k == 0 then None
      else
        var sign := if signed && t.value[0] == '-' then -1 else 1;
        var n := sign * Number(digits[..k]);
        if -0x8000_0000_0000_0000 <= n < 0x8000_0000_0000_0000 then Some((n, digits[k..])) else None
  }

  function Expect(s: string, literal: string): Option<string> {
    if literal <= s then Some(s[|literal|..]) else None
  }

  const UINT32 := 0x1_0000_0000
  const UINT8 := 0x100

  /** "name=" and a number; what follows the last number is not looked at. */
  function ScanField(s: string, name: string, bound: nat): Option<(nat, string)> {
    var t := Expect(s, name);
    if t.None? then None else ScanUint(t.value, bound)
  }

  datatype Params = Params(mem: nat, iter: nat, par: nat)

  predicate InRange(p: Params) {
    p.mem < UINT32 && p.iter < UINT32 && p.par < UINT8
  }

  function ScanParams(s: string): Option<Params> {
    var m := ScanField(s, "m=", UINT32);
    if m.None? then None
    else
      var t := ScanField(m.value.1, ",t=", UINT32);
      if t.None? then None
      else
        var p := ScanField(t.value.1, ",p=", UINT8);
        if p.None? then None else Some(Params(m.value.0, t.value.0, p.value.0))
  }

  function VersionOK(s: string): bool {
    var t := Expect(s, "v=");
    t.Some? && var v := ScanInt(t.value); v.Some? && v.value.0 == 19
  }

  // ---- The codec ----

  datatype Hash = Hash(params: Params, salt: seq<Byte>, key: seq<Byte>)

  datatype Error = NotArgon2id | BadVersion | BadParams | BadSalt | BadKey

  datatype Result = Ok(hash: Hash) | Err(error: Error)

  function ParamText(p: Params): string {
    "m=" + (Decimal(p.mem) + (",t=" + (Decimal(p.iter) + (",p=" + Decimal(p.par)))))
  }

  function EncodePHC(h: Hash): string {
    ['$'] + ("argon2id" + (['$'] + ("v=19" + (['$'] + (ParamText(h.params) +
      (['$'] + (Encode(h.salt) + (['$'] + Encode(h.key)))))))))
  }

  function DecodePHC(s: string): Result {
    DecodeParts(Split(s))
  }

  function DecodeParts(parts: seq<string>): Result {
    if |parts| != 6 || parts[1] != "argon2id" then Err(NotArgon2id)
    else if !VersionOK(parts[2]) then Err(BadVersion)
    else
      var params, salt, key := ScanParams(parts[3]), Decode(parts[4]), Decode(parts[5]);
      if params.None? then Err(BadParams)
      else if salt.None? then Err(BadSalt)
      else if key.None? then Err(BadKey)
      else Ok(Hash(params.value, salt.value, key.value))
  }

  lemma ScanDecimal(n: nat, rest: string, bound: nat)
    requires n < bound && (rest == "" || !Digit(rest[0]))
    ensures ScanUint(Decimal(n) + rest, bound) == Some((n, rest))
  {
    var d := Decimal(n);
    var s := d + rest;
    assert s[0] == d[0] && d[0] in d;
    assert SkipSpace(s) == Some(s);
    DigitRunIs(d, rest);
    NumberOfDecimal(n);
    assert s[..|d|] == d && s[|d|..] == rest;
  }

  lemma ScanFieldDecimal(name: string, n: nat, rest: string, bound: nat)
    requires n < bound && (rest == "" || !Digit(rest[0]))
    ensures ScanField(name + (Decimal(n) + rest), name, bound) == Some((n, rest))
  {
    assert (name + (Decimal(n) + rest))[|name|..] == Decimal(n) + rest;
    ScanDecimal(n, rest, bound);
  }

  lemma ParamsRoundTrip(p: Params)
    requires InRange(p)
    ensures ScanParams(ParamText(p)) == Some(p)
  {
    var tail := ",p=" + (Decimal(p.par) + "");
    assert Decimal(p.par) + "" == Decimal(p.par);
    var middle := ",t=" + (Decimal(p.iter) + tail);
    ScanFieldDecimal("m=", p.mem, middle, UINT32);
    ScanFieldDecimal(",t=", p.iter, tail, UINT32);
    ScanFieldDecimal(",p=", p.par, "", UINT8);
  }

  lemma TooLarge(name: string, n: nat, rest: string, bound: nat)
    requires n >= bound && (rest == "" || !Digit(rest[0]))
    ensures ScanField(name + (Decimal(n) + rest), name, bound) == None
  {
    assert (name + (Decimal(n) + rest))[|name|..] == Decimal(n) + rest;
    var d := Decimal(n);
    var s := d + rest;
    assert s[0] == d[0] && d[0] in d;
    assert SkipSpace(s) == Some(s);
    DigitRunIs(d, rest);
    NumberOfDecimal(n);
    assert s[..|d|] == d;
  }

  /** Parameters are read back exactly when they fit their Go types; others are an error, not a wrapped number. */
  lemma ParamsExactly(p: Params)
    ensures ScanParams(ParamText(p)) == if InRange(p) then Some(p) else None
  {
    var tail := ",p=" + (Decimal(p.par) + "");
    assert Decimal(p.par) + "" == Decimal(p.par);
    var middle := ",t=" + (Decimal(p.iter) + tail);
    if InRange(p) {
      ParamsRoundTrip(p);
    } else if p.mem >= UINT32 {
      TooLarge("m=", p.mem, middle, UINT32);
    } else if p.iter >= UINT32 {
      ScanFieldDecimal("m=", p.mem, middle, UINT32);
      TooLarge(",t=", p.iter, tail, UINT32);
    } else {
      ScanFieldDecimal("m=", p.mem, middle, UINT32);
      ScanFieldDecimal(",t=", p.iter, tail, UINT32);
      TooLarge(",p=", p.par, "", UINT8);
    }
  }

  lemma ParamTextPlain(p: Params)
    ensures '$' !in ParamText(p)
  {
    forall n: nat ensures '$' !in Decimal(n) {
    }
  }

  lemma VersionRoundTrip()
    ensures VersionOK("v=19")
  {
    assert "v=19"[2..] == "19";
    NumberOfDecimal(19);
    assert Decimal(1) == "1" && Decimal(19) == "19";
    DigitRunIs("19", "");
    assert "19" + "" == "19" && "19"[..2] == "19";
  }

  lemma SplitSix(name: string, version: string, params: string, salt: string, key: string)
    requires '$' !in name && '$' !in version && '$' !in params && '$' !in salt && '$' !in key
    ensures Split(['$'] + (name + (['$'] + (version + (['$'] + (params + (['$'] + (salt + (['$'] + key)))))))))
         == ["", name, version, params, salt, key]
  {
    var d := salt + (['$'] + key);
    var c := params + (['$'] + d);
    var b := version + (['$'] + c);
    var a := name + (['$'] + b);
    SplitLast(key);
    SplitFirst(salt, key);
    SplitFirst(params, d);
    SplitFirst(version, c);
    SplitFirst(name, b);
    SplitFirst("", a);
    assert "" + (['$'] + a) == ['$'] + a;
  }

  lemma SplitEncoded(h: Hash)
    ensures Split(EncodePHC(h)) == ["", "argon2id", "v=19", ParamText(h.params), Encode(h.salt), Encode(h.key)]
  {
    ParamTextPlain(h.params);
    RoundTrip(h.salt);
    RoundTrip(h.key);
    SplitSix("argon2id", "v=19", ParamText(h.params), Encode(h.salt), Encode(h.key));
  }

  lemma PartsRoundTrip(h: Hash, parts: seq<string>)
    requires InRange(h.params) && |parts| == 6 && parts[1] == "argon2id" && VersionOK(parts[2])
    requires parts[3] == ParamText(h.params) && parts[4] == Encode(h.salt) && parts[5] == Encode(h.key)
    ensures DecodeParts(parts) == Ok(h)
  {
    ParamsRoundTrip(h.params);
    RoundTrip(h.salt);
    RoundTrip(h.key);
  }

  /** Every hash with parameters of their Go types is read back as it was written. */
  lemma PhcRoundTrip(h: Hash)
    requires InRange(h.params)
    ensures DecodePHC(EncodePHC(h)) == Ok(h)
  {
    SplitEncoded(h);
    VersionRoundTrip();
    PartsRoundTrip(h, Split(EncodePHC(h)));
  }

  /** Two hashes have one text only if they are one hash. */
  lemma EncodingInjective(g: Hash, h: Hash)
    requires InRange(g.params) && InRange(h.params) && EncodePHC(g) == EncodePHC(h)
    ensures g == h
  {
    PhcRoundTrip(g);
    PhcRoundTrip(h);
  }

  // ---- Hash and Verify ----

  const CURRENT := Params(64 * 1024, 1, 4)
  const KEY_LEN := 32

  /** Argon2id: password, salt, parameters and key length to a key of that length. */
  type Kdf = (string, seq<Byte>, Params, nat) -> seq<Byte>

  function HashPassword(kdf: Kdf, password: string, salt: seq<Byte>): string {
    EncodePHC(Hash(CURRENT, salt, kdf(password, salt, CURRENT, KEY_LEN)))
  }

  datatype Verdict = Match(rehashNeeded: bool) | Mismatch | Malformed(error: Error)

  function VerifyArgon2id(kdf: Kdf, text: string, password: string): Verdict {
    match DecodePHC(text)
    case Err(e) => Malformed(e)
    case Ok(h) =>
      if kdf(password, h.salt, h.params, |h.key| % UINT32) != h.key then Mismatch
      else Match(h.params != CURRENT || |h.key| % UINT32 != KEY_LEN)
  }

  /** `bcrypt` is that library's verdict on the pair. */
  function Verify(kdf: Kdf, bcrypt: Verdict, text: string, password: string): Verdict {
    if "$2" <= text then bcrypt else VerifyArgon2id(kdf, text, password)
  }

  /** A stored hash accepts exactly the passwords with the same derived key, and asks for no rehash. */
  lemma VerifyAcceptsItsHash(kdf: Kdf, bcrypt: Verdict, stored: string, candidate: string, salt: seq<Byte>)
    requires forall password :: |kdf(password, salt, CURRENT, KEY_LEN)| == KEY_LEN
    ensures Verify(kdf, bcrypt, HashPassword(kdf, stored, salt), candidate) ==
            (if kdf(candidate, salt, CURRENT, KEY_LEN) == kdf(stored, salt, CURRENT, KEY_LEN)
             then Match(false) else Mismatch)
  {
    var h := Hash(CURRENT, salt, kdf(stored, salt, CURRENT, KEY_LEN));
    PhcRoundTrip(h);
    assert EncodePHC(h)[1] == 'a';
  }

  /** A matching hash asks for a rehash exactly when one of its parameters or its key length is not today's. */
  lemma RehashExactly(kdf: Kdf, h: Hash, password: string)
    requires InRange(h.params) && |h.key| < UINT32
    ensures VerifyArgon2id(kdf, EncodePHC(h), password) ==
            if kdf(password, h.salt, h.params, |h.key|) != h.key then Mismatch
            else Match(h.params.mem != 65536 || h.params.iter != 1 || h.params.par != 4 || |h.key| != 32)
  {
    PhcRoundTrip(h);
    VerifyDecoded(kdf, EncodePHC(h), h, password);
  }

  lemma VerifyDecoded(kdf: Kdf, text: string, h: Hash, password: string)
    requires DecodePHC(text) == Ok(h) && |h.key| < UINT32
    ensures VerifyArgon2id(kdf, text, password) ==
            if kdf(password, h.salt, h.params, |h.key|) != h.key then Mismatch
            else Match(h.params.mem != 65536 || h.params.iter != 1 || h.params.par != 4 || |h.key| != 32)
  {
  }

  lemma CurrentDigits()
    ensures Decimal(65536) == "65536" && Decimal(1) == "1" && Decimal(4) == "4"
  {
    assert Decimal(6) == "6" && Decimal(65) == "65" && Decimal(655) == "655" && Decimal(6553) == "6553";
  }

  lemma CurrentText()
    ensures ParamText(CURRENT) == "m=65536,t=1,p=4"
  {
    CurrentDigits();
    assert ",t=" + ("1" + ",p=4") == ",t=1,p=4" && "m=" + ("65536" + ",t=1,p=4") == "m=65536,t=1,p=4";
  }

  lemma HeadText(tail: string)
    ensures ['$'] + ("argon2id" + (['$'] + ("v=19" + (['$'] + ("m=65536,t=1,p=4" + (['$'] + tail))))))
         == "$argon2id$v=19$m=65536,t=1,p=4$" + tail
  {
  }

  /** The text of a new hash. */
  lemma HashText(kdf: Kdf, password: string, salt: seq<Byte>)
    ensures HashPassword(kdf, password, salt) ==
            "$argon2id$v=19$m=65536,t=1,p=4$" + (Encode(salt) + (['$'] + Encode(kdf(password, salt, Params(65536, 1, 4), 32))))
  {
    CurrentText();
    HeadText(Encode(salt) + (['$'] + Encode(kdf(password, salt, Params(65536, 1, 4), 32))));
  }

  /** Another algorithm, or another version of this one, is not decoded. */
  lemma OtherFormatsRejected(name: string, version: nat, params: string, salt: string, key: string)
    requires '$' !in name && '$' !in params && '$' !in salt && '$' !in key && version < 0x8000_0000_0000_0000
    ensures var text := ['$'] + (name + (['$'] + (("v=" + Decimal(version)) + (['$'] + (params + (['$'] + (salt + (['$'] + key))))))));
      && (name != "argon2id" ==> DecodePHC(text) == Err(NotArgon2id))
      && (name == "argon2id" && version != 19 ==> DecodePHC(text) == Err(BadVersion))
  {
    var v := "v=" + Decimal(version);
    assert '$' !in v;
    SplitSix(name, v, params, salt, key);
    assert v[2..] == Decimal(version) + "";
    ScanIntDecimal(version);
  }

  lemma ScanIntDecimal(n: nat)
    requires n < 0x8000_0000_0000_0000
    ensures ScanInt(Decimal(n)) == Some((n, ""))
  {
    var d := Decimal(n);
    assert d[0] in d;
    assert SkipSpace(d) == Some(d);
    DigitRunIs(d, "");
    NumberOfDecimal(n);
    assert d + "" == d && d[..|d|] == d && d[|d|..] == "";
  }

  /** A stored text that begins "$2" is bcrypt's to judge. */
  lemma BcryptDelegated(kdf: Kdf, bcrypt: Verdict, rest: string, password: string)
    ensures Verify(kdf, bcrypt, "$2" + rest, password) == bcrypt
  {
  }
}
