/** base64url with stripped padding (sections 3.2 and 5 of RFC 4648), and hexadecimal. */
module Base64Url {
  import opened Options
  import opened Bytes

  function Symbol(v: nat): (c: char)
    requires v < 64
    ensures c != '=' && Value(c) == Some(v)
  {
    if v < 26 then 'A' + v as char
    else if v < 52 then 'a' + (v - 26) as char
    else if v < 62 then '0' + (v - 52) as char
    else if v == 62 then '-' else '_'
  }

  /** Both the URL-safe and the standard alphabet are read. */
  function Value(c: char): (v: Option<nat>)
    ensures v.Some? ==> v.value < 64
  {
    if 'A' <= c <= 'Z' then Some((c - 'A') as nat)
    else if 'a' <= c <= 'z' then Some((c - 'a') as nat + 26)
    else if '0' <= c <= '9' then Some((c - '0') as nat + 52)
    else if c == '-' || c == '+' then Some(62)
    else if c == '_' || c == '/' then Some(63)
    else None
  }

  /** Table 2 of section 5 of RFC 4648: three runs of characters and the last two. */
  lemma SymbolTable(v: nat)
    requires v < 64
    ensures Symbol(0) == 'A' && Symbol(25) == 'Z' && Symbol(26) == 'a' && Symbol(51) == 'z'
    ensures Symbol(52) == '0' && Symbol(61) == '9' && Symbol(62) == '-' && Symbol(63) == '_'
    ensures v != 25 && v != 51 && v < 61 ==> Symbol(v + 1) as int == Symbol(v) as int + 1
  {
  }

  function Encode(b: seq<Byte>): string {
    if b == [] then ""
    else if |b| == 1 then [Symbol(b[0] / 4), Symbol(b[0] % 4 * 16), '=', '=']
    else if |b| == 2 then [Symbol(b[0] / 4), Symbol(b[0] % 4 * 16 + b[1] / 16), Symbol(b[1] % 16 * 4), '=']
    else
      [Symbol(b[0] / 4), Symbol(b[0] % 4 * 16 + b[1] / 16), Symbol(b[1] % 16 * 4 + b[2] / 64), Symbol(b[2] % 64)]
      + Encode(b[3..])
  }

  function Values(s: string): Option<seq<nat>> {
    if s == "" then Some([])
    else
      var v, rest := Value(s[0]), Values(s[1..]);
      if v.None? || rest.None? then None else Some([v.value] + rest.value)
  }

  /** The four symbols of a complete group. */
  function Group(s: string): (b: Option<seq<Byte>>)
    requires |s| == 4
  {
    var v0, v1, v2, v3 := Value(s[0]), Value(s[1]), Value(s[2]), Value(s[3]);
    if v0.Some? && v1.Some? && v2.Some? && v3.Some?
    then Some([v0.value * 4 + v1.value / 16, v1.value % 16 * 16 + v2.value / 4, v2.value % 4 * 64 + v3.value])
    else None
  }

  /** The last group, which may be padded. */
  function LastGroup(s: string): Option<seq<Byte>>
    requires |s| == 4
  {
    var v0, v1, v2 := Value(s[0]), Value(s[1]), Value(s[2]);
    if s[3] == '=' && s[2] == '=' then
      if v0.Some? && v1.Some? then Some([v0.value * 4 + v1.value / 16]) else None
    else if s[3] == '=' then
      if v0.Some? && v1.Some? && v2.Some?
      then Some([v0.value * 4 + v1.value / 16, v1.value % 16 * 16 + v2.value / 4])
      else None
    else Group(s)
  }

  /** Whole groups of four, padding only in the last. */
  function Decode(s: string): Option<seq<Byte>> {
    if s == "" then Some([])
    else if |s| < 4 then None
    else if |s| == 4 then LastGroup(s)
    else
      var first, rest := Group(s[..4]), Decode(s[4..]);
      if first.None? || rest.None? then None else Some(first.value + rest.value)
  }

  /** `rstrip("=")` */
  function Strip(s: string): string {
    if s != "" && s[|s| - 1] == '=' then Strip(s[..|s| - 1]) else s
  }

  /** `"=" * (-len % 4)` */
  function Restore(s: string): string {
    s + seq((4 - |s| % 4) % 4, i => '=')
  }

  /** Length of the unpadded text: three bytes become four symbols. */
  function StrippedLength(n: nat): nat {
    n / 3 * 4 + if n % 3 == 0 then 0 else n % 3 + 1
  }

  lemma {:induction false} DecodeEncode(b: seq<Byte>)
    ensures Decode(Encode(b)) == Some(b)
    ensures |Encode(b)| % 4 == 0
  {
    hide Symbol, Value, Group, LastGroup;
    if |b| == 1 {
      LastGroupOfOne(b[0]);
      assert b == [b[0]];
    } else if |b| == 2 {
      LastGroupOfTwo(b[0], b[1]);
      assert b == [b[0], b[1]];
    } else if |b| > 2 {
      var first, rest := FullGroup(b[0], b[1], b[2]), Encode(b[3..]);
      DecodeEncode(b[3..]);
      GroupOfThree(b[0], b[1], b[2]);
      assert Encode(b) == first + rest;
      assert b == [b[0], b[1], b[2]] + b[3..];
      hide Encode, FullGroup;
      DecodeAppend(first, rest);
    }
  }

  /** Test vectors of section 10 of RFC 4648, for the texts "f", "fo" and "foo". */
  lemma TestVectors()
    ensures Encode([0x66]) == "Zg==" && Encode([0x66, 0x6F]) == "Zm8=" && Encode([0x66, 0x6F, 0x6F]) == "Zm9v"
  {
    hide Encode, Value;
    EncodeGroups([0x66]);
    EncodeGroups([0x66, 0x6F]);
    EncodeGroups([0x66, 0x6F, 0x6F]);
    assert [0x66, 0x6F, 0x6F][3..] == [];
    assert Symbol(25) == 'Z' && Symbol(32) == 'g' && Symbol(38) == 'm' && Symbol(60) == '8';
    assert Symbol(61) == '9' && Symbol(47) == 'v';
    hide Symbol;
  }

  lemma EncodeGroups(b: seq<Byte>)
    ensures Encode([]) == ""
    ensures |b| == 1 ==> Encode(b) == [Symbol(b[0] / 4), Symbol(b[0] % 4 * 16), '=', '=']
    ensures |b| == 2 ==> Encode(b) == [Symbol(b[0] / 4), Symbol(b[0] % 4 * 16 + b[1] / 16), Symbol(b[1] % 16 * 4), '=']
    ensures |b| > 2 ==> Encode(b) == FullGroup(b[0], b[1], b[2]) + Encode(b[3..])
  {
    hide Symbol;
  }

  /** Decoding goes group by group. */
  lemma DecodeAppend(first: string, rest: string)
    requires |first| == 4 && |rest| % 4 == 0 && Decode(rest).Some? && Group(first).Some? && LastGroup(first) == Group(first)
    ensures Decode(first + rest) == Some(Group(first).value + Decode(rest).value)
  {
    hide Group, LastGroup;
    assert (first + rest)[..4] == first && (first + rest)[4..] == rest;
    if rest == "" { assert first + rest == first && Group(first).value + [] == Group(first).value; }
  }

  function FullGroup(x: Byte, y: Byte, z: Byte): string {
    [Symbol(x / 4), Symbol(x % 4 * 16 + y / 16), Symbol(y % 16 * 4 + z / 64), Symbol(z % 64)]
  }

  lemma LastGroupOfOne(x: Byte)
    ensures LastGroup([Symbol(x / 4), Symbol(x % 4 * 16), '=', '=']) == Some([x])
  {
    hide Symbol, Value;
  }

  lemma LastGroupOfTwo(x: Byte, y: Byte)
    ensures LastGroup([Symbol(x / 4), Symbol(x % 4 * 16 + y / 16), Symbol(y % 16 * 4), '=']) == Some([x, y])
  {
    hide Symbol, Value;
    SplitNibble(x % 4, y / 16);
  }

  lemma GroupOfThree(x: Byte, y: Byte, z: Byte)
    ensures Group(FullGroup(x, y, z)) == Some([x, y, z]) == LastGroup(FullGroup(x, y, z))
  {
    hide Symbol, Value;
    SplitNibble(x % 4, y / 16);
    SplitPair(y % 16, z / 64);
  }

  lemma SplitNibble(a: nat, b: nat)
    requires b < 16
    ensures (a * 16 + b) / 16 == a && (a * 16 + b) % 16 == b
  {
  }

  lemma SplitPair(a: nat, b: nat)
    requires b < 4
    ensures (a * 4 + b) / 4 == a && (a * 4 + b) % 4 == b
  {
  }

  ghost predicate Symbols(s: string) {
    forall c :: c in s ==> Value(c).Some?
  }

  /** Only `=` is stripped, and at most two of them. */
  lemma {:induction false} StripEncode(b: seq<Byte>)
    ensures |Strip(Encode(b))| == StrippedLength(|b|)
    ensures Restore(Strip(Encode(b))) == Encode(b)
    ensures Symbols(Strip(Encode(b)))
  {
    hide Symbol, Value;
    if |b| == 1 {
      StripOne(b);
    } else if |b| == 2 {
      StripTwo(b);
    } else if |b| > 2 {
      var first, rest := FullGroup(b[0], b[1], b[2]), Encode(b[3..]);
      assert Encode(b) == first + rest;
      StripEncode(b[3..]);
      StripAppend(first, rest);
      RestoreAppend(first, Strip(rest));
      StrippedLengthStep(|b|);
    }
  }

  lemma StripOne(b: seq<Byte>)
    requires |b| == 1
    ensures |Strip(Encode(b))| == 2 && Restore(Strip(Encode(b))) == Encode(b) && Symbols(Strip(Encode(b)))
  {
    hide Value;
    var s := [Symbol(b[0] / 4), Symbol(b[0] % 4 * 16)];
    assert Encode(b) == s + "==";
    StripAppend(s, "==");
    assert Strip("==") == Strip("=") == "" by { assert "=="[..1] == "=" && "="[..0] == ""; }
    assert s + "" == s;
  }

  lemma StripTwo(b: seq<Byte>)
    requires |b| == 2
    ensures |Strip(Encode(b))| == 3 && Restore(Strip(Encode(b))) == Encode(b) && Symbols(Strip(Encode(b)))
  {
    hide Value;
    var s := [Symbol(b[0] / 4), Symbol(b[0] % 4 * 16 + b[1] / 16), Symbol(b[1] % 16 * 4)];
    assert Encode(b) == s + "=";
    StripAppend(s, "=");
    assert Strip("=") == "" by { assert "="[..0] == ""; }
    assert s + "" == s;
  }

  lemma RestoreAppend(first: string, s: string)
    requires |first| == 4
    ensures Restore(first + s) == first + Restore(s)
  {
    assert |first + s| % 4 == |s| % 4;
  }

  lemma StrippedLengthStep(n: nat)
    requires n >= 3
    ensures StrippedLength(n) == StrippedLength(n - 3) + 4
  {
  }

  /** Stripping stops before a symbol. */
  lemma {:induction false} StripAppend(first: string, rest: string)
    requires first != "" && first[|first| - 1] != '='
    ensures Strip(first + rest) == first + Strip(rest)
  {
    if rest == "" {
      assert first + rest == first;
    } else if rest[|rest| - 1] == '=' {
      assert (first + rest)[..|first + rest| - 1] == first + rest[..|rest| - 1];
      StripAppend(first, rest[..|rest| - 1]);
    }
  }

  /** What a cursor goes through: encode, strip, restore, decode. */
  lemma StrippedRoundTrip(b: seq<Byte>)
    ensures Decode(Restore(Strip(Encode(b)))) == Some(b)
  {
    StripEncode(b);
    DecodeEncode(b);
  }

  // ---- Hexadecimal ------------------------------------------------------------------

  function HexDigit(v: nat): (c: char)
    requires v < 16
    ensures HexValue(c) == Some(v)
  {
    if v < 10 then '0' + v as char else 'a' + (v - 10) as char
  }

  /** Lower case only, as the cursor pattern demands. */
  function HexValue(c: char): (v: Option<nat>)
    ensures v.Some? ==> v.value < 16
  {
    if '0' <= c <= '9' then Some((c - '0') as nat)
    else if 'a' <= c <= 'f' then Some((c - 'a') as nat + 10)
    else None
  }

  function Hex(b: seq<Byte>): string {
    if b == [] then "" else [HexDigit(b[0] / 16), HexDigit(b[0] % 16)] + Hex(b[1..])
  }

  /** `bytes.fromhex` on lower-case digits. */
  function FromHex(s: string): Option<seq<Byte>> {
    if s == "" then Some([])
    else if |s| == 1 then None
    else
      var hi, lo, rest := HexValue(s[0]), HexValue(s[1]), FromHex(s[2..]);
      if hi.None? || lo.None? || rest.None? then None else Some([hi.value * 16 + lo.value] + rest.value)
  }

  lemma {:induction false} HexRoundTrip(b: seq<Byte>)
    ensures FromHex(Hex(b)) == Some(b)
    ensures |Hex(b)| == 2 * |b| && forall c :: c in Hex(b) ==> HexValue(c).Some?
  {
    if b != [] {
      HexRoundTrip(b[1..]);
      assert Hex(b)[2..] == Hex(b[1..]);
      assert b == [b[0]] + b[1..];
    }
  }

  lemma {:induction false} FromHexTotal(s: string)
    requires |s| % 2 == 0 && forall c :: c in s ==> HexValue(c).Some?
    ensures FromHex(s).Some? && |FromHex(s).value| == |s| / 2
  {
    if s != "" {
      assert s[0] in s && s[1] in s;
      FromHexTotal(s[2..]);
    }
  }
}
