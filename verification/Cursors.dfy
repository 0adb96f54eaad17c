/** `encode_cursor` and `decode_cursor`. */
module Cursors {
  import opened Options
  import opened Bytes
  import opened Base64Url

  /** The characters of a JSON number. */
  predicate NumberChar(c: char) {
    '0' <= c <= '9' || c == '-' || c == '+' || c == '.' || c == 'e' || c == 'E'
  }

  /** The text `json.dumps` writes for a rank. */
  predicate RankToken(t: string) {
    t != "" && forall c :: c in t ==> NumberChar(c)
  }

  // ---- JSON, as far as the encoder writes it -------------------------------------------

  const OPEN: string := "{\"r\":"
  const MIDDLE: string := ",\"m\":\""
  const CLOSE: string := "\"}"

  function Render(token: string, md5Hex: string): string {
    OPEN + token + MIDDLE + md5Hex + CLOSE
  }

  function NumberEnd(s: string, i: nat): (e: nat)
    requires i <= |s|
    ensures i <= e <= |s|
    decreases |s| - i
  {
    if i < |s| && NumberChar(s[i]) then NumberEnd(s, i + 1) else i
  }

  predicate HasAt(s: string, i: nat, part: string) {
    i + |part| <= |s| && s[i..i + |part|] == part
  }

  /** The two members of the object; the second is whatever stands between the last quotes. */
  function ParseJson(s: string): Option<(string, string)> {
    if !HasAt(s, 0, OPEN) then None
    else
      var e := NumberEnd(s, |OPEN|);
      if e == |OPEN| || !HasAt(s, e, MIDDLE) then None
      else
        var m := e + |MIDDLE|;
        if |s| < m + |CLOSE| || !HasAt(s, |s| - |CLOSE|, CLOSE) then None
        else Some((s[|OPEN|..e], s[m..|s| - |CLOSE|]))
  }

  // ---- ASCII ----------------------------------------------------------------------------

  predicate Ascii(s: string) {
    forall i :: 0 <= i < |s| ==> s[i] < 128 as char
  }

  function ToBytes(s: string): seq<Byte>
    requires Ascii(s)
  {
    seq(|s|, i requires 0 <= i < |s| => s[i] as int)
  }

  function FromBytes(b: seq<Byte>): string {
    seq(|b|, i requires 0 <= i < |b| => b[i] as char)
  }

  // ---- The codec --------------------------------------------------------------------------

  datatype CursorError = MalformedCursor

  datatype Cursor<+R> = Cursor(rank: R, md5Hex: string)

  predicate LowerHex(s: string) {
    forall c :: c in s ==> HexValue(c).Some?
  }

  predicate CursorChar(c: char) {
    Value(c).Some? || c == '='
  }

  /** The pattern `^[...]+$`; its `$` also matches before a final newline. */
  predicate Matches(s: string) {
    var body := if s != "" && s[|s| - 1] == '\n' then s[..|s| - 1] else s;
    body != "" && forall c :: c in body ==> CursorChar(c)
  }

  const MAX_CURSOR := 200

  /** The padded text of a cursor. */
  function Wire(token: string, md5Hex: string): string
    requires Ascii(token) && LowerHex(md5Hex)
  {
    RenderIsAscii(token, md5Hex);
    Encode(ToBytes(Render(token, md5Hex)))
  }

  function EncodeCursor(token: string, md5Hex: string): string
    requires Ascii(token) && LowerHex(md5Hex)
  {
    Strip(Wire(token, md5Hex))
  }

  /**
    What base64 decoding, JSON parsing and the conversions to float and string make of a padded text.
    Python's are lenient, so a reader may accept much more than the encoder writes.
    */
  type Reader<!R> = string -> Option<(R, string)>

  /** A reader understands what the encoder writes; `dumps` is the JSON text of a rank. */
  ghost predicate ReadsBack<R(!new)>(dumps: R -> string, read: Reader<R>) {
    forall r: R, md5Hex :: Ascii(dumps(r)) && LowerHex(md5Hex) && |md5Hex| == 32 ==>
      read(Wire(dumps(r), md5Hex)) == Some((r, md5Hex))
  }

  function DecodeCursor<R>(read: Reader<R>, cursor: string): Result<Cursor<R>, CursorError> {
    if !Matches(cursor) || |cursor| > MAX_CURSOR then Err(MalformedCursor)
    else
      var payload := read(Restore(cursor));
      if payload.None? || |payload.value.1| != 32 || !LowerHex(payload.value.1) then Err(MalformedCursor)
      else Ok(Cursor(payload.value.0, payload.value.1))
  }

  lemma RenderIsAscii(token: string, md5Hex: string)
    requires Ascii(token) && LowerHex(md5Hex)
    ensures Ascii(Render(token, md5Hex))
  {
    forall c | c in md5Hex ensures c < 128 as char { assert HexValue(c).Some?; }
    AsciiAppend(OPEN, token);
    AsciiAppend(OPEN + token, MIDDLE);
    AsciiAppend(OPEN + token + MIDDLE, md5Hex);
    AsciiAppend(OPEN + token + MIDDLE + md5Hex, CLOSE);
  }

  lemma AsciiAppend(a: string, b: string)
    requires Ascii(a) && forall c :: c in b ==> c < 128 as char
    ensures Ascii(a + b)
  {
    forall i | 0 <= i < |a + b| ensures (a + b)[i] < 128 as char {
      if i >= |a| { assert b[i - |a|] in b; }
    }
  }

  lemma AsciiRoundTrip(s: string)
    requires Ascii(s)
    ensures FromBytes(ToBytes(s)) == s
  {
  }

  lemma {:induction false} NumberEnds(s: string, i: nat, token: string)
    requires RankToken(token) || token == ""
    requires HasAt(s, i, token) && i + |token| < |s| && !NumberChar(s[i + |token|])
    ensures NumberEnd(s, i) == i + |token|
    decreases |token|
  {
    if token != "" {
      assert s[i] == s[i..i + |token|][0] == token[0] && token[0] in token;
      assert s[i + 1..i + |token|] == s[i..i + |token|][1..] == token[1..];
      NumberEnds(s, i + 1, token[1..]);
    }
  }

  lemma ParseRender(token: string, md5Hex: string)
    requires RankToken(token)
    ensures ParseJson(Render(token, md5Hex)) == Some((token, md5Hex))
  {
    var s := Render(token, md5Hex);
    var e := |OPEN| + |token|;
    assert s[..|OPEN|] == OPEN;
    assert s[|OPEN|..e] == token;
    assert s[e..e + |MIDDLE|] == MIDDLE;
    assert s[e] == s[e..e + |MIDDLE|][0];
    NumberEnds(s, |OPEN|, token);
    assert s[e + |MIDDLE|..|s| - |CLOSE|] == md5Hex;
    assert s[|s| - |CLOSE|..] == CLOSE;
  }

  /**
    A cursor decodes to the rank and md5 it was made from, for every rank and every md5 and with every
    reader that understands the encoder, exactly when it fits the length limit: a rank of at most 105
    characters.
    */
  lemma CursorRoundTrip<R(!new)>(dumps: R -> string, read: Reader<R>, rank: R, md5: Md5)
    requires ReadsBack(dumps, read) && Ascii(dumps(rank)) && |md5| == 16
    ensures LowerHex(Hex(md5))
    ensures DecodeCursor(read, EncodeCursor(dumps(rank), Hex(md5)))
         == if |dumps(rank)| <= 105 then Ok(Cursor(rank, Hex(md5))) else Err(MalformedCursor)
    ensures FromHex(Hex(md5)) == Some(md5)
  {
    HexRoundTrip(md5);
    CursorLength(|dumps(rank)|);
    WireStripped(dumps(rank), Hex(md5));
    hide Wire, Hex, Matches, Strip, Restore, StrippedLength, LowerHex, FromHex;
    assert read(Wire(dumps(rank), Hex(md5))) == Some((rank, Hex(md5)));
  }

  /** The text of a cursor matches the pattern, has the expected length and is padded back to what it was. */
  lemma WireStripped(token: string, md5Hex: string)
    requires Ascii(token) && LowerHex(md5Hex) && |md5Hex| == 32
    ensures var cursor := EncodeCursor(token, md5Hex);
            && Restore(cursor) == Wire(token, md5Hex) && |cursor| == StrippedLength(45 + |token|)
            && (cursor != "" ==> Matches(cursor))
  {
    hide Encode, Strip, Restore, StrippedLength;
    RenderIsAscii(token, md5Hex);
    var raw := ToBytes(Render(token, md5Hex));
    assert |raw| == 45 + |token|;
    StripEncode(raw);
    var cursor := Strip(Encode(raw));
    if cursor != "" {
      assert forall c :: c in cursor ==> CursorChar(c);
      assert cursor[|cursor| - 1] in cursor;
    }
  }

  lemma CursorLength(n: nat)
    ensures StrippedLength(45 + n) <= MAX_CURSOR <==> n <= 105
    ensures StrippedLength(45 + n) > 0
  {
  }

  /** Two rows never share a cursor. */
  lemma CursorInjective<R(!new)>(dumps: R -> string, read: Reader<R>, r1: R, m1: Md5, r2: R, m2: Md5)
    requires ReadsBack(dumps, read) && Ascii(dumps(r1)) && Ascii(dumps(r2))
    requires |dumps(r1)| <= 105 && |dumps(r2)| <= 105 && |m1| == 16 == |m2|
    requires LowerHex(Hex(m1)) && LowerHex(Hex(m2))
    requires EncodeCursor(dumps(r1), Hex(m1)) == EncodeCursor(dumps(r2), Hex(m2))
    ensures r1 == r2 && m1 == m2
  {
    CursorRoundTrip(dumps, read, r1, m1);
    CursorRoundTrip(dumps, read, r2, m2);
  }

  /** Whatever is accepted, by however lenient a reader, names a 16-byte key. */
  lemma AcceptedCursorIsUsable<R>(read: Reader<R>, cursor: string)
    requires DecodeCursor(read, cursor).Ok?
    ensures var key := FromHex(DecodeCursor(read, cursor).value.md5Hex); key.Some? && |key.value| == 16
  {
    FromHexTotal(DecodeCursor(read, cursor).value.md5Hex);
  }

  /** Before any reader sees it, a text must be short and of the alphabet, but for one final newline. */
  lemma AcceptedText<R>(read: Reader<R>, cursor: string)
    requires DecodeCursor(read, cursor).Ok?
    ensures 0 < |cursor| <= 200 && cursor != "\n"
    ensures forall i :: 0 <= i < |cursor| ==>
      || Value(cursor[i]).Some? || cursor[i] == '='
      || (i == |cursor| - 1 && cursor[i] == '\n')
    ensures read(Restore(cursor)) == Some((DecodeCursor(read, cursor).value.rank, DecodeCursor(read, cursor).value.md5Hex))
  {
    var n := |cursor| - 1;
    var body := if cursor[n] == '\n' then cursor[..n] else cursor;
    forall i | 0 <= i < |body| ensures Value(cursor[i]).Some? || cursor[i] == '=' {
      assert body[i] in body && CursorChar(body[i]);
    }
  }

  /** The text that is encoded. */
  lemma RenderedText()
    ensures Render("0.5", "ab") == "{\"r\":0.5,\"m\":\"ab\"}"
  {
    var all := "{\"r\":0.5,\"m\":\"ab\"}";
    assert all[..5] == OPEN;
    assert all[5..8] == "0.5";
    assert all[8..14] == MIDDLE;
    assert all[14..16] == "ab";
    assert all[16..] == CLOSE;
    assert all == OPEN + "0.5" + MIDDLE + "ab" + CLOSE;
  }

  // ---- The strictest reader ---------------------------------------------------------------

  type Token = t: string | RankToken(t) witness "0"

  function ReadStrictly(text: string): Option<(Token, string)> {
    var raw := Decode(text);
    if raw.None? then None
    else
      var payload := ParseJson(FromBytes(raw.value));
      if payload.None? || !RankToken(payload.value.0) then None else payload
  }

  function TokenText(t: Token): string { t }

  /** A reader that accepts nothing but the encoder's own layout understands the encoder. */
  lemma StrictReads()
    ensures ReadsBack(TokenText, ReadStrictly)
  {
    forall t: Token, md5Hex | Ascii(TokenText(t)) && LowerHex(md5Hex) && |md5Hex| == 32
      ensures ReadStrictly(Wire(TokenText(t), md5Hex)) == Some((t, md5Hex))
    {
      RenderIsAscii(t, md5Hex);
      DecodeEncode(ToBytes(Render(t, md5Hex)));
      AsciiRoundTrip(Render(t, md5Hex));
      ParseRender(t, md5Hex);
    }
  }
}
