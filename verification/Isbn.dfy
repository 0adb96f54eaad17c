/** ISBN arithmetic of `common/normalize.py` (ISO 2108), and the lookups built on it. */
module Isbn {
  import opened Options
  import opened OrderedUnion

  // ---- Characters ---------------------------------------------------------------------------

  predicate Digit(c: char) {
    '0' <= c <= '9'
  }

  function DigitValue(c: char): (v: nat)
    requires Digit(c)
    ensures v < 10
  {
    (c - '0') as nat
  }

  function DigitChar(v: nat): (c: char)
    requires v < 10
    ensures Digit(c) && DigitValue(c) == v
  {
    '0' + v as char
  }

  /** White space, the hyphen, and the dashes U+2010 to U+2015. */
  predicate Separator(c: char) {
    var n := c as int;
    9 <= n <= 13 || 28 <= n <= 32 || n == 0x85 || n == 0xA0 || n == 0x1680 || 0x2000 <= n <= 0x200A
    || n == 0x2028 || n == 0x2029 || n == 0x202F || n == 0x205F || n == 0x3000
    || c == '-' || 0x2010 <= n <= 0x2015
  }

  function Upper(c: char): char {
    if 'a' <= c <= 'z' then 'A' + (c - 'a') else c
  }

  function CleanChar(c: char): string {
    if Separator(c) then "" else [Upper(c)]
  }

  /** Strips, removes separators and upper-cases. */
  function Clean(s: string): string {
    if s == "" then "" else CleanChar(s[0]) + Clean(s[1..])
  }

  lemma {:induction false} CleanIdempotent(s: string)
    ensures Clean(Clean(s)) == Clean(s)
    ensures forall c :: c in Clean(s) ==> !Separator(c)
  {
    if s != "" {
      CleanIdempotent(s[1..]);
      if !Separator(s[0]) {
        var u := Upper(s[0]);
        assert !Separator(u) && Upper(u) == u;
        assert ([u] + Clean(s[1..]))[1..] == Clean(s[1..]);
      } else {
        assert Clean(s) == Clean(s[1..]);
      }
    }
  }

  /** Cleaning goes character by character. */
  lemma {:induction false} CleanMeaning(a: string, b: string)
    ensures Clean(a + b) == Clean(a) + Clean(b)
  {
    hide CleanChar;
    if a == "" {
      assert a + b == b;
      assert Clean(a) == "";
    } else {
      var first, rest := CleanChar(a[0]), Clean(a[1..]);
      CleanMeaning(a[1..], b);
      assert (a + b)[1..] == a[1..] + b;
      assert Clean(a + b) == first + (rest + Clean(b));
    }
  }

  lemma CleanOne(c: char)
    ensures Clean([c]) == if Separator(c) then "" else if 'a' <= c <= 'z' then ['A' + (c - 'a')] else [c]
    ensures c == '-' || c == ' ' || c == '\t' || 0x2010 <= c as int <= 0x2015 ==> Separator(c)
    ensures Digit(c) || 'A' <= c <= 'Z' || 'a' <= c <= 'z' ==> !Separator(c)
  {
    assert [c][1..] == "" && Clean("") == "";
  }

  /** `replace("-", "").replace(" ", "")`, as the search does before it normalizes. */
  function DropHyphensAndSpaces(s: string): string {
    if s == "" then "" else (if s[0] == '-' || s[0] == ' ' then "" else [s[0]]) + DropHyphensAndSpaces(s[1..])
  }

  lemma {:induction false} CleanAfterDrop(s: string)
    ensures Clean(DropHyphensAndSpaces(s)) == Clean(s)
  {
    if s != "" {
      CleanAfterDrop(s[1..]);
      var rest := DropHyphensAndSpaces(s[1..]);
      if s[0] == '-' || s[0] == ' ' {
        assert DropHyphensAndSpaces(s) == rest && Clean(s) == Clean(s[1..]);
      } else {
        assert ([s[0]] + rest)[1..] == rest;
      }
    }
  }

  // ---- Checksums ------------------------------------------------------------------------------

  /** 'X' counts as ten. */
  function Value10(c: char): nat {
    if Digit(c) then DigitValue(c) else 10
  }

  /** Weights 10 down to 1 over the first `n` characters. */
  function Sum10(s: string, n: nat): nat
    requires n <= |s| && n <= 10
  {
    if n == 0 then 0 else Sum10(s, n - 1) + (11 - n) * Value10(s[n - 1])
  }

  /** Weights 1, 3, 1, 3, ... over the first `n` characters. */
  function Sum13(s: string, n: nat): nat
    requires n <= |s|
  {
    if n == 0 then 0 else Sum13(s, n - 1) + (if (n - 1) % 2 == 0 then 1 else 3) * Value10(s[n - 1])
  }

  predicate AllDigits(s: string) {
    forall i :: 0 <= i < |s| ==> Digit(s[i])
  }

  /** An 'X' is accepted anywhere as long as the last character is one. */
  predicate Isbn10Valid(s: string) {
    && |s| == 10
    && (forall i :: 0 <= i < 10 ==> Digit(s[i]) || (s[i] == 'X' && s[9] == 'X'))
    && Sum10(s, 10) % 11 == 0
  }

  predicate Isbn13Valid(s: string) {
    |s| == 13 && AllDigits(s) && Sum13(s, 13) % 10 == 0
  }

  /** The ISBN-13 rule of ISO 2108, digit by digit. */
  lemma Isbn13Iff(s: string)
    requires |s| == 13 && AllDigits(s)
    ensures Isbn13Valid(s) <==>
      var d := (i: int) requires 0 <= i < 13 => (s[i] - '0') as int;
      (d(0) + 3 * d(1) + d(2) + 3 * d(3) + d(4) + 3 * d(5) + d(6) + 3 * d(7) + d(8) + 3 * d(9) + d(10) + 3 * d(11) + d(12)) % 10 == 0
  {
    Sum13Steps(s);
  }

  lemma Sum13Steps(s: string)
    requires |s| == 13
    ensures Sum13(s, 0) == 0 && Sum13(s, 1) == Sum13(s, 0) + Value10(s[0]) && Sum13(s, 2) == Sum13(s, 1) + 3 * Value10(s[1])
    ensures Sum13(s, 3) == Sum13(s, 2) + Value10(s[2]) && Sum13(s, 4) == Sum13(s, 3) + 3 * Value10(s[3])
    ensures Sum13(s, 5) == Sum13(s, 4) + Value10(s[4]) && Sum13(s, 6) == Sum13(s, 5) + 3 * Value10(s[5])
    ensures Sum13(s, 7) == Sum13(s, 6) + Value10(s[6]) && Sum13(s, 8) == Sum13(s, 7) + 3 * Value10(s[7])
    ensures Sum13(s, 9) == Sum13(s, 8) + Value10(s[8]) && Sum13(s, 10) == Sum13(s, 9) + 3 * Value10(s[9])
    ensures Sum13(s, 11) == Sum13(s, 10) + Value10(s[10]) && Sum13(s, 12) == Sum13(s, 11) + 3 * Value10(s[11])
    ensures Sum13(s, 13) == Sum13(s, 12) + Value10(s[12])
  {
    hide Value10;
  }

  /** The ISBN-10 rule: weights ten to one, an `X` counting ten. */
  lemma Isbn10Iff(s: string)
    requires |s| == 10 && AllDigits(s[..9]) && (Digit(s[9]) || s[9] == 'X')
    ensures Isbn10Valid(s) <==>
      var d := (i: int) requires 0 <= i < 10 => if s[i] == 'X' then 10 else (s[i] - '0') as int;
      (10 * d(0) + 9 * d(1) + 8 * d(2) + 7 * d(3) + 6 * d(4) + 5 * d(5) + 4 * d(6) + 3 * d(7) + 2 * d(8) + d(9)) % 11 == 0
  {
    assert forall i :: 0 <= i < 9 ==> s[..9][i] == s[i];
    Sum10Steps(s);
  }

  lemma Sum10Steps(s: string)
    requires |s| == 10
    ensures Sum10(s, 0) == 0 && Sum10(s, 1) == Sum10(s, 0) + 10 * Value10(s[0]) && Sum10(s, 2) == Sum10(s, 1) + 9 * Value10(s[1])
    ensures Sum10(s, 3) == Sum10(s, 2) + 8 * Value10(s[2]) && Sum10(s, 4) == Sum10(s, 3) + 7 * Value10(s[3])
    ensures Sum10(s, 5) == Sum10(s, 4) + 6 * Value10(s[4]) && Sum10(s, 6) == Sum10(s, 5) + 5 * Value10(s[5])
    ensures Sum10(s, 7) == Sum10(s, 6) + 4 * Value10(s[6]) && Sum10(s, 8) == Sum10(s, 7) + 3 * Value10(s[7])
    ensures Sum10(s, 9) == Sum10(s, 8) + 2 * Value10(s[8]) && Sum10(s, 10) == Sum10(s, 9) + Value10(s[9])
  {
    hide Value10;
  }

  // ---- Conversion -----------------------------------------------------------------------------

  /** `int("X")` raises `ValueError`. */
  datatype Converted = Raises | NotAnIsbn | Code(isbn: string)

  const PREFIX: string := "978"

  function CheckDigit13(core: string): char
    requires |core| == 12
  {
    DigitChar((10 - Sum13(core, 12) % 10) % 10)
  }

  function Isbn10To13(s: string): Converted {
    if !Isbn10Valid(s) then NotAnIsbn
    else if !AllDigits(s[..9]) then Raises
    else
      var core := PREFIX + s[..9];
      var candidate := core + [CheckDigit13(core)];
      if Isbn13Valid(candidate) then Code(candidate) else NotAnIsbn
  }

  function NormalizeIsbn13(value: string): Converted {
    var cleaned := Clean(value);
    if Isbn13Valid(cleaned) then Code(cleaned)
    else if |cleaned| == 10 then Isbn10To13(cleaned)
    else NotAnIsbn
  }

  function NormalizeIsbn10(value: string): Option<string> {
    var cleaned := Clean(value);
    if Isbn10Valid(cleaned) then Some(cleaned) else None
  }

  /** What has an ISBN-13 form: a valid ISBN-13, whatever its prefix, is its own, and else only a valid ISBN-10 has one. */
  lemma NormalizeIsbn13Iff(value: string, isbn: string)
    ensures var s := Clean(value);
            NormalizeIsbn13(value) == Code(isbn) <==>
              || (|s| == 13 && Isbn13Valid(s) && isbn == s)
              || (|s| == 10 && Isbn10Valid(s) && AllDigits(s[..9]) && |isbn| == 13 && isbn[..12] == "978" + s[..9] && Isbn13Valid(isbn))
  {
    hide Sum10, Sum13;
    var s := Clean(value);
    if |s| == 10 && Isbn10Valid(s) && AllDigits(s[..9]) {
      ValidIsbn10Converts(s);
      assert forall i :: 0 <= i < 9 ==> s[..9][i] == s[i];
      var code := Isbn10To13(s).isbn;
      if |isbn| == 13 && isbn[..12] == "978" + s[..9] && Isbn13Valid(isbn) { SameCore(isbn, code); }
    }
  }

  /** Two valid ISBN-13s that agree in twelve places agree in the check digit. */
  lemma SameCore(s: string, t: string)
    requires Isbn13Valid(s) && Isbn13Valid(t) && s[..12] == t[..12]
    ensures s == t
  {
    SamePrefixSameSum13(s, t, 12);
    SumThirteenth(s);
    SumThirteenth(t);
    hide Sum13;
    SameRemainder(Sum13(s, 12), Value10(s[12]), Value10(t[12]));
    assert s == s[..12] + [s[12]] && t == t[..12] + [t[12]];
  }

  lemma SameRemainder(a: nat, x: nat, y: nat)
    requires x < 10 && y < 10 && (a + x) % 10 == 0 == (a + y) % 10
    ensures x == y
  {
  }

  lemma {:induction false} SamePrefixSameSum13(s: string, t: string, n: nat)
    requires n <= |s| && n <= |t| && s[..n] == t[..n]
    ensures Sum13(s, n) == Sum13(t, n)
  {
    if n > 0 {
      assert s[..n][..n - 1] == s[..n - 1] && t[..n][..n - 1] == t[..n - 1];
      assert s[n - 1] == s[..n][n - 1] == t[..n][n - 1];
      SamePrefixSameSum13(s, t, n - 1);
    }
  }

  lemma {:induction false} SamePrefixSameSum10(s: string, t: string, n: nat)
    requires n <= |s| && n <= |t| && n <= 10 && s[..n] == t[..n]
    ensures Sum10(s, n) == Sum10(t, n)
  {
    if n > 0 {
      assert s[..n][..n - 1] == s[..n - 1] && t[..n][..n - 1] == t[..n - 1];
      assert s[n - 1] == s[..n][n - 1] == t[..n][n - 1];
      SamePrefixSameSum10(s, t, n - 1);
    }
  }

  /** The appended digit always completes the sum to a multiple of ten. */
  lemma CheckDigitCompletes(core: string)
    requires |core| == 12 && AllDigits(core)
    ensures Isbn13Valid(core + [CheckDigit13(core)])
  {
    var c := core + [CheckDigit13(core)];
    assert c[..12] == core[..12] && c[12] == CheckDigit13(core);
    SamePrefixSameSum13(c, core, 12);
    SumThirteenth(c);
    hide Sum13, DigitChar;
    CompletesToTen(Sum13(core, 12));
    assert forall i :: 0 <= i < 12 ==> c[i] == core[i];
  }

  lemma SumThirteenth(s: string)
    requires |s| == 13
    ensures Sum13(s, 13) == Sum13(s, 12) + Value10(s[12])
  {
  }

  lemma CompletesToTen(sum: nat)
    ensures (sum + (10 - sum % 10) % 10) % 10 == 0
  {
  }

  /** Every checksum-valid ISBN-10 converts to a valid 978 code, unless an early 'X' raises first. */
  lemma ValidIsbn10Converts(s: string)
    requires Isbn10Valid(s)
    ensures Isbn10To13(s).Raises? <==> exists i :: 0 <= i < 9 && s[i] == 'X'
    ensures !Isbn10To13(s).Raises? ==>
      Isbn10To13(s).Code? && Isbn13Valid(Isbn10To13(s).isbn) && Isbn10To13(s).isbn[..12] == PREFIX + s[..9]
  {
    assert forall i :: 0 <= i < 9 ==> s[..9][i] == s[i];
    if AllDigits(s[..9]) {
      var core := PREFIX + s[..9];
      CheckDigitCompletes(core);
      assert (core + [CheckDigit13(core)])[..12] == core;
    }
  }

  lemma {:induction false} ZerosAddNothing(s: string, n: nat)
    requires 1 <= n <= 9 <= |s| && forall i :: 1 <= i < 9 ==> s[i] == '0'
    ensures Sum10(s, n) == Sum10(s, 1)
  {
    if n > 1 {
      ZerosAddNothing(s, n - 1);
      assert Value10(s[n - 1]) == 0;
    }
  }

  /** The string X00000000X. */
  predicate IsEarlyX(s: string) {
    |s| == 10 && s[0] == 'X' && s[9] == 'X' && forall i :: 1 <= i < 9 ==> s[i] == '0'
  }

  /** An early 'X' can pass the checksum, and then breaks the conversion. */
  lemma EarlyXRaises(s: string)
    requires IsEarlyX(s)
    ensures Isbn10Valid(s) && NormalizeIsbn13(s).Raises?
  {
    hide Sum10;
    EarlyXSum(s);
    assert forall i :: 0 <= i < 10 ==> s[i] == 'X' || s[i] == '0';
    assert Isbn10Valid(s);
    assert !Digit(s[..9][0]);
    CleanKeeps(s);
  }

  lemma EarlyXSum(s: string)
    requires IsEarlyX(s)
    ensures Sum10(s, 10) == 110
  {
    ZerosAddNothing(s, 9);
    assert Sum10(s, 1) == Sum10(s, 0) + 10 * Value10(s[0]);
    assert Sum10(s, 10) == Sum10(s, 9) + Value10(s[9]);
  }

  lemma {:induction false} CleanKeeps(s: string)
    requires forall i :: 0 <= i < |s| ==> !Separator(s[i]) && Upper(s[i]) == s[i]
    ensures Clean(s) == s
  {
    if s != "" {
      CleanKeeps(s[1..]);
      assert s == [s[0]] + s[1..];
    }
  }

  /** The check character is determined by the others. */
  lemma ConversionInjective(s: string, t: string)
    requires Isbn10To13(s).Code? && Isbn10To13(s) == Isbn10To13(t)
    ensures s == t
  {
    ValidIsbn10Converts(s);
    ValidIsbn10Converts(t);
    assert s[..9] == (PREFIX + s[..9])[3..] == (PREFIX + t[..9])[3..] == t[..9];
    SamePrefixSameSum10(s, t, 9);
    assert Sum10(s, 10) == Sum10(s, 9) + Value10(s[9]) && Sum10(t, 10) == Sum10(t, 9) + Value10(t[9]);
    hide Sum10, Isbn10To13, Sum13;
    assert Value10(s[9]) == Value10(t[9]);
    assert s == s[..9] + [s[9]] && t == t[..9] + [t[9]];
  }

  // ---- Lists of identifiers ---------------------------------------------------------------------

  function AppendNew(s: seq<string>, x: Option<string>): seq<string> {
    if x.Some? && x.value !in s then s + [x.value] else s
  }

  predicate LooksLikeAsin(s: string) {
    |s| == 10 && s[0] == 'B' && forall i :: 1 <= i < 10 ==> Digit(s[i]) || 'A' <= s[i] <= 'Z'
  }

  /** The ISBN-13 forms of the values that have one, in order, with repetitions. */
  function NormalForms(values: seq<string>): seq<string> {
    if values == [] then []
    else
      var front, c := NormalForms(values[..|values| - 1]), NormalizeIsbn13(values[|values| - 1]);
      if c.Code? then front + [c.isbn] else front
  }

  ghost predicate SomeRaises(values: seq<string>) {
    exists i :: 0 <= i < |values| && NormalizeIsbn13(values[i]).Raises?
  }

  lemma CleanFirst(value: string)
    ensures NormalizeIsbn13(Clean(value)) == NormalizeIsbn13(value)
    ensures NormalizeIsbn10(Clean(value)) == NormalizeIsbn10(value)
  {
    CleanIdempotent(value);
  }

  /** A value with a valid ISBN-10 form always gets an ISBN-13 form or raises. */
  lemma Isbn10IsAbsorbed(value: string)
    ensures NormalizeIsbn10(value).Some? ==> !NormalizeIsbn13(value).NotAnIsbn?
  {
    if Isbn10Valid(Clean(value)) { ValidIsbn10Converts(Clean(value)); }
  }

  /** `normalize_isbn_list`: no ISBN-10 survives on its own, and the ISBN-13 forms are deduplicated in order. */
  method NormalizeIsbnList(values: seq<string>) returns (raised: bool, isbn13: seq<string>, isbn10: seq<string>)
    ensures raised <==> SomeRaises(values)
    ensures !raised ==> isbn10 == [] && isbn13 == Dedup(NormalForms(values))
  {
    hide Dedup, Clean, NormalizeIsbn13, NormalizeIsbn10, LooksLikeAsin, NormalForms;
    raised, isbn13, isbn10 := false, [], [];
    NoForms(values);
    for i := 0 to |values|
      invariant isbn10 == [] && isbn13 == Dedup(NormalForms(values[..i]))
      invariant forall j :: 0 <= j < i ==> !NormalizeIsbn13(values[j]).Raises?
    {
      NormalFormsNext(values, i);
      var cleaned := Clean(values[i]);
      CleanFirst(values[i]);
      if cleaned == "" {
        EmptyIsNoIsbn(values[i]);
      } else {
        var as13 := NormalizeIsbn13(cleaned);
        match as13 {
          case Raises =>
            raised := true;
            return;
          case Code(code) =>
            DedupStep(NormalForms(values[..i]), code);
            if code !in isbn13 {
              isbn13 := isbn13 + [code];
            }
          case NotAnIsbn =>
            if |cleaned| == 10 && !LooksLikeAsin(cleaned) {
              Isbn10IsAbsorbed(values[i]);
              isbn10 := AppendNew(isbn10, NormalizeIsbn10(cleaned));
            }
        }
      }
    }
    assert values[..|values|] == values;
  }

  lemma NoForms(values: seq<string>)
    ensures NormalForms(values[..0]) == [] && Dedup([]) == []
  {
  }

  lemma NormalFormsNext(values: seq<string>, i: nat)
    requires i < |values|
    ensures var c, front, all := NormalizeIsbn13(values[i]), NormalForms(values[..i]), NormalForms(values[..i + 1]);
            if c.Code? then all == front + [c.isbn] else all == front
  {
    hide NormalizeIsbn13;
    assert values[..i + 1][..i] == values[..i];
  }

  lemma EmptyIsNoIsbn(value: string)
    requires Clean(value) == ""
    ensures NormalizeIsbn13(value).NotAnIsbn?
  {
  }

  // ---- Search ----------------------------------------------------------------------------------

  datatype IsbnFilter = FilterRaises | InvalidIsbn | Filter(isbn13: Option<string>, isbn10: Option<string>)

  /** The ISBN part of `build_search_sql`. */
  function BuildFilter(isbn: string): IsbnFilter {
    var as13 := NormalizeIsbn13(isbn);
    var as10 := NormalizeIsbn10(DropHyphensAndSpaces(isbn));
    if as13.Raises? then FilterRaises
    else if as13.NotAnIsbn? && as10.None? then InvalidIsbn
    else Filter(if as13.Code? then Some(as13.isbn) else None, as10)
  }

  /** `isbn13 @> ... OR isbn10 @> ...` */
  predicate Hits(f: IsbnFilter, isbn13: seq<string>, isbn10: seq<string>)
    requires f.Filter?
  {
    (f.isbn13.Some? && f.isbn13.value in isbn13) || (f.isbn10.Some? && f.isbn10.value in isbn10)
  }

  lemma {:induction false} NormalFormsMembers(values: seq<string>, code: string)
    ensures code in NormalForms(values) <==> exists i :: 0 <= i < |values| && NormalizeIsbn13(values[i]) == Code(code)
  {
    hide NormalizeIsbn13;
    if values != [] {
      var front, v := values[..|values| - 1], values[|values| - 1];
      assert values == front + [v];
      NormalFormsMembers(front, code);
      if i :| 0 <= i < |values| && NormalizeIsbn13(values[i]) == Code(code) {
        if i < |front| { assert NormalizeIsbn13(front[i]) == Code(code); }
      }
      if code in NormalForms(values) {
        if NormalizeIsbn13(v) == Code(code) {
          assert NormalizeIsbn13(values[|front|]) == Code(code);
        } else {
          var i :| 0 <= i < |front| && NormalizeIsbn13(front[i]) == Code(code);
          assert NormalizeIsbn13(values[i]) == Code(code);
        }
      }
    }
  }

  /** The lists that the importer stores for raw identifiers; `NormalizeIsbnList` computes them. */
  predicate IndexedFrom(values: seq<string>, isbn13: seq<string>, isbn10: seq<string>) {
    isbn10 == [] && isbn13 == Dedup(NormalForms(values))
  }

  /** The search accepts a value exactly when it has an ISBN-13 form, and asks for that form. */
  lemma FilterIff(isbn: string)
    ensures BuildFilter(isbn).Filter? <==> NormalizeIsbn13(isbn).Code?
    ensures BuildFilter(isbn).Filter? ==> BuildFilter(isbn).isbn13 == Some(NormalizeIsbn13(isbn).isbn)
    ensures BuildFilter(isbn).FilterRaises? <==> NormalizeIsbn13(isbn).Raises?
  {
    CleanAfterDrop(isbn);
    Isbn10IsAbsorbed(isbn);
  }

  /** Index and query agree: a search hits a record exactly when one of its identifiers has the same normal form. */
  lemma LookupAgreement(values: seq<string>, isbn13: seq<string>, isbn10: seq<string>, query: string)
    requires IndexedFrom(values, isbn13, isbn10) && BuildFilter(query).Filter?
    ensures Hits(BuildFilter(query), isbn13, isbn10)
       <==> exists i :: 0 <= i < |values| && NormalizeIsbn13(values[i]) == NormalizeIsbn13(query)
  {
    FilterIff(query);
    NormalFormsMembers(values, NormalizeIsbn13(query).isbn);
  }

  /** Both forms of one book normalize alike, so either finds what was indexed from either. */
  lemma BothFormsAgree(isbn10: string)
    requires Isbn10Valid(isbn10) && AllDigits(isbn10[..9])
    ensures Isbn10To13(isbn10).Code?
    ensures NormalizeIsbn13(isbn10) == Isbn10To13(isbn10) == NormalizeIsbn13(Isbn10To13(isbn10).isbn)
  {
    assert forall i :: 0 <= i < 9 ==> isbn10[..9][i] == isbn10[i];
    ValidIsbn10Converts(isbn10);
    CleanKeeps(isbn10);
    CleanKeeps(Isbn10To13(isbn10).isbn);
  }
}
