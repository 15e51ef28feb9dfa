/**
 * Token codes: how they are generated, how the server validates them, and how the browser
 * formats what a customer types.
 */
module TokenCode {
  import opened Basics

  datatype TokenConfig = TokenConfig(prefix: string, charset: string, length: nat) {
    /** What the configuration check accepts. */
    predicate Accepted() {
      prefix != "" && charset != "" && length >= 6 && length % 2 == 0
    }

    function Half(): nat {
      length / 2
    }
  }

  // ---- Text as bytes -----------------------------------------------------------------------

  predicate Ascii(c: char) {
    c as int < 0x80
  }

  predicate AllAscii(s: string) {
    forall i :: 0 <= i < |s| ==> Ascii(s[i])
  }

  /** The UTF-8 encoding of a character. */
  function Utf8(c: char): seq<nat> {
    var n := c as int;
    if n < 0x80 then [n]
    else if n < 0x800 then [0xC0 + n / 64, 0x80 + n % 64]
    else if n < 0x10000 then [0xE0 + n / 4096, 0x80 + n / 64 % 64, 0x80 + n % 64]
    else [0xF0 + n / 262144, 0x80 + n / 4096 % 64, 0x80 + n / 64 % 64, 0x80 + n % 64]
  }

  function Bytes(s: string): seq<nat> {
    if s == "" then [] else Utf8(s[0]) + Bytes(s[1..])
  }

  lemma {:induction false} BytesConcat(a: string, b: string)
    ensures Bytes(a + b) == Bytes(a) + Bytes(b)
  {
    if a == "" {
      assert a + b == b;
    } else {
      assert (a + b)[1..] == a[1..] + b;
      BytesConcat(a[1..], b);
    }
  }

  /** No text is longer in characters than in bytes, and only ASCII text is as long. */
  lemma {:induction false} ByteLength(s: string)
    ensures |Bytes(s)| >= |s|
    ensures |Bytes(s)| == |s| <==> AllAscii(s)
  {
    if s != "" {
      ByteLength(s[1..]);
      assert AllAscii(s) <==> Ascii(s[0]) && AllAscii(s[1..]) by {
        assert forall i :: 0 < i < |s| ==> s[i] == s[1..][i - 1];
        assert forall i :: 0 <= i < |s[1..]| ==> s[1..][i] == s[i + 1];
      }
    }
  }

  // ---- Validation ----------------------------------------------------------------------------

  /** Whether a code has the configured form; lengths and the dash are checked on bytes. */
  predicate ValidFormat(cfg: TokenConfig, code: string) {
    && cfg.prefix + "-" <= code
    && var body := code[|cfg.prefix| + 1..];
       && |Bytes(body)| == cfg.Half() + 1 + cfg.Half()
       && Bytes(body)[cfg.Half()] == '-' as int
       && forall i :: 0 <= i < |body| && i != cfg.Half() ==> body[i] in cfg.charset
  }

  // ---- Generation ------------------------------------------------------------------------------

  function Code(cfg: TokenConfig, part1: string, part2: string): string {
    cfg.prefix + "-" + part1 + "-" + part2
  }

  predicate Part(cfg: TokenConfig, part: string) {
    |part| == cfg.Half() && forall i :: 0 <= i < |part| ==> part[i] in cfg.charset
  }

  /** The language of the generator. */
  ghost predicate Generated(cfg: TokenConfig, code: string) {
    exists part1: string, part2: string :: Part(cfg, part1) && Part(cfg, part2) && code == Code(cfg, part1, part2)
  }

  lemma CodeBody(cfg: TokenConfig, part1: string, part2: string)
    ensures cfg.prefix + "-" <= Code(cfg, part1, part2)
    ensures Code(cfg, part1, part2)[|cfg.prefix| + 1..] == part1 + "-" + part2
  {
    assert Code(cfg, part1, part2) == (cfg.prefix + "-") + (part1 + "-" + part2);
  }

  lemma BodyAscii(part1: string, part2: string)
    ensures AllAscii(part1 + "-" + part2) <==> AllAscii(part1) && AllAscii(part2)
  {
    var body := part1 + "-" + part2;
    assert forall i :: 0 <= i < |part1| ==> body[i] == part1[i];
    assert body[|part1|] == '-';
    assert forall i :: 0 <= i < |part2| ==> body[|part1| + 1 + i] == part2[i];
  }

  /** In an ASCII body the middle byte is the middle character. */
  lemma BodyDash(part1: string, part2: string)
    requires AllAscii(part1)
    ensures |Bytes(part1 + "-" + part2)| > |part1| && Bytes(part1 + "-" + part2)[|part1|] == '-' as int
  {
    ByteLength(part1);
    BytesConcat(part1, "-" + part2);
    assert part1 + ("-" + part2) == part1 + "-" + part2;
    assert Bytes("-" + part2)[0] == '-' as int;
  }

  /** A generated code is accepted exactly when its random characters are ASCII. */
  lemma GeneratedAccepted(cfg: TokenConfig, part1: string, part2: string)
    requires Part(cfg, part1) && Part(cfg, part2)
    ensures ValidFormat(cfg, Code(cfg, part1, part2)) <==> AllAscii(part1) && AllAscii(part2)
  {
    CodeBody(cfg, part1, part2);
    ByteLength(part1 + "-" + part2);
    BodyAscii(part1, part2);
    if AllAscii(part1) && AllAscii(part2) {
      BodyDash(part1, part2);
    }
  }

  /** With an ASCII charset the validator accepts exactly the generator's language. */
  lemma ValidatorAcceptsTheLanguage(cfg: TokenConfig, code: string)
    requires AllAscii(cfg.charset)
    ensures ValidFormat(cfg, code) <==> Generated(cfg, code)
  {
    if Generated(cfg, code) {
      var part1: string, part2: string :| Part(cfg, part1) && Part(cfg, part2) && code == Code(cfg, part1, part2);
      GeneratedAccepted(cfg, part1, part2);
    }
    if ValidFormat(cfg, code) {
      DecomposeValid(cfg, code);
    }
  }

  /** The byte checks put an ASCII dash in the middle of an accepted body. */
  lemma MiddleDash(charset: string, half: nat, body: string)
    requires AllAscii(charset) && |Bytes(body)| > half && Bytes(body)[half] == '-' as int
    requires forall i :: 0 <= i < |body| && i != half ==> body[i] in charset
    ensures |body| > half && body[half] == '-' && AllAscii(body)
  {
    ByteLength(body);
    if |body| > half {
      var part1 := body[..half];
      var rest := body[half..];
      ByteLength(part1);
      assert body == part1 + rest;
      BytesConcat(part1, rest);
      assert Bytes(body)[half] == Bytes(rest)[0] == Utf8(body[half])[0];
    } else {
      assert AllAscii(body);
    }
  }

  lemma DecomposeValid(cfg: TokenConfig, code: string)
    requires AllAscii(cfg.charset) && ValidFormat(cfg, code)
    ensures Generated(cfg, code)
  {
    var half := cfg.Half();
    var body := code[|cfg.prefix| + 1..];
    MiddleDash(cfg.charset, half, body);
    assert |body| == half + 1 + half by { ByteLength(body); }
    SplitBody(cfg, code, body);
  }

  lemma SplitBody(cfg: TokenConfig, code: string, body: string)
    requires code == cfg.prefix + "-" + body && |body| == cfg.Half() + 1 + cfg.Half() && body[cfg.Half()] == '-'
    requires forall i :: 0 <= i < |body| && i != cfg.Half() ==> body[i] in cfg.charset
    ensures Generated(cfg, code)
  {
    var part1 := body[..cfg.Half()];
    var part2 := body[cfg.Half() + 1..];
    assert body == part1 + "-" + part2;
    assert code == Code(cfg, part1, part2);
    assert Part(cfg, part1) && Part(cfg, part2);
  }

  function Repeat(c: char, n: nat): string {
    seq(n, _ => c)
  }

  /**
   * The configuration check lets any charset through, but every generated code is accepted
   * if and only if the charset is ASCII.
   */
  lemma EveryCodeAccepted(cfg: TokenConfig)
    requires cfg.Accepted()
    ensures AllAscii(cfg.charset) <==>
      forall part1: string, part2: string ::
        Part(cfg, part1) && Part(cfg, part2) ==> ValidFormat(cfg, Code(cfg, part1, part2))
  {
    forall part1: string, part2: string | AllAscii(cfg.charset) && Part(cfg, part1) && Part(cfg, part2)
      ensures ValidFormat(cfg, Code(cfg, part1, part2))
    {
      GeneratedAccepted(cfg, part1, part2);
    }
    if !AllAscii(cfg.charset) {
      var i :| 0 <= i < |cfg.charset| && !Ascii(cfg.charset[i]);
      var part := Repeat(cfg.charset[i], cfg.Half());
      assert Part(cfg, part) && !Ascii(part[0]);
      GeneratedAccepted(cfg, part, part);
    }
  }

  /** One part, from one random index per character. */
  method DrawPart(cfg: TokenConfig, draws: seq<nat>) returns (part: string)
    requires |draws| == cfg.Half() && forall i :: 0 <= i < |draws| ==> draws[i] < |cfg.charset|
    ensures Part(cfg, part)
    ensures forall i :: 0 <= i < |part| ==> part[i] == cfg.charset[draws[i]]
  {
    part := "";
    for i := 0 to |draws|
      invariant |part| == i
      invariant forall j :: 0 <= j < i ==> part[j] == cfg.charset[draws[j]]
    {
      part := part + [cfg.charset[draws[i]]];
    }
  }

  /** No code of the batch exists already, and none occurs twice. */
  ghost predicate AllNew(existing: set<string>, codes: seq<string>) {
    && (forall i :: 0 <= i < |codes| ==> codes[i] !in existing)
    && (forall i, j :: 0 <= i < j < |codes| ==> codes[i] != codes[j])
  }

  /**
   * The insert loop: the whole batch is stored exactly when all its codes are new. At the
   * first duplicate it stops, and keeps what it stored before.
   */
  method StoreCodes(existing: set<string>, codes: seq<string>) returns (stored: set<string>, ok: bool)
    ensures ok <==> AllNew(existing, codes)
    ensures ok ==> stored == existing + set c | c in codes
    ensures !ok ==> exists n :: 0 <= n < |codes| && AllNew(existing, codes[..n]) &&
                     stored == existing + (set c | c in codes[..n]) && codes[n] in stored
  {
    stored := existing;
    for i := 0 to |codes|
      invariant AllNew(existing, codes[..i])
      invariant stored == existing + set c | c in codes[..i]
    {
      if codes[i] in stored {
        if codes[i] !in existing {
          var j :| 0 <= j < i && codes[..i][j] == codes[i];
          assert codes[j] == codes[i];
        }
        return stored, false;
      }
      assert codes[..i + 1] == codes[..i] + [codes[i]];
      assert codes[i] !in codes[..i];
      stored := stored + {codes[i]};
    }
    assert codes[..|codes|] == codes;
    ok := true;
  }

  // ---- The browser formatter -----------------------------------------------------------------

  predicate Alnum(c: char) {
    'A' <= c <= 'Z' || 'a' <= c <= 'z' || '0' <= c <= '9'
  }

  function Upper(c: char): char {
    if 'a' <= c <= 'z' then (c as int - 32) as char else c
  }

  predicate UpperAlnum(c: char) {
    'A' <= c <= 'Z' || '0' <= c <= '9'
  }

  predicate AllUpperAlnum(s: string) {
    forall i :: 0 <= i < |s| ==> UpperAlnum(s[i])
  }

  /** Everything but letters and digits stripped, the rest in upper case. */
  function Raw(s: string): string {
    if s == "" then ""
    else if Alnum(s[0]) then [Upper(s[0])] + Raw(s[1..])
    else Raw(s[1..])
  }

  function Cut(raw: string): string {
    if |raw| > 12 then raw[..12] else raw
  }

  /** Dashes after the fourth and the eighth character, where more follows. */
  function Dashed(raw: string): string {
    if |raw| <= 4 then raw
    else if |raw| <= 8 then raw[..4] + "-" + raw[4..]
    else raw[..4] + "-" + raw[4..8] + "-" + raw[8..]
  }

  function Format(s: string): string {
    Dashed(Cut(Raw(s)))
  }

  lemma DashedOneMore(raw: string, c: char)
    ensures Dashed(raw + [c]) == (if |raw| == 4 || |raw| == 8 then Dashed(raw) + "-" else Dashed(raw)) + [c]
  {
    var longer := raw + [c];
    if |raw| >= 4 {
      assert longer[..4] == raw[..4];
      if |raw| < 8 {
        assert longer[4..] == raw[4..] + [c];
      } else {
        assert longer[4..8] == raw[4..8];
        assert longer[8..] == raw[8..] + [c];
      }
    }
  }

  /** The input handler's loop. */
  method FormatInput(value: string) returns (formatted: string)
    ensures formatted == Format(value)
  {
    var raw := Raw(value);
    if |raw| > 12 {
      raw := raw[..12];
    }
    formatted := "";
    for i := 0 to |raw|
      invariant formatted == Dashed(raw[..i])
    {
      assert raw[..i + 1] == raw[..i] + [raw[i]];
      DashedOneMore(raw[..i], raw[i]);
      if i == 4 || i == 8 {
        formatted := formatted + "-";
      }
      formatted := formatted + [raw[i]];
    }
    assert raw[..|raw|] == raw;
  }

  lemma {:induction false} RawConcat(a: string, b: string)
    ensures Raw(a + b) == Raw(a) + Raw(b)
  {
    if a == "" {
      assert a + b == b;
    } else {
      assert (a + b)[1..] == a[1..] + b;
      RawConcat(a[1..], b);
    }
  }

  lemma {:induction false} RawIsUpper(s: string)
    ensures AllUpperAlnum(Raw(s))
  {
    if s != "" { RawIsUpper(s[1..]); }
  }

  lemma {:induction false} RawOfUpper(s: string)
    requires AllUpperAlnum(s)
    ensures Raw(s) == s
  {
    if s != "" { RawOfUpper(s[1..]); }
  }

  lemma RawDashed(raw: string)
    requires AllUpperAlnum(raw)
    ensures Raw(Dashed(raw)) == raw
  {
    assert Raw("-") == "" by { assert "-"[1..] == ""; }
    if |raw| <= 4 {
      RawOfUpper(raw);
    } else if |raw| <= 8 {
      RawConcat(raw[..4] + "-", raw[4..]);
      RawConcat(raw[..4], "-");
      RawOfUpper(raw[..4]);
      RawOfUpper(raw[4..]);
    } else {
      RawConcat(raw[..4] + "-" + raw[4..8] + "-", raw[8..]);
      RawConcat(raw[..4] + "-" + raw[4..8], "-");
      RawConcat(raw[..4] + "-", raw[4..8]);
      RawConcat(raw[..4], "-");
      RawOfUpper(raw[..4]);
      RawOfUpper(raw[4..8]);
      RawOfUpper(raw[8..]);
    }
  }

  /** Formatting twice is formatting once, for every string. */
  lemma FormatIdempotent(s: string)
    ensures Format(Format(s)) == Format(s)
  {
    RawIsUpper(s);
    RawDashed(Cut(Raw(s)));
  }

  // ---- From the counter to the server ----------------------------------------------------------

  /** The shape the browser formatter is written for. */
  predicate Standard(cfg: TokenConfig) {
    cfg.length == 8 && |cfg.prefix| == 4 && AllUpperAlnum(cfg.prefix) && AllUpperAlnum(cfg.charset)
  }

  predicate Blank(c: char) {
    c in " \t\n\r"
  }

  function UpperAll(s: string): string {
    seq(|s|, i requires 0 <= i < |s| => Upper(s[i]))
  }

  function TrimStart(s: string): string {
    if s != "" && Blank(s[0]) then TrimStart(s[1..]) else s
  }

  function TrimEnd(s: string): string {
    if s != "" && Blank(s[|s| - 1]) then TrimEnd(s[..|s| - 1]) else s
  }

  /** What the server makes of a submitted code, on ASCII text. */
  function Normalized(s: string): string {
    UpperAll(TrimEnd(TrimStart(s)))
  }

  lemma CodeIsDashed(cfg: TokenConfig, part1: string, part2: string)
    requires Standard(cfg) && Part(cfg, part1) && Part(cfg, part2)
    ensures Code(cfg, part1, part2) == Dashed(cfg.prefix + part1 + part2)
    ensures AllUpperAlnum(cfg.prefix + part1 + part2) && |cfg.prefix + part1 + part2| == 12
  {
    var raw := cfg.prefix + part1 + part2;
    assert raw[..4] == cfg.prefix && raw[4..8] == part1 && raw[8..] == part2;
    forall i | 0 <= i < |part1| ensures UpperAlnum(part1[i]) && UpperAlnum(part2[i]) {
      assert part1[i] in cfg.charset && part2[i] in cfg.charset;
    }
  }

  /**
   * A customer's typing formats to the code exactly when its first twelve letters and digits,
   * in upper case, are those of the code, whatever its case, separators and surplus.
   */
  lemma TypingFormatsToCode(cfg: TokenConfig, part1: string, part2: string, typed: string)
    requires Standard(cfg) && Part(cfg, part1) && Part(cfg, part2)
    ensures Format(typed) == Code(cfg, part1, part2) <==> Cut(Raw(typed)) == Raw(Code(cfg, part1, part2))
  {
    CodeIsDashed(cfg, part1, part2);
    RawDashed(cfg.prefix + part1 + part2);
    RawIsUpper(typed);
    RawDashed(Cut(Raw(typed)));
  }

  /** Any re-cased or re-separated typing of a generated code reaches the server as that code, and validates. */
  lemma TypedCodeValidates(cfg: TokenConfig, part1: string, part2: string, typed: string)
    requires Standard(cfg) && Part(cfg, part1) && Part(cfg, part2)
    requires Raw(typed) == Raw(Code(cfg, part1, part2))
    ensures Format(typed) == Code(cfg, part1, part2)
    ensures Normalized(Format(typed)) == Format(typed) && ValidFormat(cfg, Normalized(Format(typed)))
  {
    var code := Code(cfg, part1, part2);
    CodeIsDashed(cfg, part1, part2);
    RawDashed(cfg.prefix + part1 + part2);
    TypingFormatsToCode(cfg, part1, part2, typed);
    assert UpperAll(code) == code;
    assert !Blank(code[0]) && !Blank(code[|code| - 1]);
    assert AllAscii(part1) && AllAscii(part2) by {
      assert forall i :: 0 <= i < 4 ==> part1[i] == (cfg.prefix + part1 + part2)[4 + i];
      assert forall i :: 0 <= i < 4 ==> part2[i] == (cfg.prefix + part1 + part2)[8 + i];
    }
    GeneratedAccepted(cfg, part1, part2);
  }

  /** Blanks around a text. */
  ghost predicate Padded(s: string, a: nat, b: nat) {
    && a <= b <= |s|
    && (forall i :: 0 <= i < a ==> Blank(s[i]))
    && (forall i :: b <= i < |s| ==> Blank(s[i]))
  }

  predicate Solid(s: string) {
    s != "" && !Blank(s[0]) && !Blank(s[|s| - 1])
  }

  lemma {:induction false} TrimStartPadded(s: string, a: nat)
    requires a < |s| && !Blank(s[a]) && forall i :: 0 <= i < a ==> Blank(s[i])
    ensures TrimStart(s) == s[a..]
  {
    if a > 0 {
      TrimStartPadded(s[1..], a - 1);
      assert s[1..][a - 1..] == s[a..];
    }
  }

  lemma {:induction false} TrimEndPadded(s: string, b: nat)
    requires 0 < b <= |s| && !Blank(s[b - 1]) && forall i :: b <= i < |s| ==> Blank(s[i])
    ensures TrimEnd(s) == s[..b]
  {
    if b < |s| {
      TrimEndPadded(s[..|s| - 1], b);
      assert s[..|s| - 1][..b] == s[..b];
    } else {
      assert s[..b] == s;
    }
  }

  lemma TrimsPadding(s: string, a: nat, b: nat)
    requires Padded(s, a, b) && Solid(s[a..b])
    ensures Normalized(s) == UpperAll(s[a..b])
  {
    assert s[a..b][0] == s[a] && s[a..b][b - a - 1] == s[b - 1];
    TrimStartPadded(s, a);
    TrimEndPadded(s[a..], b - a);
    assert s[a..][..b - a] == s[a..b];
  }

  lemma {:induction false} TrimStartFinds(s: string) returns (a: nat)
    ensures a <= |s| && TrimStart(s) == s[a..] && forall i :: 0 <= i < a ==> Blank(s[i])
  {
    if s != "" && Blank(s[0]) {
      a := TrimStartFinds(s[1..]);
      assert s[1..][a..] == s[a + 1..];
      forall i | 0 <= i < a + 1 ensures Blank(s[i]) {
        assert i > 0 ==> s[i] == s[1..][i - 1];
      }
      a := a + 1;
    } else {
      a := 0;
      assert s[0..] == s;
    }
  }

  lemma {:induction false} TrimEndFinds(s: string) returns (b: nat)
    ensures b <= |s| && TrimEnd(s) == s[..b] && forall i :: b <= i < |s| ==> Blank(s[i])
  {
    if s != "" && Blank(s[|s| - 1]) {
      var rest := s[..|s| - 1];
      b := TrimEndFinds(rest);
      assert rest[..b] == s[..b];
      forall i | b <= i < |s| ensures Blank(s[i]) {
        assert i < |rest| ==> s[i] == rest[i];
      }
    } else {
      b := |s|;
      assert s[..|s|] == s;
    }
  }

  lemma NormalizedFinds(s: string) returns (a: nat, b: nat)
    ensures Padded(s, a, b) && Normalized(s) == UpperAll(s[a..b])
  {
    a := TrimStartFinds(s);
    var rest := s[a..];
    var c := TrimEndFinds(rest);
    b := a + c;
    assert rest[..c] == s[a..b];
    forall i | b <= i < |s| ensures Blank(s[i]) {
      assert s[i] == rest[i - a];
    }
  }

  /**
   * The server reads a submitted text as a code without blanks at its ends if and only if the
   * text is that code in any case, between blanks.
   */
  lemma NormalizedExactly(s: string, code: string)
    requires Solid(code)
    ensures Normalized(s) == code <==> exists a: nat, b: nat :: Padded(s, a, b) && UpperAll(s[a..b]) == code
  {
    if Normalized(s) == code { var _, _ := NormalizedFinds(s); }
    if exists a: nat, b: nat :: Padded(s, a, b) && UpperAll(s[a..b]) == code {
      var a: nat, b: nat :| Padded(s, a, b) && UpperAll(s[a..b]) == code;
      assert code[0] == Upper(s[a..b][0]) && code[|code| - 1] == Upper(s[a..b][b - a - 1]);
      TrimsPadding(s, a, b);
    }
  }

  /** Without the script: a generated code in any case and between blanks is read as the code, and accepted. */
  lemma TypedWithoutScript(cfg: TokenConfig, part1: string, part2: string, s: string, a: nat, b: nat)
    requires Standard(cfg) && Part(cfg, part1) && Part(cfg, part2)
    requires Padded(s, a, b) && UpperAll(s[a..b]) == Code(cfg, part1, part2)
    ensures Normalized(s) == Code(cfg, part1, part2) && ValidFormat(cfg, Normalized(s))
  {
    var code := Code(cfg, part1, part2);
    CodeIsDashed(cfg, part1, part2);
    assert code[0] == cfg.prefix[0] && code[|code| - 1] == part2[|part2| - 1];
    assert part2[|part2| - 1] == (cfg.prefix + part1 + part2)[11];
    NormalizedExactly(s, code);
    RawDashed(cfg.prefix + part1 + part2);
    TypedCodeValidates(cfg, part1, part2, code);
  }

  // ---- What the formatter ignores ------------------------------------------------------------

  lemma {:induction false} RawOfSeparators(s: string)
    requires forall i :: 0 <= i < |s| ==> !Alnum(s[i])
    ensures Raw(s) == ""
  {
    if s != "" { RawOfSeparators(s[1..]); }
  }

  /** Whatever is neither a letter nor a digit may stand anywhere in the input. */
  lemma SeparatorsIgnored(a: string, separators: string, b: string)
    requires forall c :: c in separators ==> !('a' <= c <= 'z') && !('A' <= c <= 'Z') && !('0' <= c <= '9')
    ensures Format(a + separators + b) == Format(a + b)
  {
    assert Raw(a + separators + b) == Raw(a + b) by {
      forall i | 0 <= i < |separators| ensures !Alnum(separators[i]) {
        assert separators[i] in separators;
      }
      RawOfSeparators(separators);
      RawConcat(a + separators, b);
      RawConcat(a, separators);
      RawConcat(a, b);
      assert Raw(a) + "" == Raw(a);
    }
  }

  lemma {:induction false} RawOfUpperAll(s: string)
    ensures Raw(UpperAll(s)) == Raw(s)
  {
    if s != "" {
      RawOfUpperAll(s[1..]);
      assert UpperAll(s)[1..] == UpperAll(s[1..]);
    }
  }

  /** And letters may be typed in either case. */
  lemma CaseIgnored(a: string, b: string)
    requires |a| == |b| && forall i :: 0 <= i < |a| ==>
      a[i] == b[i] || ('a' <= a[i] <= 'z' && b[i] as int == a[i] as int - 32)
    ensures Format(a) == Format(b)
  {
    assert UpperAll(a) == UpperAll(b);
    RawOfUpperAll(a);
    RawOfUpperAll(b);
  }

  /** While a code of upper-case letters and digits is being typed, the input shows it with its dashes. */
  lemma FormatShows(typed: string)
    requires AllUpperAlnum(typed) && |typed| <= 12
    ensures Format(typed) ==
      if |typed| <= 4 then typed
      else if |typed| <= 8 then typed[..4] + ['-'] + typed[4..]
      else typed[..4] + ['-'] + typed[4..8] + ['-'] + typed[8..]
  {
    RawOfUpper(typed);
  }

  /** What follows the twelfth letter or digit is dropped. */
  lemma SurplusDropped(typed: string, more: string)
    requires AllUpperAlnum(typed) && |typed| == 12
    ensures Format(typed + more) == Format(typed)
  {
    RawConcat(typed, more);
    RawOfUpper(typed);
    assert (typed + Raw(more))[..12] == typed;
  }
}
