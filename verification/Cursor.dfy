/** The export's continuation token: the last (type, key) pair as a compact JSON
    array (RFC 8259, section 7, escaped down to ASCII), in base64url (RFC 4648,
    section 5). */
module Cursor {
  import opened Model

  // ----- hexadecimal code units -----

  type Digit16 = d: nat | d < 16
  type CodeUnit = u: nat | u < 0x10000

  function HexDigit(d: Digit16): char {
    if d < 10 then ('0' as int + d) as char else ('a' as int + d - 10) as char
  }

  /** Both cases are read; lower case is written. */
  function HexValue(c: char): Option<Digit16> {
    if '0' <= c <= '9' then Some(c as int - '0' as int)
    else if 'a' <= c <= 'f' then Some(c as int - 'a' as int + 10)
    else if 'A' <= c <= 'F' then Some(c as int - 'A' as int + 10)
    else None
  }

  function Hex4(u: CodeUnit): string {
    var v := u / 16;
    var w := v / 16;
    [HexDigit(w / 16), HexDigit(w % 16), HexDigit(v % 16), HexDigit(u % 16)]
  }

  function Horner(x: Digit16, y: Digit16, z: Digit16, w: Digit16): CodeUnit {
    var n: int := x;
    16 * (16 * (16 * n + y) + z) + w
  }

  function UnHex4(a: char, b: char, c: char, d: char): Option<CodeUnit> {
    match (HexValue(a), HexValue(b), HexValue(c), HexValue(d))
    case (Some(x), Some(y), Some(z), Some(w)) => Some(Horner(x, y, z, w))
    case _ => None
  }

  lemma HexDigitReads(d: Digit16)
    ensures HexValue(HexDigit(d)) == Some(d)
  {
  }

  lemma Hex4Reads(u: CodeUnit)
    ensures var h := Hex4(u); UnHex4(h[0], h[1], h[2], h[3]) == Some(u)
  {
    var v := u / 16;
    var w := v / 16;
    HexDigitReads(w / 16);
    HexDigitReads(w % 16);
    HexDigitReads(v % 16);
    HexDigitReads(u % 16);
  }

  // ----- JSON strings -----

  function Unicode(u: CodeUnit): string {
    ['\\', 'u'] + Hex4(u)
  }

  /** The two-character escapes. */
  function ShortEscape(c: char): Option<char> {
    if c == '"' then Some('"')
    else if c == '\\' then Some('\\')
    else if c == '\n' then Some('n')
    else if c == '\r' then Some('r')
    else if c == '\t' then Some('t')
    else if c == 12 as char then Some('f')
    else if c == 8 as char then Some('b')
    else None
  }

  function UnShortEscape(e: char): Option<char> {
    if e == '"' then Some('"')
    else if e == '\\' then Some('\\')
    else if e == '/' then Some('/')
    else if e == 'n' then Some('\n')
    else if e == 'r' then Some('\r')
    else if e == 't' then Some('\t')
    else if e == 'f' then Some(12 as char)
    else if e == 'b' then Some(8 as char)
    else None
  }

  function High(code: int): CodeUnit
    requires 0x10000 <= code < 0x110000
  {
    0xD800 + (code - 0x10000) / 1024
  }

  function Low(code: int): CodeUnit
    requires 0x10000 <= code < 0x110000
  {
    0xDC00 + (code - 0x10000) % 1024
  }

  function Escape(c: char): string {
    if ShortEscape(c).Some? then ['\\', ShortEscape(c).value]
    else if ' ' <= c <= '~' then [c]
    else if c as int < 0x10000 then Unicode(c as int)
    else Unicode(High(c as int)) + Unicode(Low(c as int))
  }

  function EscapeAll(s: string): string {
    if s == "" then "" else Escape(s[0]) + EscapeAll(s[1..])
  }

  function JsonPair(a: string, b: string): string {
    "[\"" + (EscapeAll(a) + "\"" + (",\"" + (EscapeAll(b) + "\"" + "]")))
  }

  predicate IsHigh(u: CodeUnit) {
    0xD800 <= u < 0xDC00
  }

  predicate IsLow(u: CodeUnit) {
    0xDC00 <= u < 0xE000
  }

  /** One `\uXXXX` at the front. */
  function ReadUnit(s: string): Option<CodeUnit> {
    if |s| >= 6 && s[0] == '\\' && s[1] == 'u' then UnHex4(s[2], s[3], s[4], s[5]) else None
  }

  /** One character at the front of a string's contents, and how much of the
      text it took. */
  function ReadChar(s: string): Option<(char, nat)>
    ensures ReadChar(s).Some? ==> 0 < ReadChar(s).value.1 <= |s|
  {
    if s == "" then None
    else if s[0] != '\\' then
      if s[0] == '"' || s[0] < ' ' || s[0] > 127 as char then None else Some((s[0], 1))
    else if |s| >= 2 && s[1] != 'u' then
      (match UnShortEscape(s[1])
       case Some(c) => Some((c, 2))
       case None => None)
    else
      match ReadUnit(s)
      case None => None
      case Some(u) =>
        if !IsHigh(u) && !IsLow(u) then Some((u as char, 6))
        else if IsLow(u) then None
        else
          match ReadUnit(s[6..])
          case Some(l) =>
            if IsLow(l) then Some(((0x10000 + 1024 * (u - 0xD800) + (l - 0xDC00)) as char, 12)) else None
          case None => None
  }

  /** A string's contents up to its closing quote, and what follows it. */
  function ReadString(s: string): Option<(string, string)>
    decreases |s|
  {
    if s != "" && s[0] == '"' then Some(("", s[1..]))
    else
      match ReadChar(s)
      case None => None
      case Some((c, k)) =>
        match ReadString(s[k..])
        case None => None
        case Some((t, rest)) => Some(([c] + t, rest))
  }

  function ReadPair(s: string): Option<(string, string)> {
    if |s| < 2 || s[..2] != "[\"" then None
    else
      match ReadString(s[2..])
      case None => None
      case Some((a, rest)) =>
        if |rest| < 2 || rest[..2] != ",\"" then None
        else
          match ReadString(rest[2..])
          case None => None
          case Some((b, end)) => if end == "]" then Some((a, b)) else None
  }

  // ----- the JSON round trip -----

  lemma UnitReads(u: CodeUnit, tail: string)
    ensures ReadUnit(Unicode(u) + tail) == Some(u)
    ensures (Unicode(u) + tail)[6..] == tail
  {
    Hex4Reads(u);
    var s := Unicode(u) + tail;
    assert s[2] == Hex4(u)[0] && s[3] == Hex4(u)[1] && s[4] == Hex4(u)[2] && s[5] == Hex4(u)[3];
  }

  lemma ShortReads(c: char)
    requires ShortEscape(c).Some?
    ensures UnShortEscape(ShortEscape(c).value) == Some(c) && ShortEscape(c).value != 'u'
  {
  }

  lemma SurrogatesJoin(code: int)
    requires 0x10000 <= code < 0x110000
    ensures IsHigh(High(code)) && IsLow(Low(code))
    ensures 0x10000 + 1024 * (High(code) - 0xD800) + (Low(code) - 0xDC00) == code
  {
  }

  lemma SurrogatesRead(s: string, h: CodeUnit, l: CodeUnit)
    requires ReadUnit(s) == Some(h) && IsHigh(h) && ReadUnit(s[6..]) == Some(l) && IsLow(l)
    ensures ReadChar(s) == Some(((0x10000 + 1024 * (h - 0xD800) + (l - 0xDC00)) as char, 12))
  {
  }

  lemma Regroup(a: string, b: string, c: string)
    ensures a + b + c == a + (b + c)
  {
  }

  lemma TwoUnitsRead(h: CodeUnit, l: CodeUnit, tail: string)
    requires IsHigh(h) && IsLow(l)
    ensures ReadChar(Unicode(h) + Unicode(l) + tail)
         == Some(((0x10000 + 1024 * (h - 0xD800) + (l - 0xDC00)) as char, 12))
  {
    UnitReads(h, Unicode(l) + tail);
    UnitReads(l, tail);
    SurrogatesRead(Unicode(h) + (Unicode(l) + tail), h, l);
    Regroup(Unicode(h), Unicode(l), tail);
  }

  lemma SurrogatesOf(c: char) returns (h: CodeUnit, l: CodeUnit)
    requires c as int >= 0x10000
    ensures IsHigh(h) && IsLow(l) && 0x10000 + 1024 * (h - 0xD800) + (l - 0xDC00) == c as int
    ensures Escape(c) == Unicode(h) + Unicode(l)
  {
    h, l := High(c as int), Low(c as int);
    SurrogatesJoin(c as int);
  }

  lemma AstralReads(c: char, tail: string)
    requires c as int >= 0x10000
    ensures ReadChar(Escape(c) + tail) == Some((c, 12)) && |Escape(c)| == 12
  {
    var h, l := SurrogatesOf(c);
    TwoUnitsRead(h, l, tail);
  }

  lemma CharReads(c: char, tail: string)
    ensures ReadChar(Escape(c) + tail) == Some((c, |Escape(c)|))
    ensures Escape(c)[0] != '"'
  {
    var s := Escape(c) + tail;
    if ShortEscape(c).Some? {
      ShortReads(c);
      assert s[0] == '\\' && s[1] == ShortEscape(c).value;
    } else if ' ' <= c <= '~' {
      assert s[0] == c;
    } else if c as int < 0x10000 {
      UnitReads(c as int, tail);
      assert s[0] == '\\' && s[1] == 'u';
    } else {
      AstralReads(c, tail);
    }
  }

  lemma Peel(front: string, back: string)
    ensures (front + back)[..|front|] == front && (front + back)[|front|..] == back
  {
  }

  lemma ReadOn(s: string, c: char, k: nat, t: string, rest: string)
    requires s != "" && s[0] != '"' && ReadChar(s) == Some((c, k))
    requires ReadString(s[k..]) == Some((t, rest))
    ensures ReadString(s) == Some(([c] + t, rest))
  {
  }

  lemma OneMoreCharReads(c: char, tail: string, t: string, rest: string)
    requires ReadString(tail) == Some((t, rest))
    ensures ReadString(Escape(c) + tail) == Some(([c] + t, rest))
  {
    CharReads(c, tail);
    Peel(Escape(c), tail);
    ReadOn(Escape(c) + tail, c, |Escape(c)|, t, rest);
  }

  lemma EscapedInFront(t: string, rest: string)
    requires t != ""
    ensures EscapeAll(t) + "\"" + rest == Escape(t[0]) + (EscapeAll(t[1..]) + "\"" + rest)
  {
  }

  lemma {:induction false} StringReads(t: string, rest: string)
    ensures ReadString(EscapeAll(t) + "\"" + rest) == Some((t, rest))
  {
    if t == "" {
      assert EscapeAll(t) + "\"" + rest == "\"" + rest;
    } else {
      StringReads(t[1..], rest);
      OneMoreCharReads(t[0], EscapeAll(t[1..]) + "\"" + rest, t[1..], rest);
      EscapedInFront(t, rest);
      assert t == [t[0]] + t[1..];
    }
  }

  lemma PairReads(a: string, b: string)
    ensures ReadPair(JsonPair(a, b)) == Some((a, b))
  {
    var second := EscapeAll(b) + "\"" + "]";
    var rest := ",\"" + second;
    Peel("[\"", EscapeAll(a) + "\"" + rest);
    StringReads(a, rest);
    Peel(",\"", second);
    StringReads(b, "]");
  }

  // ----- base64url -----

  type Byte = b: nat | b < 256
  type Sextet = v: nat | v < 64

  function Symbol(v: Sextet): char {
    if v < 26 then ('A' as int + v) as char
    else if v < 52 then ('a' as int + v - 26) as char
    else if v < 62 then ('0' as int + v - 52) as char
    else if v == 62 then '-'
    else '_'
  }

  function SymbolValue(c: char): Option<Sextet> {
    if 'A' <= c <= 'Z' then Some(c as int - 'A' as int)
    else if 'a' <= c <= 'z' then Some(c as int - 'a' as int + 26)
    else if '0' <= c <= '9' then Some(c as int - '0' as int + 52)
    else if c == '-' then Some(62)
    else if c == '_' then Some(63)
    else None
  }

  lemma SymbolReads(v: Sextet)
    ensures SymbolValue(Symbol(v)) == Some(v) && Symbol(v) != '='
  {
  }

  function First(a: Byte): Sextet { a / 4 }
  function Second(a: Byte, b: Byte): Sextet { a % 4 * 16 + b / 16 }
  function Third(b: Byte, c: Byte): Sextet { b % 16 * 4 + c / 64 }
  function Fourth(c: Byte): Sextet { c % 64 }

  function Group3(a: Byte, b: Byte, c: Byte): string {
    [Symbol(First(a)), Symbol(Second(a, b)), Symbol(Third(b, c)), Symbol(Fourth(c))]
  }

  function Group2(a: Byte, b: Byte): string {
    [Symbol(First(a)), Symbol(Second(a, b)), Symbol(Third(b, 0)), '=']
  }

  function Group1(a: Byte): string {
    [Symbol(First(a)), Symbol(Second(a, 0)), '=', '=']
  }

  function EncodeBytes(bs: seq<Byte>): string {
    if |bs| == 0 then ""
    else if |bs| == 1 then Group1(bs[0])
    else if |bs| == 2 then Group2(bs[0], bs[1])
    else Group3(bs[0], bs[1], bs[2]) + EncodeBytes(bs[3..])
  }

  function ReadGroup(p: char, q: char, r: char, s: char): Option<seq<Byte>> {
    match (SymbolValue(p), SymbolValue(q))
    case (Some(x), Some(y)) =>
      if r == '=' && s == '=' then Some([x * 4 + y / 16])
      else
        (match SymbolValue(r)
         case None => None
         case Some(z) =>
           if s == '=' then Some([x * 4 + y / 16, y % 16 * 16 + z / 4])
           else
             match SymbolValue(s)
             case None => None
             case Some(w) => Some([x * 4 + y / 16, y % 16 * 16 + z / 4, z % 4 * 64 + w]))
    case _ => None
  }

  function DecodeBytes(s: string): Option<seq<Byte>> {
    if s == "" then Some([])
    else if |s| < 4 then None
    else
      match (ReadGroup(s[0], s[1], s[2], s[3]), DecodeBytes(s[4..]))
      case (Some(g), Some(rest)) => if |g| == 3 || rest == [] then Some(g + rest) else None
      case _ => None
  }

  lemma Unpack16(hi: nat, lo: nat)
    requires lo < 16
    ensures (hi * 16 + lo) / 16 == hi && (hi * 16 + lo) % 16 == lo
  {
  }

  lemma Unpack4(hi: nat, lo: nat)
    requires lo < 4
    ensures (hi * 4 + lo) / 4 == hi && (hi * 4 + lo) % 4 == lo
  {
  }

  lemma Sextets(a: Byte, b: Byte, c: Byte)
    ensures First(a) * 4 + Second(a, b) / 16 == a
    ensures Second(a, b) % 16 * 16 + Third(b, c) / 4 == b
    ensures Third(b, c) % 4 * 64 + Fourth(c) == c
  {
    Unpack16(a % 4, b / 16);
    Unpack4(b % 16, c / 64);
  }

  lemma FourSymbols(x: Sextet, y: Sextet, z: Sextet, w: Sextet)
    ensures ReadGroup(Symbol(x), Symbol(y), Symbol(z), Symbol(w))
         == Some([x * 4 + y / 16, y % 16 * 16 + z / 4, z % 4 * 64 + w])
    ensures ReadGroup(Symbol(x), Symbol(y), Symbol(z), '=') == Some([x * 4 + y / 16, y % 16 * 16 + z / 4])
    ensures ReadGroup(Symbol(x), Symbol(y), '=', '=') == Some([x * 4 + y / 16])
  {
    SymbolReads(x);
    SymbolReads(y);
    SymbolReads(z);
    SymbolReads(w);
  }

  lemma Group3Reads(a: Byte, b: Byte, c: Byte)
    ensures var g := Group3(a, b, c); ReadGroup(g[0], g[1], g[2], g[3]) == Some([a, b, c])
  {
    Sextets(a, b, c);
    FourSymbols(First(a), Second(a, b), Third(b, c), Fourth(c));
  }

  lemma Group2Reads(a: Byte, b: Byte)
    ensures var g := Group2(a, b); ReadGroup(g[0], g[1], g[2], g[3]) == Some([a, b])
  {
    Sextets(a, b, 0);
    FourSymbols(First(a), Second(a, b), Third(b, 0), 0);
  }

  lemma Group1Reads(a: Byte)
    ensures var g := Group1(a); ReadGroup(g[0], g[1], g[2], g[3]) == Some([a])
  {
    Sextets(a, 0, 0);
    FourSymbols(First(a), Second(a, 0), 0, 0);
  }

  /** A last group of one or two bytes. */
  lemma ShortGroupRead(s: string, g: seq<Byte>)
    requires |s| == 4 && ReadGroup(s[0], s[1], s[2], s[3]) == Some(g)
    ensures DecodeBytes(s) == Some(g)
  {
    assert s[4..] == "";
    assert g + [] == g;
  }

  /** A group of four in front: its characters, and what follows them. */
  lemma Prepended(g: string, rest: string)
    requires |g| == 4
    ensures var s := g + rest;
            s[0] == g[0] && s[1] == g[1] && s[2] == g[2] && s[3] == g[3] && s[4..] == rest
  {
  }

  lemma GroupThenRest(s: string, group: seq<Byte>, rest: seq<Byte>)
    requires |s| >= 4 && ReadGroup(s[0], s[1], s[2], s[3]) == Some(group) && |group| == 3
    requires DecodeBytes(s[4..]) == Some(rest)
    ensures DecodeBytes(s) == Some(group + rest)
  {
  }

  lemma GroupInFront(g: string, text: string, group: seq<Byte>, rest: seq<Byte>)
    requires |g| == 4 && |group| == 3 && ReadGroup(g[0], g[1], g[2], g[3]) == Some(group)
    requires DecodeBytes(text) == Some(rest)
    ensures DecodeBytes(g + text) == Some(group + rest)
  {
    Prepended(g, text);
    GroupThenRest(g + text, group, rest);
  }

  lemma FirstThree(bs: seq<Byte>)
    requires |bs| > 2
    ensures bs == [bs[0], bs[1], bs[2]] + bs[3..]
  {
  }

  lemma FullGroupReads(g: string, text: string, bs: seq<Byte>)
    requires |bs| > 2 && |g| == 4 && ReadGroup(g[0], g[1], g[2], g[3]) == Some([bs[0], bs[1], bs[2]])
    requires DecodeBytes(text) == Some(bs[3..])
    ensures DecodeBytes(g + text) == Some(bs)
  {
    GroupInFront(g, text, [bs[0], bs[1], bs[2]], bs[3..]);
    FirstThree(bs);
  }

  /** The first group of a longer text, and what it reads as. */
  lemma FirstGroup(bs: seq<Byte>) returns (g: string)
    requires |bs| > 2
    ensures |g| == 4 && EncodeBytes(bs) == g + EncodeBytes(bs[3..])
    ensures ReadGroup(g[0], g[1], g[2], g[3]) == Some([bs[0], bs[1], bs[2]])
  {
    g := Group3(bs[0], bs[1], bs[2]);
    Group3Reads(bs[0], bs[1], bs[2]);
  }

  lemma {:induction false} BytesRead(bs: seq<Byte>)
    ensures DecodeBytes(EncodeBytes(bs)) == Some(bs)
  {
    if |bs| == 1 {
      Group1Reads(bs[0]);
      ShortGroupRead(EncodeBytes(bs), [bs[0]]);
      assert bs == [bs[0]];
    } else if |bs| == 2 {
      Group2Reads(bs[0], bs[1]);
      ShortGroupRead(EncodeBytes(bs), [bs[0], bs[1]]);
      assert bs == [bs[0], bs[1]];
    } else if |bs| > 2 {
      BytesRead(bs[3..]);
      var g := FirstGroup(bs);
      FullGroupReads(g, EncodeBytes(bs[3..]), bs);
    }
  }

  // ----- the cursor -----

  ghost predicate Ascii(s: string) {
    forall i :: 0 <= i < |s| ==> s[i] as int < 128
  }

  lemma UnicodeIsAscii(u: CodeUnit)
    ensures Ascii(Unicode(u))
  {
  }

  lemma EscapeIsAscii(c: char)
    ensures Ascii(Escape(c))
  {
    if c as int >= 0x10000 {
      UnicodeIsAscii(High(c as int));
      UnicodeIsAscii(Low(c as int));
      BothAscii(Unicode(High(c as int)), Unicode(Low(c as int)));
    } else if ShortEscape(c).None? && !(' ' <= c <= '~') {
      UnicodeIsAscii(c as int);
    }
  }

  lemma {:induction false} EscapedIsAscii(t: string)
    ensures Ascii(EscapeAll(t))
  {
    if t != "" {
      EscapeIsAscii(t[0]);
      EscapedIsAscii(t[1..]);
      BothAscii(Escape(t[0]), EscapeAll(t[1..]));
    }
  }

  lemma BothAscii(a: string, b: string)
    requires Ascii(a) && Ascii(b)
    ensures Ascii(a + b)
  {
  }

  lemma PairIsAscii(a: string, b: string)
    ensures Ascii(JsonPair(a, b))
  {
    EscapedIsAscii(a);
    EscapedIsAscii(b);
  }

  function Bytes(s: string): seq<Byte>
    requires Ascii(s)
  {
    seq(|s|, i requires 0 <= i < |s| => s[i] as int)
  }

  /** The bytes as text; a byte outside ASCII is not read. */
  function Text(bs: seq<Byte>): Option<string> {
    if exists i :: 0 <= i < |bs| && bs[i] >= 128 then None
    else Some(seq(|bs|, i requires 0 <= i < |bs| => bs[i] as char))
  }

  function EncodeCursor(t: Target): string {
    PairIsAscii(t.ttype, t.tkey);
    EncodeBytes(Bytes(JsonPair(t.ttype, t.tkey)))
  }

  function DecodeCursor(s: string): Option<Target> {
    match DecodeBytes(s)
    case None => None
    case Some(bs) =>
      match Text(bs)
      case None => None
      case Some(text) =>
        match ReadPair(text)
        case None => None
        case Some((a, b)) => Some(Target(a, b))
  }

  ghost predicate UrlSafe(s: string) {
    forall i :: 0 <= i < |s| ==> SymbolValue(s[i]).Some? || s[i] == '='
  }

  lemma {:induction false} EncodedIsUrlSafe(bs: seq<Byte>)
    ensures UrlSafe(EncodeBytes(bs)) && |EncodeBytes(bs)| % 4 == 0
  {
    if |bs| > 2 {
      EncodedIsUrlSafe(bs[3..]);
      var g := FirstGroupIsUrlSafe(bs);
      BothUrlSafe(g, EncodeBytes(bs[3..]));
    } else if bs != [] {
      LastGroupIsUrlSafe(bs);
    }
  }

  lemma FirstGroupIsUrlSafe(bs: seq<Byte>) returns (g: string)
    requires |bs| > 2
    ensures EncodeBytes(bs) == g + EncodeBytes(bs[3..]) && UrlSafe(g) && |g| == 4
  {
    g := Group3(bs[0], bs[1], bs[2]);
    GroupIsUrlSafe(First(bs[0]), Second(bs[0], bs[1]), Third(bs[1], bs[2]), Fourth(bs[2]));
  }

  lemma LastGroupIsUrlSafe(bs: seq<Byte>)
    requires 0 < |bs| < 3
    ensures UrlSafe(EncodeBytes(bs)) && |EncodeBytes(bs)| == 4
  {
    if |bs| == 2 {
      GroupIsUrlSafe(First(bs[0]), Second(bs[0], bs[1]), Third(bs[1], 0), 0);
    } else {
      GroupIsUrlSafe(First(bs[0]), Second(bs[0], 0), 0, 0);
    }
  }

  lemma GroupIsUrlSafe(x: Sextet, y: Sextet, z: Sextet, w: Sextet)
    ensures UrlSafe([Symbol(x), Symbol(y), Symbol(z), Symbol(w)])
    ensures UrlSafe([Symbol(x), Symbol(y), Symbol(z), '=']) && UrlSafe([Symbol(x), Symbol(y), '=', '='])
  {
    SymbolReads(x);
    SymbolReads(y);
    SymbolReads(z);
    SymbolReads(w);
  }

  lemma BothUrlSafe(a: string, b: string)
    requires UrlSafe(a) && UrlSafe(b) && |a| == 4 && |b| % 4 == 0
    ensures UrlSafe(a + b) && |a + b| % 4 == 0
  {
  }

  /** A cursor can travel in a URL unescaped: letters, digits, '-', '_' and
      padding, in whole groups of four. */
  lemma CursorIsUrlSafe(t: Target)
    ensures UrlSafe(EncodeCursor(t)) && |EncodeCursor(t)| % 4 == 0
  {
    PairIsAscii(t.ttype, t.tkey);
    EncodedIsUrlSafe(Bytes(JsonPair(t.ttype, t.tkey)));
  }

  // ----- the formats, from their own descriptions -----

  /** The number a group of four characters spells in base 64, most significant
      first, by the values of table 2 of RFC 4648. */
  ghost predicate Spells(g: string, n: nat) {
    && |g| == 4 && (forall i :: 0 <= i < 4 ==> SymbolValue(g[i]).Some?)
    && ((SymbolValue(g[0]).value as int * 64 + SymbolValue(g[1]).value) * 64 + SymbolValue(g[2]).value) * 64
       + SymbolValue(g[3]).value == n
  }

  lemma SymbolsSpell(x: Sextet, y: Sextet, z: Sextet, w: Sextet)
    ensures Spells([Symbol(x), Symbol(y), Symbol(z), Symbol(w)], ((x as int * 64 + y) * 64 + z) * 64 + w)
  {
    SymbolReads(x);
    SymbolReads(y);
    SymbolReads(z);
    SymbolReads(w);
  }

  lemma SextetsSpell(a: Byte, b: Byte, c: Byte)
    ensures ((First(a) as int * 64 + Second(a, b)) * 64 + Third(b, c)) * 64 + Fourth(c) == (a as int * 256 + b) * 256 + c
  {
    Sextets(a, b, c);
  }

  /** A group spells the 24-bit number of its three bytes. Where bytes are
      missing they count as zero, and the symbols left without a bit of the data
      are padding. */
  lemma GroupsSpellTheBytes(a: Byte, b: Byte, c: Byte)
    ensures Spells(Group3(a, b, c), (a as int * 256 + b) * 256 + c)
    ensures Group2(a, b) == Group3(a, b, 0)[..3] + "="
    ensures Group1(a) == Group3(a, 0, 0)[..2] + "=="
  {
    SextetsSpell(a, b, c);
    SymbolsSpell(First(a), Second(a, b), Third(b, c), Fourth(c));
  }

  predicate LowerHex(c: char) {
    '0' <= c <= '9' || 'a' <= c <= 'f'
  }

  /** `s` is the escape of code unit `u`: a backslash, a 'u' and the four
      lower-case hexadecimal digits of its number. */
  ghost predicate IsUnit(s: string, u: CodeUnit) {
    && |s| == 6 && s[0] == '\\' && s[1] == 'u'
    && LowerHex(s[2]) && LowerHex(s[3]) && LowerHex(s[4]) && LowerHex(s[5])
    && UnHex4(s[2], s[3], s[4], s[5]) == Some(u)
  }

  lemma HexDigitIsLower(d: Digit16)
    ensures LowerHex(HexDigit(d))
  {
  }

  lemma UnicodeIsUnit(u: CodeUnit) returns (s: string)
    ensures s == Unicode(u) && IsUnit(s, u)
  {
    var v := u / 16;
    var w := v / 16;
    HexDigitIsLower(w / 16);
    HexDigitIsLower(w % 16);
    HexDigitIsLower(v % 16);
    HexDigitIsLower(u % 16);
    Hex4Reads(u);
    s := Unicode(u);
  }

  /** Everything past '~' is written as one escaped code unit in the basic plane
      and as the two halves of a surrogate pair above it. */
  lemma PastTildeIsEscaped(c: char)
    requires c > '~'
    ensures c as int < 0x10000 ==> IsUnit(Escape(c), c as int)
    ensures c as int >= 0x10000 ==>
              |Escape(c)| == 12 &&
              exists h: CodeUnit, l: CodeUnit ::
                IsUnit(Escape(c)[..6], h) && IsUnit(Escape(c)[6..], l) && IsHigh(h) && IsLow(l)
                && 0x10000 + 1024 * (h - 0xD800) + (l - 0xDC00) == c as int
  {
    if c as int < 0x10000 {
      var s := UnicodeIsUnit(c as int);
    } else {
      var h, l := AstralIsTwoUnits(c);
    }
  }

  lemma AstralIsTwoUnits(c: char) returns (h: CodeUnit, l: CodeUnit)
    requires c as int >= 0x10000
    ensures |Escape(c)| == 12 && IsUnit(Escape(c)[..6], h) && IsUnit(Escape(c)[6..], l)
    ensures IsHigh(h) && IsLow(l) && 0x10000 + 1024 * (h - 0xD800) + (l - 0xDC00) == c as int
  {
    h, l := SurrogatesOf(c);
    var front := UnicodeIsUnit(h);
    var back := UnicodeIsUnit(l);
    Peel(front, back);
  }

  /** The controls with a letter of their own, section 7 of RFC 8259. */
  const CONTROL_LETTERS: map<char, char> :=
    map['\n' := 'n', '\r' := 'r', '\t' := 't', 12 as char := 'f', 8 as char := 'b']

  /** Up to '~', a character stands for itself unless it is a quote, a backslash
      or a control character; those five controls that have a letter use it, and
      the others are escaped code units. */
  lemma UpToTilde(c: char)
    requires c <= '~'
    ensures ' ' <= c && c != '"' && c != '\\' ==> Escape(c) == [c]
    ensures c == '"' || c == '\\' ==> Escape(c) == ['\\', c]
    ensures c < ' ' ==> if c in CONTROL_LETTERS then Escape(c) == ['\\', CONTROL_LETTERS[c]] else IsUnit(Escape(c), c as int)
  {
    if c < ' ' && ShortEscape(c).None? { var s := UnicodeIsUnit(c as int); }
  }

  /** The escapes a JSON text may hold, section 7 of RFC 8259, whoever wrote it. */
  const ESCAPES: map<char, char> :=
    map['"' := '"', '\\' := '\\', '/' := '/', 'n' := '\n', 'r' := '\r', 't' := '\t', 'f' := 12 as char, 'b' := 8 as char]

  lemma EveryEscapeReads(e: char, tail: string)
    ensures e in ESCAPES ==> ReadChar(['\\', e] + tail) == Some((ESCAPES[e], 2))
    ensures e !in ESCAPES && e != 'u' ==> ReadChar(['\\', e] + tail) == None
  {
    var s := ['\\', e] + tail;
    assert s[0] == '\\' && s[1] == e;
  }

  /** Hexadecimal digits are read in either case. */
  lemma HexReadsBothCases(d: Digit16)
    ensures d >= 10 ==> HexValue(('a' as int + d - 10) as char) == Some(d)
    ensures d >= 10 ==> HexValue(('A' as int + d - 10) as char) == Some(d)
  {
  }

  /** Half of a surrogate pair is not a character. */
  lemma LoneSurrogateIsRefused(s: string, u: CodeUnit)
    requires ReadUnit(s) == Some(u)
    ensures IsLow(u) ==> ReadChar(s) == None
    ensures IsHigh(u) && (ReadUnit(s[6..]) == None || !IsLow(ReadUnit(s[6..]).value)) ==> ReadChar(s) == None
  {
  }

  /** Every pair of strings of Unicode scalar values comes back from its cursor. */
  lemma CursorRoundTrip(t: Target)
    ensures DecodeCursor(EncodeCursor(t)) == Some(t)
  {
    var text := JsonPair(t.ttype, t.tkey);
    PairIsAscii(t.ttype, t.tkey);
    BytesRead(Bytes(text));
    TextReads(text);
    PairReads(t.ttype, t.tkey);
    CursorReads(EncodeCursor(t), Bytes(text), text, t);
  }

  lemma TextReads(s: string)
    requires Ascii(s)
    ensures Text(Bytes(s)) == Some(s)
  {
    assert Text(Bytes(s)).value == s;
  }

  lemma CursorReads(s: string, bs: seq<Byte>, text: string, t: Target)
    requires DecodeBytes(s) == Some(bs) && Text(bs) == Some(text) && ReadPair(text) == Some((t.ttype, t.tkey))
    ensures DecodeCursor(s) == Some(t)
  {
  }

  /** So two targets never share a cursor, whatever separators they contain. */
  lemma CursorsAreDistinct(t: Target, u: Target)
    ensures EncodeCursor(t) == EncodeCursor(u) ==> t == u
  {
    CursorRoundTrip(t);
    CursorRoundTrip(u);
  }
}
