/** The span scanners for JSON strings, compounds and values: what the cursor loops accept, and the
    grammars of the texts they accept. */
module JsonScan {
  import opened Wrappers

  newtype byte = x: int | 0 <= x < 0x100

  const QUOTE: byte := 0x22
  const BACKSLASH: byte := 0x5c
  const OPEN_BRACE: byte := 0x7b
  const CLOSE_BRACE: byte := 0x7d
  const OPEN_BRACKET: byte := 0x5b
  const CLOSE_BRACKET: byte := 0x5d
  const COMMA: byte := 0x2c
  const COLON: byte := 0x3a
  const LETTER_U: byte := 0x75

  const MAX_JSON_NESTING_DEPTH: nat := 128

  predicate IsWhitespace(b: byte) { b == 0x20 || b == 0x09 || b == 0x0d || b == 0x0a }

  predicate IsSimpleEscape(b: byte) {
    // quote, backslash, slash, b, f, n, r and t
    b == 0x22 || b == 0x5c || b == 0x2f || b == 0x62 || b == 0x66 || b == 0x6e || b == 0x72 || b == 0x74
  }

  predicate IsHexDigit(b: byte) { 0x30 <= b <= 0x39 || 0x41 <= b <= 0x46 || 0x61 <= b <= 0x66 }

  /** The bytes of ASCII text. */
  function Ascii(text: string): (bytes: seq<byte>)
    requires forall i | 0 <= i < |text| :: text[i] < 128 as char
    ensures |bytes| == |text| && forall i | 0 <= i < |text| :: bytes[i] == text[i] as int as byte
  {
    seq(|text|, i requires 0 <= i < |text| => text[i] as int as byte)
  }

  // The character classes and the punctuation of RFC 8259, written as text.

  lemma Punctuation()
    ensures Ascii("\"\\{}[]") == [QUOTE, BACKSLASH, OPEN_BRACE, CLOSE_BRACE, OPEN_BRACKET, CLOSE_BRACKET]
    ensures Ascii(",:u") == [COMMA, COLON, LETTER_U]
  {}

  lemma WhitespaceCharacters(b: byte)
    ensures IsWhitespace(b) <==> b in Ascii(" \t\r\n")
  {
    assert Ascii(" \t\r\n") == [0x20, 0x09, 0x0d, 0x0a];
  }

  lemma EscapeCharacters(b: byte)
    ensures IsSimpleEscape(b) <==> b in Ascii("\"\\/bfnrt")
  {
    assert Ascii("\"\\/bfnrt") == [0x22, 0x5c, 0x2f, 0x62, 0x66, 0x6e, 0x72, 0x74];
  }

  lemma HexDigitCharacters(b: byte)
    ensures IsHexDigit(b) <==> b in Ascii("0123456789") || b in Ascii("abcdef") || b in Ascii("ABCDEF")
  {
    assert Ascii("0123456789") == [0x30, 0x31, 0x32, 0x33, 0x34, 0x35, 0x36, 0x37, 0x38, 0x39];
    assert Ascii("abcdef") == [0x61, 0x62, 0x63, 0x64, 0x65, 0x66] && Ascii("ABCDEF") == [0x41, 0x42, 0x43, 0x44, 0x45, 0x46];
  }

  function Add(a: nat, b: Option<nat>): Option<nat> {
    match b case None => None case Some(n) => Some(a + n)
  }

  // ----- Strings

  datatype StringItem = Plain(b: byte) | Escape(b: byte) | Unicode(digits: seq<byte>) {
    predicate Valid() {
      match this
      case Plain(b) => b >= 0x20 && b != QUOTE && b != BACKSLASH
      case Escape(b) => IsSimpleEscape(b)
      case Unicode(d) => |d| == 4 && IsHexDigit(d[0]) && IsHexDigit(d[1]) && IsHexDigit(d[2]) && IsHexDigit(d[3])
    }

    function Print(): (text: seq<byte>)
      ensures text != []
    {
      match this
      case Plain(b) => [b]
      case Escape(b) => [BACKSLASH, b]
      case Unicode(d) => [BACKSLASH, LETTER_U] + d
    }
  }

  function PrintItems(items: seq<StringItem>): seq<byte> {
    if items == [] then [] else items[0].Print() + PrintItems(items[1..])
  }

  predicate ValidItems(items: seq<StringItem>) {
    forall i | 0 <= i < |items| :: items[i].Valid()
  }

  function PrintString(items: seq<StringItem>): seq<byte> {
    [QUOTE] + PrintItems(items) + [QUOTE]
  }

  /** How many bytes of a string's inside, through its closing quote, start the text. */
  function InsideLength(s: seq<byte>): (n: Option<nat>)
    ensures n.Some? ==> 0 < n.value <= |s|
  {
    if s == [] then None
    else if s[0] == QUOTE then Some(1)
    else if s[0] == BACKSLASH then
      if |s| < 2 then None
      else if IsSimpleEscape(s[1]) then Add(2, InsideLength(s[2..]))
      else if s[1] == LETTER_U && |s| >= 6
              && IsHexDigit(s[2]) && IsHexDigit(s[3]) && IsHexDigit(s[4]) && IsHexDigit(s[5])
      then Add(6, InsideLength(s[6..]))
      else None
    else if s[0] < 0x20 then None
    else Add(1, InsideLength(s[1..]))
  }

  function StringLength(s: seq<byte>): (n: Option<nat>)
    ensures n.Some? ==> 2 <= n.value <= |s|
  {
    if s == [] || s[0] != QUOTE then None else Add(1, InsideLength(s[1..]))
  }

  lemma InsideStep(item: StringItem, rest: seq<byte>)
    requires item.Valid()
    ensures InsideLength(item.Print() + rest) == Add(|item.Print()|, InsideLength(rest))
  {
    var s := item.Print() + rest;
    match item
    case Plain(b) => assert s[1..] == rest;
    case Escape(b) => assert s[2..] == rest;
    case Unicode(d) => assert s[6..] == rest && s[2..6] == d;
  }

  lemma {:induction false} InsideOfPrint(items: seq<StringItem>, rest: seq<byte>)
    requires ValidItems(items)
    ensures InsideLength(PrintItems(items) + [QUOTE] + rest) == Some(|PrintItems(items)| + 1)
  {
    var s := PrintItems(items) + [QUOTE] + rest;
    if items != [] {
      InsideOfPrint(items[1..], rest);
      InsideStep(items[0], PrintItems(items[1..]) + [QUOTE] + rest);
      assert s == items[0].Print() + (PrintItems(items[1..]) + [QUOTE] + rest);
    }
  }

  lemma StringOfPrint(items: seq<StringItem>, rest: seq<byte>)
    requires ValidItems(items)
    ensures StringLength(PrintString(items) + rest) == Some(|PrintString(items)|)
  {
    InsideOfPrint(items, rest);
    assert (PrintString(items) + rest)[1..] == PrintItems(items) + [QUOTE] + rest;
  }

  lemma {:induction false} InsideHasItems(s: seq<byte>) returns (items: seq<StringItem>)
    requires InsideLength(s).Some?
    ensures ValidItems(items) && s[..InsideLength(s).value] == PrintItems(items) + [QUOTE]
  {
    if s[0] == QUOTE {
      items := [];
    } else {
      var item := if s[0] != BACKSLASH then Plain(s[0]) else if IsSimpleEscape(s[1]) then Escape(s[1]) else Unicode(s[2..6]);
      var n := |item.Print()|;
      assert s[..n] == item.Print();
      var rest := InsideHasItems(s[n..]);
      items := [item] + rest;
      assert s[..InsideLength(s).value] == s[..n] + s[n..][..InsideLength(s[n..]).value];
    }
  }

  lemma StringHasItems(s: seq<byte>) returns (items: seq<StringItem>)
    requires StringLength(s).Some?
    ensures ValidItems(items) && s[..StringLength(s).value] == PrintString(items)
  {
    items := InsideHasItems(s[1..]);
    assert s[..StringLength(s).value] == [s[0]] + s[1..][..InsideLength(s[1..]).value];
  }

  lemma Drop(s: seq<byte>, a: nat, m: nat)
    requires a + m <= |s|
    ensures s[a..][m..] == s[a + m..]
  {}

  /** The same lengths as positions in the whole text. */
  function InsideEnd(bytes: seq<byte>, i: nat): Option<nat>
    requires i <= |bytes|
  {
    Add(i, InsideLength(bytes[i..]))
  }

  function StringEnd(bytes: seq<byte>, i: nat): (end: Option<nat>)
    requires i <= |bytes|
    ensures end.Some? ==> i + 2 <= end.value <= |bytes|
  {
    Add(i, StringLength(bytes[i..]))
  }

  lemma StringAt(bytes: seq<byte>, i: nat)
    requires i <= |bytes|
    ensures StringEnd(bytes, i) ==
      if i < |bytes| && bytes[i] == QUOTE then InsideEnd(bytes, i + 1) else None
  {
    hide InsideLength;
    if i < |bytes| { Drop(bytes, i, 1); }
  }

  lemma InsideAt(bytes: seq<byte>, i: nat)
    requires i < |bytes|
    ensures bytes[i] == QUOTE ==> InsideEnd(bytes, i) == Some(i + 1)
    ensures bytes[i] < 0x20 ==> InsideEnd(bytes, i).None?
    ensures bytes[i] >= 0x20 && bytes[i] != QUOTE && bytes[i] != BACKSLASH ==> InsideEnd(bytes, i) == InsideEnd(bytes, i + 1)
  {
    Drop(bytes, i, 1);
  }

  predicate IsUnicodeEscape(bytes: seq<byte>, i: nat) {
    i + 6 <= |bytes| && bytes[i + 1] == LETTER_U
    && IsHexDigit(bytes[i + 2]) && IsHexDigit(bytes[i + 3]) && IsHexDigit(bytes[i + 4]) && IsHexDigit(bytes[i + 5])
  }

  lemma EscapeAt(bytes: seq<byte>, i: nat)
    requires i < |bytes| && bytes[i] == BACKSLASH
    ensures i + 1 < |bytes| && IsSimpleEscape(bytes[i + 1]) ==> InsideEnd(bytes, i) == InsideEnd(bytes, i + 2)
    ensures IsUnicodeEscape(bytes, i) ==> InsideEnd(bytes, i) == InsideEnd(bytes, i + 6)
    ensures !(i + 1 < |bytes| && IsSimpleEscape(bytes[i + 1])) && !IsUnicodeEscape(bytes, i) ==> InsideEnd(bytes, i).None?
  {
    if i + 1 < |bytes| { Drop(bytes, i, 2); }
    if i + 6 <= |bytes| { Drop(bytes, i, 6); }
  }

  lemma InsideOfNothing(bytes: seq<byte>)
    ensures InsideEnd(bytes, |bytes|).None?
  {}

  /** The string cursor. */
  method ScanJsonString(bytes: seq<byte>, index: nat) returns (r: Option<nat>)
    requires index <= |bytes|
    ensures r == StringEnd(bytes, index)
  {
    hide InsideEnd, StringEnd, IsSimpleEscape, IsHexDigit;
    StringAt(bytes, index);
    if index >= |bytes| || bytes[index] != QUOTE { return None; }
    var cursor := index + 1;
    while cursor < |bytes|
      invariant cursor <= |bytes|
      invariant StringEnd(bytes, index) == InsideEnd(bytes, cursor)
      decreases |bytes| - cursor
    {
      var b := bytes[cursor];
      InsideAt(bytes, cursor);
      if b == QUOTE {
        return Some(cursor + 1);
      } else if b == BACKSLASH {
        EscapeAt(bytes, cursor);
        if cursor + 1 >= |bytes| { return None; }
        if IsSimpleEscape(bytes[cursor + 1]) {
          cursor := cursor + 2;
        } else if bytes[cursor + 1] == LETTER_U {
          if cursor + 6 > |bytes| { return None; }
          if !(IsHexDigit(bytes[cursor + 2]) && IsHexDigit(bytes[cursor + 3])
               && IsHexDigit(bytes[cursor + 4]) && IsHexDigit(bytes[cursor + 5])) {
            return None;
          }
          cursor := cursor + 6;
        } else {
          return None;
        }
      } else if b < 0x20 {
        return None;
      } else {
        cursor := cursor + 1;
      }
    }
    InsideOfNothing(bytes);
    r := None;
  }

  // ----- Compounds: bracket groups with strings in them

  datatype Token = Other(b: byte) | Text(items: seq<StringItem>) | Group(square: bool, inner: seq<Token>)

  function Opener(square: bool): byte { if square then OPEN_BRACKET else OPEN_BRACE }
  function Closer(square: bool): byte { if square then CLOSE_BRACKET else CLOSE_BRACE }

  predicate IsBracket(b: byte) {
    b == OPEN_BRACE || b == OPEN_BRACKET || b == CLOSE_BRACE || b == CLOSE_BRACKET
  }

  function PrintToken(t: Token): (text: seq<byte>)
    ensures text != []
  {
    match t
    case Other(b) => [b]
    case Text(items) => PrintString(items)
    case Group(square, inner) => [Opener(square)] + PrintTokens(inner) + [Closer(square)]
  }

  function PrintTokens(ts: seq<Token>): seq<byte> {
    if ts == [] then [] else PrintToken(ts[0]) + PrintTokens(ts[1..])
  }

  /** Well formed, with at most `depth` groups inside one another. */
  predicate ValidToken(t: Token, depth: nat) {
    match t
    case Other(b) => b != QUOTE && !IsBracket(b)
    case Text(items) => ValidItems(items)
    case Group(_, inner) => depth > 0 && ValidTokens(inner, depth - 1)
  }

  predicate ValidTokens(ts: seq<Token>, depth: nat) {
    ts == [] || (ValidToken(ts[0], depth) && ValidTokens(ts[1..], depth))
  }

  /** How many bytes the loop reads until its stack of closers is empty. */
  function Walk(s: seq<byte>, closers: seq<byte>): (n: Option<nat>)
    requires closers != []
    ensures n.Some? ==> 0 < n.value <= |s|
    decreases |s|
  {
    if s == [] then None
    else if s[0] == QUOTE then
      match StringLength(s)
      case None => None
      case Some(k) => Add(k, Walk(s[k..], closers))
    else if s[0] == OPEN_BRACE || s[0] == OPEN_BRACKET then
      if |closers| == MAX_JSON_NESTING_DEPTH then None
      else Add(1, Walk(s[1..], closers + [Closer(s[0] == OPEN_BRACKET)]))
    else if s[0] == CLOSE_BRACE || s[0] == CLOSE_BRACKET then
      if closers[|closers| - 1] != s[0] then None
      else if |closers| == 1 then Some(1)
      else Add(1, Walk(s[1..], closers[..|closers| - 1]))
    else Add(1, Walk(s[1..], closers))
  }

  function CompoundLength(s: seq<byte>): (n: Option<nat>)
    ensures n.Some? ==> 2 <= n.value <= |s|
  {
    if s == [] || !(s[0] == OPEN_BRACE || s[0] == OPEN_BRACKET) then None
    else Add(1, Walk(s[1..], [Closer(s[0] == OPEN_BRACKET)]))
  }

  lemma WalkOpen(square: bool, tail: seq<byte>, closers: seq<byte>)
    requires closers != [] && |closers| < MAX_JSON_NESTING_DEPTH
    ensures Walk([Opener(square)] + tail, closers) == Add(1, Walk(tail, closers + [Closer(square)]))
  {
    assert ([Opener(square)] + tail)[1..] == tail;
  }

  lemma WalkClose(square: bool, tail: seq<byte>, closers: seq<byte>)
    requires closers != []
    ensures Walk([Closer(square)] + tail, closers + [Closer(square)]) == Add(1, Walk(tail, closers))
  {
    assert ([Closer(square)] + tail)[1..] == tail && |closers + [Closer(square)]| > 1;
    assert (closers + [Closer(square)])[..|closers|] == closers;
  }

  lemma WalkText(items: seq<StringItem>, tail: seq<byte>, closers: seq<byte>)
    requires closers != [] && ValidItems(items)
    ensures Walk(PrintString(items) + tail, closers) == Add(|PrintString(items)|, Walk(tail, closers))
  {
    hide StringLength, ValidItems, PrintItems;
    StringOfPrint(items, tail);
    assert (PrintString(items) + tail)[|PrintString(items)|..] == tail;
  }

  lemma WalkOther(b: byte, tail: seq<byte>, closers: seq<byte>)
    requires closers != [] && b != QUOTE && !IsBracket(b)
    ensures Walk([b] + tail, closers) == Add(1, Walk(tail, closers))
  {
    assert ([b] + tail)[1..] == tail;
  }

  /** Complete tokens do not change the stack. */
  lemma {:induction false} WalkOverToken(t: Token, rest: seq<byte>, closers: seq<byte>)
    requires closers != [] && |closers| <= MAX_JSON_NESTING_DEPTH
    requires ValidToken(t, MAX_JSON_NESTING_DEPTH - |closers|)
    ensures Walk(PrintToken(t) + rest, closers) == Add(|PrintToken(t)|, Walk(rest, closers))
    decreases t, 0
  {
    hide Walk, PrintTokens, PrintString;
    match t
    case Other(b) => WalkOther(b, rest, closers);
    case Text(items) => WalkText(items, rest, closers);
    case Group(square, inner) =>
      var (inside, after) := (closers + [Closer(square)], [Closer(square)] + rest);
      WalkOpen(square, PrintTokens(inner) + after, closers);
      WalkOverTokens(inner, after, inside);
      WalkClose(square, rest, closers);
      GroupText(square, PrintTokens(inner), rest);
  }

  lemma GroupText(square: bool, inner: seq<byte>, rest: seq<byte>)
    ensures [Opener(square)] + inner + [Closer(square)] + rest == [Opener(square)] + (inner + ([Closer(square)] + rest))
  {}

  lemma {:induction false} WalkOverTokens(ts: seq<Token>, rest: seq<byte>, closers: seq<byte>)
    requires closers != [] && |closers| <= MAX_JSON_NESTING_DEPTH
    requires ValidTokens(ts, MAX_JSON_NESTING_DEPTH - |closers|)
    ensures Walk(PrintTokens(ts) + rest, closers) == Add(|PrintTokens(ts)|, Walk(rest, closers))
    decreases ts, 1
  {
    if ts == [] {
      assert PrintTokens(ts) + rest == rest;
    } else {
      var more := PrintTokens(ts[1..]) + rest;
      assert PrintTokens(ts) + rest == PrintToken(ts[0]) + more;
      WalkOverToken(ts[0], more, closers);
      WalkOverTokens(ts[1..], rest, closers);
    }
  }

  /** A printed group is scanned to its end, whatever follows it. */
  lemma CompoundOfPrint(t: Token, rest: seq<byte>)
    requires t.Group? && ValidToken(t, MAX_JSON_NESTING_DEPTH)
    ensures CompoundLength(PrintToken(t) + rest) == Some(|PrintToken(t)|)
  {
    var (s, closers, after) := (PrintToken(t) + rest, [Closer(t.square)], [Closer(t.square)] + rest);
    assert s[1..] == PrintTokens(t.inner) + after;
    WalkOverTokens(t.inner, after, closers);
  }

  lemma Cut(s: seq<byte>, a: nat, m: nat)
    requires a + m <= |s|
    ensures s[a..][m..] == s[a + m..]
    ensures s[..a + m] == s[..a] + s[a..][..m]
  {}

  lemma TokenFirst(t: Token, ts: seq<Token>, last: seq<byte>)
    ensures PrintTokens([t] + ts) + last == PrintToken(t) + (PrintTokens(ts) + last)
  {
    assert ([t] + ts)[1..] == ts;
  }

  lemma ValidFirst(t: Token, ts: seq<Token>, depth: nat)
    requires ValidToken(t, depth) && ValidTokens(ts, depth)
    ensures ValidTokens([t] + ts, depth)
  {
    assert ([t] + ts)[1..] == ts;
  }

  /** The first token of a walk, when the next byte does not close the innermost level. */
  lemma WalkHasToken(s: seq<byte>, closers: seq<byte>) returns (t: Token)
    requires closers != [] && |closers| <= MAX_JSON_NESTING_DEPTH
    requires Walk(s, closers).Some? && s[0] != CLOSE_BRACE && s[0] != CLOSE_BRACKET
    ensures ValidToken(t, MAX_JSON_NESTING_DEPTH - |closers|)
    ensures PrintToken(t) <= s && |PrintToken(t)| < |s|
    ensures Walk(s, closers) == Add(|PrintToken(t)|, Walk(s[|PrintToken(t)|..], closers))
    decreases |s|, 1
  {
    if s[0] == QUOTE {
      hide InsideLength, PrintString, ValidItems;
      var items := StringHasItems(s);
      t := Text(items);
    } else if s[0] == OPEN_BRACE || s[0] == OPEN_BRACKET {
      t := WalkHasGroup(s, closers);
    } else {
      t := Other(s[0]);
    }
  }

  lemma WalkOpens(s: seq<byte>, closers: seq<byte>)
    requires closers != [] && |closers| <= MAX_JSON_NESTING_DEPTH
    requires Walk(s, closers).Some? && (s[0] == OPEN_BRACE || s[0] == OPEN_BRACKET)
    ensures |closers| < MAX_JSON_NESTING_DEPTH
    ensures Walk(s, closers) == Add(1, Walk(s[1..], closers + [Closer(s[0] == OPEN_BRACKET)]))
  {}

  lemma WalkHasGroup(s: seq<byte>, closers: seq<byte>) returns (t: Token)
    requires closers != [] && |closers| <= MAX_JSON_NESTING_DEPTH
    requires Walk(s, closers).Some? && (s[0] == OPEN_BRACE || s[0] == OPEN_BRACKET)
    ensures ValidToken(t, MAX_JSON_NESTING_DEPTH - |closers|)
    ensures PrintToken(t) <= s && |PrintToken(t)| < |s|
    ensures Walk(s, closers) == Add(|PrintToken(t)|, Walk(s[|PrintToken(t)|..], closers))
    decreases |s|, 0
  {
    hide Walk, PrintTokens, ValidTokens;
    var square := s[0] == OPEN_BRACKET;
    var (inside, rest) := (closers + [Closer(square)], s[1..]);
    WalkOpens(s, closers);
    var inner, m := WalkHasTokens(rest, inside);
    t := Group(square, inner);
    assert inside[..|inside| - 1] == closers;
    Cut(s, 1, m);
    assert s[..1] == [Opener(square)];
    assert PrintToken(t) == [Opener(square)] + (PrintTokens(inner) + [Closer(square)]);
    assert s[..1 + m] == PrintToken(t);
    assert Walk(rest[m..], closers).Some?;
  }

  /** A walk reads the tokens of the innermost level, its closer, and then walks on one level out. */
  lemma {:induction false} WalkHasTokens(s: seq<byte>, closers: seq<byte>) returns (ts: seq<Token>, m: nat)
    requires closers != [] && |closers| <= MAX_JSON_NESTING_DEPTH
    requires Walk(s, closers).Some?
    ensures 0 < m <= |s| && ValidTokens(ts, MAX_JSON_NESTING_DEPTH - |closers|)
    ensures s[..m] == PrintTokens(ts) + [closers[|closers| - 1]]
    ensures Walk(s, closers) == if |closers| == 1 then Some(m) else Add(m, Walk(s[m..], closers[..|closers| - 1]))
    decreases |s|, 2
  {
    if s[0] == CLOSE_BRACE || s[0] == CLOSE_BRACKET {
      ts, m := [], 1;
    } else {
      var t := WalkHasToken(s, closers);
      ts, m := WalkHasMore(s, closers, t);
    }
  }

  lemma {:induction false} WalkHasMore(s: seq<byte>, closers: seq<byte>, t: Token) returns (ts: seq<Token>, m: nat)
    requires closers != [] && |closers| <= MAX_JSON_NESTING_DEPTH
    requires ValidToken(t, MAX_JSON_NESTING_DEPTH - |closers|)
    requires PrintToken(t) <= s && |PrintToken(t)| < |s|
    requires Walk(s[|PrintToken(t)|..], closers).Some?
    requires Walk(s, closers) == Add(|PrintToken(t)|, Walk(s[|PrintToken(t)|..], closers))
    ensures 0 < m <= |s| && ValidTokens(ts, MAX_JSON_NESTING_DEPTH - |closers|)
    ensures s[..m] == PrintTokens(ts) + [closers[|closers| - 1]]
    ensures Walk(s, closers) == if |closers| == 1 then Some(m) else Add(m, Walk(s[m..], closers[..|closers| - 1]))
    decreases |s|, 0
  {
    hide Walk, PrintToken, PrintTokens, ValidToken, ValidTokens;
    var k := |PrintToken(t)|;
    var more, n := WalkHasTokens(s[k..], closers);
    ts, m := [t] + more, k + n;
    Cut(s, k, n);
    ValidFirst(t, more, MAX_JSON_NESTING_DEPTH - |closers|);
    TokenFirst(t, more, [closers[|closers| - 1]]);
  }

  /** What the compound scanner accepts starts with a printed group, and ends where that group ends. */
  lemma CompoundHasGroup(s: seq<byte>) returns (t: Token)
    requires CompoundLength(s).Some?
    ensures t.Group? && ValidToken(t, MAX_JSON_NESTING_DEPTH)
    ensures s[..CompoundLength(s).value] == PrintToken(t)
  {
    var square := s[0] == OPEN_BRACKET;
    var inner, m := WalkHasTokens(s[1..], [Closer(square)]);
    t := Group(square, inner);
    Cut(s, 1, m);
  }

  /** A compound span is a balanced group of depth at most 128, and no other prefix of the text is one. */
  lemma CompoundIsTheBalancedPrefix(s: seq<byte>, n: nat)
    requires n <= |s|
    ensures CompoundLength(s) == Some(n)
       <==> exists t: Token :: t.Group? && ValidToken(t, MAX_JSON_NESTING_DEPTH) && PrintToken(t) == s[..n]
  {
    if CompoundLength(s) == Some(n) {
      var t := CompoundHasGroup(s);
    }
    if t: Token :| t.Group? && ValidToken(t, MAX_JSON_NESTING_DEPTH) && PrintToken(t) == s[..n] {
      CompoundOfPrint(t, s[n..]);
      assert s[..n] + s[n..] == s;
    }
  }

  function WalkEnd(bytes: seq<byte>, i: nat, closers: seq<byte>): Option<nat>
    requires i <= |bytes| && closers != []
  {
    Add(i, Walk(bytes[i..], closers))
  }

  function CompoundEnd(bytes: seq<byte>, i: nat): (end: Option<nat>)
    requires i <= |bytes|
    ensures end.Some? ==> i + 2 <= end.value <= |bytes|
  {
    Add(i, CompoundLength(bytes[i..]))
  }

  lemma CompoundAt(bytes: seq<byte>, i: nat)
    requires i < |bytes|
    ensures CompoundEnd(bytes, i) ==
      if bytes[i] == OPEN_BRACE || bytes[i] == OPEN_BRACKET
      then WalkEnd(bytes, i + 1, [Closer(bytes[i] == OPEN_BRACKET)])
      else None
  {
    hide Walk;
    Drop(bytes, i, 1);
  }

  lemma WalkAt(bytes: seq<byte>, i: nat, closers: seq<byte>)
    requires i < |bytes| && closers != []
    ensures bytes[i] == OPEN_BRACE || bytes[i] == OPEN_BRACKET ==>
      WalkEnd(bytes, i, closers) ==
        if |closers| == MAX_JSON_NESTING_DEPTH then None
        else WalkEnd(bytes, i + 1, closers + [Closer(bytes[i] == OPEN_BRACKET)])
    ensures bytes[i] == CLOSE_BRACE || bytes[i] == CLOSE_BRACKET ==>
      WalkEnd(bytes, i, closers) ==
        if closers[|closers| - 1] != bytes[i] then None
        else if |closers| == 1 then Some(i + 1)
        else WalkEnd(bytes, i + 1, closers[..|closers| - 1])
    ensures bytes[i] != QUOTE && !IsBracket(bytes[i]) ==>
      WalkEnd(bytes, i, closers) == WalkEnd(bytes, i + 1, closers)
  {
    Drop(bytes, i, 1);
  }

  lemma WalkOverString(bytes: seq<byte>, i: nat, closers: seq<byte>)
    requires i < |bytes| && closers != [] && bytes[i] == QUOTE
    ensures WalkEnd(bytes, i, closers) ==
      match StringEnd(bytes, i)
      case None => None
      case Some(end) => WalkEnd(bytes, end, closers)
  {
    hide StringLength;
    var length := StringLength(bytes[i..]);
    if length.Some? { Drop(bytes, i, length.value); }
  }

  lemma WalkOfNothing(bytes: seq<byte>, closers: seq<byte>)
    requires closers != []
    ensures WalkEnd(bytes, |bytes|, closers).None?
  {}

  /** The compound cursor with its stack of closers. */
  method ScanJsonCompound(bytes: seq<byte>, index: nat) returns (r: Option<nat>)
    requires index < |bytes|
    ensures r == CompoundEnd(bytes, index)
  {
    hide WalkEnd, StringEnd, CompoundEnd;
    CompoundAt(bytes, index);
    var closers: seq<byte>;
    if bytes[index] == OPEN_BRACE {
      closers := [CLOSE_BRACE];
    } else if bytes[index] == OPEN_BRACKET {
      closers := [CLOSE_BRACKET];
    } else {
      return None;
    }
    var cursor := index + 1;
    while cursor < |bytes|
      invariant index < cursor <= |bytes| && closers != []
      invariant CompoundEnd(bytes, index) == WalkEnd(bytes, cursor, closers)
      decreases |bytes| - cursor
    {
      var b := bytes[cursor];
      WalkAt(bytes, cursor, closers);
      if b == QUOTE {
        WalkOverString(bytes, cursor, closers);
        var end := ScanJsonString(bytes, cursor);
        if end.None? { return None; }
        cursor := end.value;
      } else if b == OPEN_BRACE || b == OPEN_BRACKET {
        if |closers| == MAX_JSON_NESTING_DEPTH { return None; }
        closers := closers + [if b == OPEN_BRACE then CLOSE_BRACE else CLOSE_BRACKET];
        cursor := cursor + 1;
      } else if b == CLOSE_BRACE || b == CLOSE_BRACKET {
        var popped := closers[|closers| - 1];
        closers := closers[..|closers| - 1];
        if popped != b { return None; }
        cursor := cursor + 1;
        if closers == [] { return Some(cursor); }
      } else {
        cursor := cursor + 1;
      }
    }
    WalkOfNothing(bytes, closers);
    r := None;
  }

  // ----- Values

  datatype Value = StringValue(items: seq<StringItem>) | CompoundValue(group: Token) | ScalarValue(text: seq<byte>) {
    predicate Valid() {
      match this
      case StringValue(items) => ValidItems(items)
      case CompoundValue(t) => t.Group? && ValidToken(t, MAX_JSON_NESTING_DEPTH)
      case ScalarValue(text) =>
        text != [] && text[0] != QUOTE && text[0] != OPEN_BRACE && text[0] != OPEN_BRACKET
        && forall i | 0 <= i < |text| :: !EndsScalar(text[i])
    }

    function Print(): seq<byte> {
      match this
      case StringValue(items) => PrintString(items)
      case CompoundValue(t) => PrintToken(t)
      case ScalarValue(text) => text
    }

    /** A scalar goes on to the next byte that ends it; strings and groups end themselves. */
    predicate Before(rest: seq<byte>) {
      ScalarValue? && rest != [] ==> EndsScalar(rest[0])
    }
  }

  predicate EndsScalar(b: byte) { IsWhitespace(b) || b == COMMA || b == CLOSE_BRACE }

  function UntilScalarEnd(s: seq<byte>): (n: nat)
    ensures n <= |s|
    ensures forall i | 0 <= i < n :: !EndsScalar(s[i])
    ensures n < |s| ==> EndsScalar(s[n])
  {
    if s == [] || EndsScalar(s[0]) then 0 else 1 + UntilScalarEnd(s[1..])
  }

  function ValueLength(s: seq<byte>): (n: Option<nat>)
    ensures n.Some? ==> 0 < n.value <= |s|
  {
    if s == [] then None
    else if s[0] == QUOTE then StringLength(s)
    else if s[0] == OPEN_BRACE || s[0] == OPEN_BRACKET then CompoundLength(s)
    else if UntilScalarEnd(s) == 0 then None
    else Some(UntilScalarEnd(s))
  }

  lemma {:induction false} ScalarOfPrint(text: seq<byte>, rest: seq<byte>)
    requires forall i | 0 <= i < |text| :: !EndsScalar(text[i])
    requires rest != [] ==> EndsScalar(rest[0])
    ensures UntilScalarEnd(text + rest) == |text|
  {
    if text == [] {
      assert text + rest == rest;
    } else {
      assert (text + rest)[1..] == text[1..] + rest;
      ScalarOfPrint(text[1..], rest);
    }
  }

  lemma ValueOfPrint(v: Value, rest: seq<byte>)
    requires v.Valid() && v.Before(rest)
    ensures ValueLength(v.Print() + rest) == Some(|v.Print()|)
  {
    var s := v.Print() + rest;
    match v
    case StringValue(items) => StringOfPrint(items, rest);
    case CompoundValue(t) => CompoundOfPrint(t, rest);
    case ScalarValue(text) =>
      ScalarOfPrint(text, rest);
  }

  lemma ValueHasPrint(s: seq<byte>) returns (v: Value)
    requires ValueLength(s).Some?
    ensures v.Valid() && v.Print() == s[..ValueLength(s).value] && v.Before(s[ValueLength(s).value..])
  {
    if s[0] == QUOTE {
      var items := StringHasItems(s);
      v := StringValue(items);
    } else if s[0] == OPEN_BRACE || s[0] == OPEN_BRACKET {
      var t := CompoundHasGroup(s);
      v := CompoundValue(t);
    } else {
      v := ScalarValue(s[..UntilScalarEnd(s)]);
    }
  }

  function ValueEnd(bytes: seq<byte>, i: nat): (end: Option<nat>)
    requires i <= |bytes|
    ensures end.Some? ==> i < end.value <= |bytes|
  {
    Add(i, ValueLength(bytes[i..]))
  }

  method ScanJsonValue(bytes: seq<byte>, index: nat) returns (r: Option<nat>)
    requires index <= |bytes|
    ensures r == ValueEnd(bytes, index)
  {
    hide StringLength, CompoundLength;
    if index == |bytes| { return None; }
    if bytes[index] == QUOTE {
      r := ScanJsonString(bytes, index);
    } else if bytes[index] == OPEN_BRACE || bytes[index] == OPEN_BRACKET {
      r := ScanJsonCompound(bytes, index);
    } else {
      var end := index;
      ghost var s := bytes[index..];
      while end < |bytes| && !EndsScalar(bytes[end])
        invariant index <= end <= index + UntilScalarEnd(s)
      {
        assert bytes[end] == s[end - index];
        end := end + 1;
      }
      assert end < |bytes| ==> bytes[end] == s[end - index];
      r := if end > index then Some(end) else None;
    }
  }
}
