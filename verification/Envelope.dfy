/** The scanner for signed catalog envelopes: it accepts exactly the printed envelopes, whatever their field
    order and whitespace, and returns the spans of the five printed values. */
module Envelope {
  import opened Wrappers
  import opened JsonScan

  const MAX_CATALOG_PAYLOAD_BYTES: nat := 8 * 1024 * 1024
  const MAX_SIGNED_CATALOG_ENVELOPE_BYTES: nat := MAX_CATALOG_PAYLOAD_BYTES + 1024
  const MAX_NON_PAYLOAD_ENVELOPE_BYTES: nat := 1024
  const MAX_TOP_LEVEL_KEY_BYTES: nat := 32
  const MAX_KEY_ID_BYTES: nat := 128
  const MAX_SIGNATURE_ALGORITHM_BYTES: nat := 16
  const ED25519_SIGNATURE_TEXT_BYTES: nat := 86

  datatype Field = EnvelopeVersion | SignatureAlgorithm | KeyId | Payload | Signature

  datatype Span = Span(start: nat, end: nat) {
    function Length(): int { end - start }
  }

  datatype SignedEnvelopeSpans = SignedEnvelopeSpans(
    envelopeVersion: Span, signatureAlgorithm: Span, keyId: Span, payload: Span, signature: Span) {
    function At(field: Field): Span {
      match field
      case EnvelopeVersion => envelopeVersion
      case SignatureAlgorithm => signatureAlgorithm
      case KeyId => keyId
      case Payload => payload
      case Signature => signature
    }
  }

  function Name(field: Field): string {
    match field
    case EnvelopeVersion => "envelope_version"
    case SignatureAlgorithm => "signature_algorithm"
    case KeyId => "key_id"
    case Payload => "payload"
    case Signature => "signature"
  }

  function Maximum(field: Field): nat {
    match field
    case EnvelopeVersion => 5
    case SignatureAlgorithm => MAX_SIGNATURE_ALGORITHM_BYTES + 2
    case KeyId => MAX_KEY_ID_BYTES + 2
    case Payload => MAX_CATALOG_PAYLOAD_BYTES
    case Signature => ED25519_SIGNATURE_TEXT_BYTES + 2
  }

  // ----- Keys

  predicate IsNameChar(c: char) { 'a' <= c <= 'z' || c == '_' }

  function NameItems(name: string): (items: seq<StringItem>)
    requires forall i | 0 <= i < |name| :: IsNameChar(name[i])
    ensures |items| == |name|
  {
    seq(|name|, i requires 0 <= i < |name| && IsNameChar(name[i]) => Plain(name[i] as int as byte))
  }

  lemma NamesAreNames(field: Field)
    ensures forall i | 0 <= i < |Name(field)| :: IsNameChar(Name(field)[i])
  {}

  /** The key with its quotes. */
  function KeyText(field: Field): seq<byte> {
    NamesAreNames(field);
    PrintString(NameItems(Name(field)))
  }

  lemma {:induction false} PlainItemsLength(items: seq<StringItem>)
    requires forall i | 0 <= i < |items| :: items[i].Plain?
    ensures |PrintItems(items)| == |items|
  {
    if items != [] { PlainItemsLength(items[1..]); }
  }

  lemma KeyLength(field: Field)
    ensures |KeyText(field)| == |Name(field)| + 2
  {
    NamesAreNames(field);
    PlainItemsLength(NameItems(Name(field)));
  }

  /** The five names have five different lengths. */
  lemma KeysDiffer(f: Field, g: Field)
    requires KeyText(f) == KeyText(g)
    ensures f == g
  {
    KeyLength(f);
    KeyLength(g);
  }

  function FieldOf(key: seq<byte>): (field: Option<Field>)
    ensures field.Some? ==> KeyText(field.value) == key
  {
    if key == KeyText(EnvelopeVersion) then Some(EnvelopeVersion)
    else if key == KeyText(SignatureAlgorithm) then Some(SignatureAlgorithm)
    else if key == KeyText(KeyId) then Some(KeyId)
    else if key == KeyText(Payload) then Some(Payload)
    else if key == KeyText(Signature) then Some(Signature)
    else None
  }

  lemma FieldOfKey(field: Field)
    ensures FieldOf(KeyText(field)) == Some(field)
  {
    hide KeyText;
    assert FieldOf(KeyText(field)).Some?;
    KeysDiffer(field, FieldOf(KeyText(field)).value);
  }

  lemma StringEndOfPrint(pre: seq<byte>, items: seq<StringItem>, rest: seq<byte>)
    requires ValidItems(items)
    ensures StringEnd(pre + PrintString(items) + rest, |pre|) == Some(|pre| + |PrintString(items)|)
  {
    hide PrintString, StringLength, ValidItems;
    StringOfPrint(items, rest);
    assert (pre + PrintString(items) + rest)[|pre|..] == PrintString(items) + rest;
  }

  lemma KeyIsString(field: Field, pre: seq<byte>, rest: seq<byte>)
    ensures StringEnd(pre + KeyText(field) + rest, |pre|) == Some(|pre| + |KeyText(field)|)
  {
    hide PrintString, StringEnd, Name;
    NamesAreNames(field);
    StringEndOfPrint(pre, NameItems(Name(field)), rest);
  }

  // ----- Whitespace

  predicate Blank(ws: seq<byte>) { forall i | 0 <= i < |ws| :: IsWhitespace(ws[i]) }

  /** The first position at `i` or later that holds no whitespace. */
  function SkipEnd(bytes: seq<byte>, i: nat): (end: nat)
    requires i <= |bytes|
    ensures i <= end <= |bytes| && Blank(bytes[i..end])
    ensures end < |bytes| ==> !IsWhitespace(bytes[end])
    decreases |bytes| - i
  {
    if i < |bytes| && IsWhitespace(bytes[i]) then
      var end := SkipEnd(bytes, i + 1);
      assert bytes[i..end] == [bytes[i]] + bytes[i + 1..end];
      end
    else i
  }

  lemma {:induction false} SkipOver(pre: seq<byte>, ws: seq<byte>, rest: seq<byte>)
    requires Blank(ws) && (rest == [] || !IsWhitespace(rest[0]))
    ensures SkipEnd(pre + ws + rest, |pre|) == |pre| + |ws|
    decreases ws
  {
    var bytes := pre + ws + rest;
    if ws != [] {
      assert bytes == (pre + [ws[0]]) + ws[1..] + rest && bytes[|pre|] == ws[0];
      SkipOver(pre + [ws[0]], ws[1..], rest);
    } else if rest != [] {
      assert bytes[|pre|] == rest[0];
    }
  }

  method SkipJsonWhitespace(bytes: seq<byte>, index: nat) returns (end: nat)
    requires index <= |bytes|
    ensures end == SkipEnd(bytes, index)
  {
    end := index;
    while end < |bytes| && IsWhitespace(bytes[end])
      invariant index <= end <= |bytes| && SkipEnd(bytes, index) == SkipEnd(bytes, end)
    {
      end := end + 1;
    }
  }

  // ----- Entries

  datatype Member = Member(field: Field, span: Span)

  predicate Holds(bytes: seq<byte>, i: nat, b: byte) { i < |bytes| && bytes[i] == b }

  /** One key, its colon and its value. */
  function ScanEntry(bytes: seq<byte>, i: nat, seen: set<Field>): (r: Option<Member>)
    requires i <= |bytes|
    ensures r.Some? ==> i < r.value.span.start < r.value.span.end <= |bytes|
  {
    match StringEnd(bytes, i)
    case None => None
    case Some(keyEnd) =>
      if keyEnd - i - 2 > MAX_TOP_LEVEL_KEY_BYTES then None
      else
        match FieldOf(bytes[i..keyEnd])
        case None => None
        case Some(field) => if field in seen then None else ScanMember(bytes, keyEnd, field)
  }

  /** What follows a key. */
  function ScanMember(bytes: seq<byte>, keyEnd: nat, field: Field): (r: Option<Member>)
    requires keyEnd <= |bytes|
    ensures r.Some? ==> r.value.field == field && keyEnd < r.value.span.start < r.value.span.end <= |bytes|
  {
    var colon := SkipEnd(bytes, keyEnd);
    if !Holds(bytes, colon, COLON) then None
    else
      var start := SkipEnd(bytes, colon + 1);
      match ValueEnd(bytes, start)
      case None => None
      case Some(end) => if end - start > Maximum(field) then None else Some(Member(field, Span(start, end)))
  }

  datatype Scanned = Scanned(fields: map<Field, Span>, end: nat)

  /** The entries and the closing brace. */
  function ScanEntries(bytes: seq<byte>, i: nat, fields: map<Field, Span>): (r: Option<Scanned>)
    requires i <= |bytes|
    ensures r.Some? ==> r.value.end <= |bytes|
    decreases |bytes| - i
  {
    var key := SkipEnd(bytes, i);
    if Holds(bytes, key, CLOSE_BRACE) then Some(Scanned(fields, key + 1))
    else
      match ScanEntry(bytes, key, fields.Keys)
      case None => None
      case Some(m) => ScanMore(bytes, SkipEnd(bytes, m.span.end), fields[m.field := m.span])
  }

  /** What follows a value. */
  function ScanMore(bytes: seq<byte>, i: nat, fields: map<Field, Span>): (r: Option<Scanned>)
    requires i <= |bytes|
    ensures r.Some? ==> r.value.end <= |bytes|
    decreases |bytes| - i
  {
    if Holds(bytes, i, COMMA) then
      if Holds(bytes, SkipEnd(bytes, i + 1), CLOSE_BRACE) then None else ScanEntries(bytes, i + 1, fields)
    else if Holds(bytes, i, CLOSE_BRACE) then Some(Scanned(fields, i + 1))
    else None
  }

  function Collect(fields: map<Field, Span>): Option<SignedEnvelopeSpans> {
    if EnvelopeVersion in fields && SignatureAlgorithm in fields && KeyId in fields && Payload in fields && Signature in fields
    then Some(SignedEnvelopeSpans(fields[EnvelopeVersion], fields[SignatureAlgorithm], fields[KeyId], fields[Payload], fields[Signature]))
    else None
  }

  /** The checks after the closing brace. */
  function Finish(bytes: seq<byte>, scanned: Scanned): Option<SignedEnvelopeSpans>
    requires scanned.end <= |bytes|
  {
    if SkipEnd(bytes, scanned.end) != |bytes| then None
    else
      match Collect(scanned.fields)
      case None => None
      case Some(spans) =>
        if |bytes| - spans.payload.Length() > MAX_NON_PAYLOAD_ENVELOPE_BYTES then None else Some(spans)
  }

  function ScanEnvelope(bytes: seq<byte>): Option<SignedEnvelopeSpans> {
    if |bytes| > MAX_SIGNED_CATALOG_ENVELOPE_BYTES then None
    else
      var open := SkipEnd(bytes, 0);
      if !Holds(bytes, open, OPEN_BRACE) then None
      else
        match ScanEntries(bytes, open + 1, map[])
        case None => None
        case Some(scanned) => Finish(bytes, scanned)
  }

  lemma SkipTwice(bytes: seq<byte>, i: nat, fields: map<Field, Span>)
    requires i <= |bytes|
    ensures ScanEntries(bytes, SkipEnd(bytes, i), fields) == ScanEntries(bytes, i, fields)
  {
    hide ScanEntry, ScanMore;
    var key := SkipEnd(bytes, i);
    assert SkipEnd(bytes, key) == key;
  }

  lemma MoreAt(bytes: seq<byte>, i: nat, fields: map<Field, Span>)
    requires i <= |bytes|
    ensures ScanMore(bytes, i, fields) ==
      if Holds(bytes, i, COMMA) then
        if Holds(bytes, SkipEnd(bytes, i + 1), CLOSE_BRACE) then None
        else ScanEntries(bytes, SkipEnd(bytes, i + 1), fields)
      else if Holds(bytes, i, CLOSE_BRACE) then Some(Scanned(fields, i + 1))
      else None
  {
    hide ScanEntries;
    if Holds(bytes, i, COMMA) { SkipTwice(bytes, i + 1, fields); }
  }

  lemma EntriesAt(bytes: seq<byte>, i: nat, fields: map<Field, Span>)
    requires i <= |bytes|
    ensures ScanEntries(bytes, i, fields) ==
      if Holds(bytes, SkipEnd(bytes, i), CLOSE_BRACE) then Some(Scanned(fields, SkipEnd(bytes, i) + 1))
      else
        match ScanEntry(bytes, SkipEnd(bytes, i), fields.Keys)
        case None => None
        case Some(m) => ScanMore(bytes, SkipEnd(bytes, m.span.end), fields[m.field := m.span])
  {}

  /** The turn of the loop from the end of a key to the end of its value. */
  method ScanAfterKey(bytes: seq<byte>, keyEnd: nat, field: Field) returns (r: Option<Member>)
    requires keyEnd <= |bytes|
    ensures r == ScanMember(bytes, keyEnd, field)
  {
    hide SkipEnd, ValueEnd, Maximum;
    var index := SkipJsonWhitespace(bytes, keyEnd);
    if !Holds(bytes, index, COLON) { return None; }
    index := SkipJsonWhitespace(bytes, index + 1);
    var valueStart := index;
    var valueEnd := ScanJsonValue(bytes, index);
    if valueEnd.None? { return None; }
    var span := Span(valueStart, valueEnd.value);
    if span.Length() > Maximum(field) { return None; }
    return Some(Member(field, span));
  }

  /** One turn of the loop from a key to the end of its value. */
  method ScanField(bytes: seq<byte>, keyStart: nat, fields: map<Field, Span>) returns (r: Option<Member>)
    requires keyStart <= |bytes|
    ensures r == ScanEntry(bytes, keyStart, fields.Keys)
  {
    hide FieldOf, StringEnd, ScanMember;
    var keyEnd := ScanJsonString(bytes, keyStart);
    if keyEnd.None? || keyEnd.value - keyStart - 2 > MAX_TOP_LEVEL_KEY_BYTES { return None; }
    var field := FieldOf(bytes[keyStart..keyEnd.value]);
    if field.None? || field.value in fields { return None; }
    r := ScanAfterKey(bytes, keyEnd.value, field.value);
  }

  method FinishEnvelope(bytes: seq<byte>, fields: map<Field, Span>, index: nat) returns (r: Option<SignedEnvelopeSpans>)
    requires index <= |bytes|
    ensures r == Finish(bytes, Scanned(fields, index))
  {
    hide SkipEnd, Collect;
    var end := SkipJsonWhitespace(bytes, index);
    if end != |bytes| { return None; }
    var spans := Collect(fields);
    if spans.None? || |bytes| - spans.value.payload.Length() > MAX_NON_PAYLOAD_ENVELOPE_BYTES { return None; }
    return spans;
  }

  /** The envelope cursor. */
  method ScanSignedEnvelope(bytes: seq<byte>) returns (r: Option<SignedEnvelopeSpans>)
    ensures r == ScanEnvelope(bytes)
  {
    hide SkipEnd, ScanEntries, ScanEntry, ScanMore, Finish;
    if |bytes| > MAX_SIGNED_CATALOG_ENVELOPE_BYTES { return None; }
    var index := SkipJsonWhitespace(bytes, 0);
    if !Holds(bytes, index, OPEN_BRACE) { return None; }
    index := index + 1;
    var fields: map<Field, Span> := map[];
    ghost var goal := ScanEntries(bytes, index, fields);
    while true
      invariant index <= |bytes|
      invariant goal == ScanEntries(bytes, index, fields)
      decreases |bytes| - index
    {
      EntriesAt(bytes, index, fields);
      index := SkipJsonWhitespace(bytes, index);
      if Holds(bytes, index, CLOSE_BRACE) {
        index := index + 1;
        break;
      }
      var entry := ScanField(bytes, index, fields);
      if entry.None? { return None; }
      fields := fields[entry.value.field := entry.value.span];
      index := SkipJsonWhitespace(bytes, entry.value.span.end);
      MoreAt(bytes, index, fields);
      if Holds(bytes, index, COMMA) {
        index := SkipJsonWhitespace(bytes, index + 1);
        if Holds(bytes, index, CLOSE_BRACE) { return None; }
      } else if Holds(bytes, index, CLOSE_BRACE) {
        index := index + 1;
        break;
      } else {
        return None;
      }
    }
    r := FinishEnvelope(bytes, fields, index);
  }

  // ----- The printed envelope

  /** How long each printed value may be. */
  function Limit(field: Field): nat {
    match field
    case EnvelopeVersion => 5
    case SignatureAlgorithm => 18
    case KeyId => 130
    case Payload => 8388608
    case Signature => 88
  }

  lemma LimitIsMaximum(field: Field)
    ensures Limit(field) == Maximum(field)
  {}

  /** One entry with its whitespace: before the key, around the colon and after the value. */
  datatype Entry = Entry(
    before: seq<byte>, field: Field, afterKey: seq<byte>, beforeValue: seq<byte>, value: Value, afterValue: seq<byte>) {
    predicate Valid() {
      && Blank(before) && Blank(afterKey) && Blank(beforeValue) && Blank(afterValue)
      && value.Valid() && |value.Print()| <= Limit(field)
    }

    function HeadText(): seq<byte> { KeyText(field) + afterKey + [COLON] + beforeValue }

    function MemberText(): seq<byte> { HeadText() + value.Print() }

    function Text(): seq<byte> { before + MemberText() + afterValue }

    /** Where the value is when the key starts at `at`. */
    function ValueSpan(at: nat): Span {
      Span(at + |HeadText()|, at + |MemberText()|)
    }
  }

  function PrintEntries(entries: seq<Entry>): seq<byte>
    requires entries != []
  {
    if |entries| == 1 then entries[0].Text() + [CLOSE_BRACE]
    else entries[0].Text() + [COMMA] + PrintEntries(entries[1..])
  }

  predicate ValidEntries(entries: seq<Entry>) { forall i | 0 <= i < |entries| :: entries[i].Valid() }

  /** No field twice, and none that has been seen. */
  predicate Fresh(entries: seq<Entry>, seen: set<Field>) {
    entries == [] || (entries[0].field !in seen && Fresh(entries[1..], seen + {entries[0].field}))
  }

  function SpansFrom(entries: seq<Entry>, at: nat, fields: map<Field, Span>): map<Field, Span> {
    if entries == [] then fields
    else
      SpansFrom(entries[1..], at + |entries[0].Text()| + 1,
                fields[entries[0].field := entries[0].ValueSpan(at + |entries[0].before|)])
  }

  datatype Layout = Layout(lead: seq<byte>, entries: seq<Entry>, trail: seq<byte>) {
    predicate Valid() {
      && Blank(lead) && Blank(trail)
      && entries != [] && ValidEntries(entries) && Fresh(entries, {})
      && Complete()
      && |Print()| <= 8389632 && |Print()| - Spans().payload.Length() <= 1024
    }

    /** Every field has an entry. */
    predicate Complete() { Collect(SpansFrom(entries, |lead| + 1, map[])).Some? }

    function Print(): seq<byte>
      requires entries != []
    {
      lead + [OPEN_BRACE] + PrintEntries(entries) + trail
    }

    function Spans(): SignedEnvelopeSpans
      requires Complete()
    {
      Collect(SpansFrom(entries, |lead| + 1, map[])).value
    }
  }

  // ----- The scanner reads what was printed

  lemma ValueEndOfPrint(pre: seq<byte>, v: Value, rest: seq<byte>)
    requires v.Valid() && v.Before(rest)
    ensures ValueEnd(pre + v.Print() + rest, |pre|) == Some(|pre| + |v.Print()|)
  {
    hide ValueLength;
    ValueOfPrint(v, rest);
    assert (pre + v.Print() + rest)[|pre|..] == v.Print() + rest;
  }

  lemma ValueFirstByte(v: Value)
    requires v.Valid()
    ensures v.Print() != [] && (v.ScalarValue? || !IsWhitespace(v.Print()[0]))
  {}

  lemma ScalarStartsDark(v: Value)
    requires v.Valid()
    ensures v.Print() != [] && !IsWhitespace(v.Print()[0])
  {
    ValueFirstByte(v);
    if v.ScalarValue? { assert !EndsScalar(v.text[0]); }
  }

  lemma MemberAt(bytes: seq<byte>, keyEnd: nat, field: Field, colon: nat, span: Span)
    requires keyEnd <= |bytes| && SkipEnd(bytes, keyEnd) == colon && Holds(bytes, colon, COLON)
    requires SkipEnd(bytes, colon + 1) == span.start && ValueEnd(bytes, span.start) == Some(span.end)
    requires span.Length() <= Maximum(field)
    ensures ScanMember(bytes, keyEnd, field) == Some(Member(field, span))
  {
    hide SkipEnd, ValueEnd, Maximum;
  }

  lemma ColonIsFound(bytes: seq<byte>, head: seq<byte>, a: seq<byte>, rest: seq<byte>)
    requires bytes == head + a + [COLON] + rest && Blank(a)
    ensures SkipEnd(bytes, |head|) == |head + a| && Holds(bytes, |head + a|, COLON)
  {
    hide SkipEnd, Blank;
    ColonIsDark();
    assert bytes == head + a + ([COLON] + rest);
    SkipOver(head, a, [COLON] + rest);
  }

  lemma ValueIsFound(bytes: seq<byte>, head: seq<byte>, b: seq<byte>, v: Value, rest: seq<byte>)
    requires bytes == head + b + v.Print() + rest && Blank(b) && v.Valid() && v.Before(rest)
    ensures SkipEnd(bytes, |head|) == |head + b|
    ensures ValueEnd(bytes, |head + b|) == Some(|head + b + v.Print()|)
  {
    hide SkipEnd, ValueEnd, Blank, IsWhitespace, Value.Valid, Value.Print, Value.Before;
    ScalarStartsDark(v);
    assert SkipEnd(bytes, |head|) == |head + b| by {
      assert bytes == head + b + (v.Print() + rest);
      SkipOver(head, b, v.Print() + rest);
    }
    ValueEndOfPrint(head + b, v, rest);
  }

  lemma MemberIsFound(key: seq<byte>, a: seq<byte>, b: seq<byte>, v: Value, rest: seq<byte>, field: Field)
    requires Blank(a) && Blank(b) && v.Valid() && v.Before(rest) && |v.Print()| <= Maximum(field)
    ensures var head := key + a + [COLON] + b;
      ScanMember(head + v.Print() + rest, |key|, field) == Some(Member(field, Span(|head|, |head + v.Print()|)))
  {
    hide SkipEnd, ValueEnd, Blank, Maximum, ScanMember, Value.Valid, Value.Print, Value.Before, Holds;
    var text := v.Print();
    var head := key + a + [COLON] + b;
    var bytes := head + text + rest;
    ColonFirst(bytes, key, a, b, text, rest);
    ColonIsFound(bytes, key, a, b + text + rest);
    ValueIsFound(bytes, key + a + [COLON], b, v, rest);
    MemberAt(bytes, |key|, field, |key + a|, Span(|head|, |head + text|));
  }

  lemma ColonFirst(bytes: seq<byte>, key: seq<byte>, a: seq<byte>, b: seq<byte>, text: seq<byte>, rest: seq<byte>)
    requires bytes == key + a + [COLON] + b + text + rest
    ensures bytes == key + a + [COLON] + (b + text + rest)
  {}

  lemma EntryAt(bytes: seq<byte>, i: nat, seen: set<Field>, keyEnd: nat, field: Field)
    requires i <= |bytes| && StringEnd(bytes, i) == Some(keyEnd) && keyEnd - i - 2 <= MAX_TOP_LEVEL_KEY_BYTES
    requires FieldOf(bytes[i..keyEnd]) == Some(field) && field !in seen
    ensures ScanEntry(bytes, i, seen) == ScanMember(bytes, keyEnd, field)
  {
    hide StringEnd, FieldOf, ScanMember;
  }

  lemma ColonIsDark()
    ensures !IsWhitespace(COLON) && !IsWhitespace(COMMA) && !IsWhitespace(CLOSE_BRACE) && !IsWhitespace(QUOTE)
  {}

  lemma KeyIsFound(pre: seq<byte>, field: Field, rest: seq<byte>, seen: set<Field>)
    requires field !in seen
    ensures ScanEntry(pre + KeyText(field) + rest, |pre|, seen)
         == ScanMember(pre + KeyText(field) + rest, |pre + KeyText(field)|, field)
  {
    hide KeyText, FieldOf, StringEnd, ScanMember, ScanEntry;
    var (bytes, key) := (pre + KeyText(field) + rest, KeyText(field));
    KeyIsString(field, pre, rest);
    KeyIsShort(field);
    FieldOfKey(field);
    assert bytes[|pre|..|pre| + |key|] == key;
    EntryAt(bytes, |pre|, seen, |pre + key|, field);
  }

  lemma MemberOfPrint(pre: seq<byte>, e: Entry, rest: seq<byte>, seen: set<Field>)
    requires e.Valid() && e.value.Before(rest) && e.field !in seen
    ensures ScanEntry(pre + e.MemberText() + rest, |pre|, seen) == Some(Member(e.field, e.ValueSpan(|pre|)))
  {
    LimitIsMaximum(e.field);
    hide KeyText, ScanEntry, ScanMember, Maximum, Limit, Blank;
    var (key, text) := (KeyText(e.field), e.value.Print());
    var after := e.afterKey + [COLON] + e.beforeValue + text + rest;
    assert pre + e.MemberText() + rest == pre + key + after;
    KeyIsFound(pre, e.field, after, seen);
    assert pre + e.MemberText() + rest == (pre + key) + e.afterKey + [COLON] + e.beforeValue + text + rest;
    MemberIsFound(pre + key, e.afterKey, e.beforeValue, e.value, rest, e.field);
  }

  lemma KeyIsShort(field: Field)
    ensures 0 < |KeyText(field)| <= MAX_TOP_LEVEL_KEY_BYTES + 2 && KeyText(field)[0] == QUOTE
  {
    KeyLength(field);
  }

  predicate EndsValue(rest: seq<byte>) { rest != [] && EndsScalar(rest[0]) }

  lemma BlankEndsValue(ws: seq<byte>, rest: seq<byte>)
    requires Blank(ws) && EndsValue(rest)
    ensures EndsValue(ws + rest)
  {
    if ws != [] { assert IsWhitespace(ws[0]) && (ws + rest)[0] == ws[0]; }
  }

  lemma StepAt(bytes: seq<byte>, i: nat, key: nat, m: Member, end: nat, fields: map<Field, Span>)
    requires i <= |bytes| && SkipEnd(bytes, i) == key && !Holds(bytes, key, CLOSE_BRACE)
    requires ScanEntry(bytes, key, fields.Keys) == Some(m)
    requires SkipEnd(bytes, m.span.end) == end
    ensures ScanEntries(bytes, i, fields) == ScanMore(bytes, end, fields[m.field := m.span])
  {
    hide ScanEntries, ScanMore, ScanEntry, SkipEnd;
    EntriesAt(bytes, i, fields);
  }

  lemma EntryPieces(pre: seq<byte>, before: seq<byte>, text: seq<byte>, after: seq<byte>, rest: seq<byte>)
    ensures pre + (before + text + after) + rest == pre + before + (text + (after + rest))
    ensures pre + (before + text + after) + rest == (pre + before) + text + (after + rest)
    ensures pre + (before + text + after) + rest == (pre + before + text) + after + rest
  {}

  lemma MemberStarts(e: Entry)
    ensures e.MemberText() != [] && e.MemberText()[0] == QUOTE
  {
    hide KeyText;
    KeyIsShort(e.field);
  }

  lemma SkipToKey(bytes: seq<byte>, pre: seq<byte>, e: Entry, rest: seq<byte>)
    requires bytes == pre + e.Text() + rest && Blank(e.before)
    ensures SkipEnd(bytes, |pre|) == |pre| + |e.before| && !Holds(bytes, |pre| + |e.before|, CLOSE_BRACE)
  {
    hide SkipEnd, Blank, Entry.MemberText;
    MemberStarts(e);
    ColonIsDark();
    EntryPieces(pre, e.before, e.MemberText(), e.afterValue, rest);
    SkipOver(pre, e.before, e.MemberText() + (e.afterValue + rest));
  }

  lemma SkipToPunctuation(bytes: seq<byte>, pre: seq<byte>, e: Entry, rest: seq<byte>)
    requires bytes == pre + e.Text() + rest && Blank(e.afterValue)
    requires rest != [] && (rest[0] == COMMA || rest[0] == CLOSE_BRACE)
    ensures SkipEnd(bytes, e.ValueSpan(|pre| + |e.before|).end) == |pre| + |e.Text()|
  {
    hide SkipEnd, Blank, Entry.MemberText, Entry.HeadText;
    ColonIsDark();
    var head := pre + e.before + e.MemberText();
    assert bytes == head + e.afterValue + rest by {
      EntryPieces(pre, e.before, e.MemberText(), e.afterValue, rest);
    }
    SkipOver(head, e.afterValue, rest);
  }

  lemma MemberOfEntry(bytes: seq<byte>, pre: seq<byte>, e: Entry, rest: seq<byte>, seen: set<Field>)
    requires bytes == pre + e.Text() + rest
    requires e.Valid() && e.field !in seen && EndsValue(rest)
    ensures ScanEntry(bytes, |pre| + |e.before|, seen) == Some(Member(e.field, e.ValueSpan(|pre| + |e.before|)))
  {
    hide ScanEntry, Entry.MemberText, Entry.ValueSpan, Blank;
    BlankEndsValue(e.afterValue, rest);
    EntryPieces(pre, e.before, e.MemberText(), e.afterValue, rest);
    MemberOfPrint(pre + e.before, e, e.afterValue + rest, seen);
  }

  /** An entry takes the scanner from the end of the last brace or comma to its own comma or closing brace. */
  lemma EntryOfPrint(bytes: seq<byte>, pre: seq<byte>, e: Entry, rest: seq<byte>, fields: map<Field, Span>)
    requires bytes == pre + e.Text() + rest
    requires e.Valid() && e.field !in fields
    requires rest != [] && (rest[0] == COMMA || rest[0] == CLOSE_BRACE)
    ensures ScanEntries(bytes, |pre|, fields)
         == ScanMore(bytes, |pre| + |e.Text()|, fields[e.field := e.ValueSpan(|pre| + |e.before|)])
    ensures !Holds(bytes, SkipEnd(bytes, |pre|), CLOSE_BRACE)
  {
    hide ScanEntries, ScanMore, ScanEntry, SkipEnd, Blank, Entry.Text, Entry.ValueSpan;
    var key := |pre| + |e.before|;
    SkipToKey(bytes, pre, e, rest);
    MemberOfEntry(bytes, pre, e, rest, fields.Keys);
    SkipToPunctuation(bytes, pre, e, rest);
    StepAt(bytes, |pre|, key, Member(e.field, e.ValueSpan(key)), |pre| + |e.Text()|, fields);
  }

  lemma TextOfMore(pre: seq<byte>, first: seq<byte>, more: seq<byte>, rest: seq<byte>)
    ensures pre + (first + [COMMA] + more) + rest == pre + first + ([COMMA] + more + rest)
    ensures pre + (first + [COMMA] + more) + rest == (pre + first + [COMMA]) + more + rest
  {}

  lemma LastEntryOfPrint(bytes: seq<byte>, pre: seq<byte>, e: Entry, rest: seq<byte>, fields: map<Field, Span>)
    requires bytes == pre + (e.Text() + [CLOSE_BRACE]) + rest
    requires e.Valid() && e.field !in fields
    ensures ScanEntries(bytes, |pre|, fields)
         == Some(Scanned(fields[e.field := e.ValueSpan(|pre| + |e.before|)], |pre| + |e.Text() + [CLOSE_BRACE]|))
    ensures !Holds(bytes, SkipEnd(bytes, |pre|), CLOSE_BRACE)
  {
    hide ScanEntries, ScanMore, SkipEnd, Entry.Text, Entry.Valid, Entry.ValueSpan;
    var (text, seen) := (e.Text(), fields[e.field := e.ValueSpan(|pre| + |e.before|)]);
    assert bytes == pre + text + ([CLOSE_BRACE] + rest);
    EntryOfPrint(bytes, pre, e, [CLOSE_BRACE] + rest, fields);
    assert Holds(bytes, |pre| + |text|, CLOSE_BRACE) && !Holds(bytes, |pre| + |text|, COMMA);
    MoreAt(bytes, |pre| + |text|, seen);
  }

  lemma FirstEntryOfPrint(
    bytes: seq<byte>, pre: seq<byte>, e: Entry, more: seq<byte>, rest: seq<byte>, fields: map<Field, Span>)
    requires bytes == pre + (e.Text() + [COMMA] + more) + rest
    requires e.Valid() && e.field !in fields
    requires !Holds(bytes, SkipEnd(bytes, |pre + e.Text() + [COMMA]|), CLOSE_BRACE)
    ensures ScanEntries(bytes, |pre|, fields) ==
      ScanEntries(bytes, |pre + e.Text() + [COMMA]|, fields[e.field := e.ValueSpan(|pre| + |e.before|)])
    ensures !Holds(bytes, SkipEnd(bytes, |pre|), CLOSE_BRACE)
  {
    hide ScanEntries, ScanMore, SkipEnd, Entry.Text, Entry.Valid, Entry.ValueSpan;
    var (text, seen) := (e.Text(), fields[e.field := e.ValueSpan(|pre| + |e.before|)]);
    TextOfMore(pre, text, more, rest);
    EntryOfPrint(bytes, pre, e, [COMMA] + more + rest, fields);
    assert Holds(bytes, |pre| + |text|, COMMA);
    MoreAt(bytes, |pre| + |text|, seen);
    SkipTwice(bytes, |pre| + |text| + 1, seen);
  }

  lemma {:induction false} EntriesOfPrint(
    bytes: seq<byte>, pre: seq<byte>, entries: seq<Entry>, rest: seq<byte>, fields: map<Field, Span>)
    requires entries != [] && bytes == pre + PrintEntries(entries) + rest
    requires ValidEntries(entries) && Fresh(entries, fields.Keys)
    ensures ScanEntries(bytes, |pre|, fields)
         == Some(Scanned(SpansFrom(entries, |pre|, fields), |pre| + |PrintEntries(entries)|))
    ensures !Holds(bytes, SkipEnd(bytes, |pre|), CLOSE_BRACE)
    decreases |entries|
  {
    hide ScanEntries, ScanMore, SkipEnd, Entry.Text, Entry.Valid, Entry.ValueSpan;
    var e := entries[0];
    if |entries| == 1 {
      LastEntryOfPrint(bytes, pre, e, rest, fields);
    } else {
      var (more, seen) := (entries[1..], fields[e.field := e.ValueSpan(|pre| + |e.before|)]);
      TextOfMore(pre, e.Text(), PrintEntries(more), rest);
      assert seen.Keys == fields.Keys + {e.field};
      EntriesOfPrint(bytes, pre + e.Text() + [COMMA], more, rest, seen);
      FirstEntryOfPrint(bytes, pre, e, PrintEntries(more), rest, fields);
    }
  }

  /** Scanning inverts printing: any field order and whitespace, and the spans are where the values were put. */
  lemma EnvelopeOfPrint(l: Layout)
    requires l.Valid()
    ensures ScanEnvelope(l.Print()) == Some(l.Spans())
  {
    hide ScanEntries, SkipEnd, Blank, PrintEntries, SpansFrom, Collect;
    var (bytes, text, brace) := (l.Print(), PrintEntries(l.entries), |l.lead|);
    assert SkipEnd(bytes, 0) == brace && Holds(bytes, brace, OPEN_BRACE) by {
      SkipToBrace(bytes, l.lead, text + l.trail);
    }
    assert ScanEntries(bytes, brace + 1, map[]) == Some(Scanned(SpansFrom(l.entries, brace + 1, map[]), brace + 1 + |text|)) by {
      var none: map<Field, Span> := map[];
      assert none.Keys == {};
      EntriesOfPrint(bytes, l.lead + [OPEN_BRACE], l.entries, l.trail, none);
    }
    assert SkipEnd(bytes, brace + 1 + |text|) == |bytes| by {
      SkipToEnd(bytes, l.lead + [OPEN_BRACE] + text, l.trail);
    }
  }

  lemma SkipToBrace(bytes: seq<byte>, lead: seq<byte>, rest: seq<byte>)
    requires bytes == lead + [OPEN_BRACE] + rest && Blank(lead)
    ensures SkipEnd(bytes, 0) == |lead| && Holds(bytes, |lead|, OPEN_BRACE)
  {
    hide SkipEnd, Blank;
    SkipOver([], lead, [OPEN_BRACE] + rest);
    assert bytes == [] + lead + ([OPEN_BRACE] + rest);
  }

  lemma SkipToEnd(bytes: seq<byte>, head: seq<byte>, trail: seq<byte>)
    requires bytes == head + trail && Blank(trail)
    ensures SkipEnd(bytes, |head|) == |bytes|
  {
    hide SkipEnd, Blank;
    SkipOver(head, trail, []);
    assert bytes == head + trail + [];
  }

  // ----- What is accepted was printed

  /** What an accepted member looks like. */
  lemma MemberHasPrint(bytes: seq<byte>, keyEnd: nat, field: Field) returns (e: Entry)
    requires keyEnd <= |bytes| && ScanMember(bytes, keyEnd, field).Some?
    ensures e.Valid() && e.field == field && e.before == [] && e.afterValue == []
    ensures var span := ScanMember(bytes, keyEnd, field).value.span;
      && bytes[keyEnd..span.start] == e.afterKey + [COLON] + e.beforeValue
      && bytes[span.start..span.end] == e.value.Print()
  {
    hide SkipEnd, ValueLength;
    var colon := SkipEnd(bytes, keyEnd);
    var span := ScanMember(bytes, keyEnd, field).value.span;
    var v := ValueHasPrint(bytes[span.start..]);
    e := Entry([], field, bytes[keyEnd..colon], bytes[colon + 1..span.start], v, []);
    assert bytes[span.start..][..span.Length()] == bytes[span.start..span.end];
    ThreeParts(bytes, keyEnd, colon, span.start);
  }

  lemma ThreeParts(bytes: seq<byte>, i: nat, j: nat, k: nat)
    requires i <= j < k <= |bytes|
    ensures bytes[i..k] == bytes[i..j] + [bytes[j]] + bytes[j + 1..k]
  {}

  lemma TwoParts(bytes: seq<byte>, i: nat, j: nat, k: nat)
    requires i <= j <= k <= |bytes|
    ensures bytes[i..k] == bytes[i..j] + bytes[j..k]
  {}

  lemma EntryHasPrint(bytes: seq<byte>, key: nat, seen: set<Field>) returns (e: Entry)
    requires key <= |bytes| && ScanEntry(bytes, key, seen).Some?
    ensures e.Valid() && e.field !in seen && e.before == [] && e.afterValue == []
    ensures var m := ScanEntry(bytes, key, seen).value;
      m == Member(e.field, e.ValueSpan(key)) && bytes[key..m.span.end] == e.MemberText()
  {
    hide SkipEnd, ValueEnd, StringEnd, KeyText, ScanMember, Blank, Value.Valid;
    var keyEnd := StringEnd(bytes, key).value;
    var field := FieldOf(bytes[key..keyEnd]).value;
    var span := ScanMember(bytes, keyEnd, field).value.span;
    e := MemberHasPrint(bytes, keyEnd, field);
    TwoParts(bytes, key, keyEnd, span.start);
    TwoParts(bytes, key, span.start, span.end);
    assert bytes[key..span.start] == e.HeadText();
  }

  lemma {:induction false} EntriesHavePrint(bytes: seq<byte>, i: nat, fields: map<Field, Span>) returns (entries: seq<Entry>)
    requires i <= |bytes| && ScanEntries(bytes, i, fields).Some?
    requires !Holds(bytes, SkipEnd(bytes, i), CLOSE_BRACE)
    ensures entries != [] && ValidEntries(entries) && Fresh(entries, fields.Keys)
    ensures var scanned := ScanEntries(bytes, i, fields).value;
      i <= scanned.end && bytes[i..scanned.end] == PrintEntries(entries) && scanned.fields == SpansFrom(entries, i, fields)
    decreases |bytes| - i
  {
    hide ScanEntries, ScanMore, ScanEntry, SkipEnd, Entry.Text, Entry.Valid, Entry.ValueSpan;
    var scanned := ScanEntries(bytes, i, fields).value;
    var e, end := FirstEntryHasPrint(bytes, i, fields);
    var seen := fields[e.field := e.ValueSpan(i + |e.before|)];
    MoreAt(bytes, end, seen);
    assert bytes[i..end + 1] == e.Text() + [bytes[end]];
    if Holds(bytes, end, COMMA) {
      SkipTwice(bytes, end + 1, seen);
      var more := EntriesHavePrint(bytes, end + 1, seen);
      entries := [e] + more;
      TwoParts(bytes, i, end + 1, scanned.end);
      assert entries[1..] == more && seen.Keys == fields.Keys + {e.field};
    } else {
      entries := [e];
      assert SpansFrom(entries, i, fields) == seen;
    }
  }

  /** The first entry, up to the comma or brace after it. */
  lemma FirstEntryHasPrint(bytes: seq<byte>, i: nat, fields: map<Field, Span>) returns (e: Entry, end: nat)
    requires i <= |bytes| && ScanEntries(bytes, i, fields).Some?
    requires !Holds(bytes, SkipEnd(bytes, i), CLOSE_BRACE)
    ensures e.Valid() && e.field !in fields
    ensures end == i + |e.Text()| < |bytes| && bytes[i..end] == e.Text()
    ensures ScanEntries(bytes, i, fields) == ScanMore(bytes, end, fields[e.field := e.ValueSpan(i + |e.before|)])
  {
    hide ScanEntries, ScanEntry, ScanMore, SkipEnd, Entry.MemberText, Entry.ValueSpan;
    EntriesAt(bytes, i, fields);
    var key := SkipEnd(bytes, i);
    var m := ScanEntry(bytes, key, fields.Keys).value;
    var bare := EntryHasPrint(bytes, key, fields.Keys);
    end := SkipEnd(bytes, m.span.end);
    e := bare.(before := bytes[i..key], afterValue := bytes[m.span.end..end]);
    SameMember(bare, e, key);
    TwoParts(bytes, i, key, m.span.end);
    TwoParts(bytes, i, m.span.end, end);
    assert bytes[i..end] == e.Text();
    assert end < |bytes| by { MoreIsThere(bytes, end, fields[m.field := m.span]); }
  }

  lemma MoreIsThere(bytes: seq<byte>, end: nat, fields: map<Field, Span>)
    requires end <= |bytes| && ScanMore(bytes, end, fields).Some?
    ensures end < |bytes|
  {
    hide ScanEntries;
  }

  lemma SameMember(e: Entry, f: Entry, key: nat)
    requires e.field == f.field && e.afterKey == f.afterKey && e.beforeValue == f.beforeValue && e.value == f.value
    ensures e.MemberText() == f.MemberText() && e.ValueSpan(key) == f.ValueSpan(key)
  {
    hide KeyText;
  }

  /** Every accepted envelope is a printed one, and its spans are where the values were put. */
  lemma EnvelopeHasLayout(bytes: seq<byte>) returns (l: Layout)
    requires ScanEnvelope(bytes).Some?
    ensures l.Valid() && l.Print() == bytes && ScanEnvelope(bytes) == Some(l.Spans())
  {
    hide ScanEntries, SkipEnd, Blank, PrintEntries, SpansFrom;
    var brace := SkipEnd(bytes, 0);
    var scanned := ScanEntries(bytes, brace + 1, map[]).value;
    var none: map<Field, Span> := map[];
    assert none.Keys == {};
    NotEmptyObject(bytes, brace + 1);
    var entries := EntriesHavePrint(bytes, brace + 1, none);
    l := Layout(bytes[..brace], entries, bytes[scanned.end..]);
    AroundEntries(bytes, brace, scanned.end);
  }

  lemma AroundEntries(bytes: seq<byte>, brace: nat, end: nat)
    requires brace < end <= |bytes|
    ensures bytes == bytes[..brace] + [bytes[brace]] + bytes[brace + 1..end] + bytes[end..]
    ensures bytes[0..brace] == bytes[..brace] && bytes[end..|bytes|] == bytes[end..]
  {}

  /** An object without entries has no spans to collect. */
  lemma NotEmptyObject(bytes: seq<byte>, i: nat)
    requires i <= |bytes| && ScanEntries(bytes, i, map[]).Some? && Collect(ScanEntries(bytes, i, map[]).value.fields).Some?
    ensures !Holds(bytes, SkipEnd(bytes, i), CLOSE_BRACE)
  {
    hide ScanEntries, ScanMore, ScanEntry, SkipEnd;
    EntriesAt(bytes, i, map[]);
  }

  ghost predicate IsPrinted(bytes: seq<byte>, spans: SignedEnvelopeSpans) {
    exists l: Layout :: l.Valid() && l.Print() == bytes && l.Spans() == spans
  }

  /** The scanner accepts the printed envelopes and nothing else. */
  lemma AcceptsExactlyThePrinted(bytes: seq<byte>, spans: SignedEnvelopeSpans)
    ensures ScanEnvelope(bytes) == Some(spans) <==> IsPrinted(bytes, spans)
  {
    hide ScanEnvelope, Layout.Print, Layout.Spans, Fresh, ValidEntries, Blank;
    if ScanEnvelope(bytes) == Some(spans) {
      var l := EnvelopeHasLayout(bytes);
    }
    if IsPrinted(bytes, spans) {
      var l: Layout :| l.Valid() && l.Print() == bytes && l.Spans() == spans;
      EnvelopeOfPrint(l);
    }
  }

  // ----- What the spans are

  /** The value span of one entry of a printed list that starts at `at`. */
  function EntrySpan(entries: seq<Entry>, at: nat, k: nat): (span: Span)
    requires k < |entries|
    ensures at <= span.start
  {
    if k == 0 then entries[0].ValueSpan(at + |entries[0].before|)
    else EntrySpan(entries[1..], at + |entries[0].Text()| + 1, k - 1)
  }

  lemma {:induction false} SeenStays(entries: seq<Entry>, at: nat, fields: map<Field, Span>, f: Field)
    requires f in fields && Fresh(entries, fields.Keys)
    ensures f in SpansFrom(entries, at, fields) && SpansFrom(entries, at, fields)[f] == fields[f]
  {
    hide Entry.Text, Entry.ValueSpan;
    if entries != [] {
      var e := entries[0];
      var seen := fields[e.field := e.ValueSpan(at + |e.before|)];
      assert seen.Keys == fields.Keys + {e.field};
      SeenStays(entries[1..], at + |e.Text()| + 1, seen, f);
    }
  }

  lemma {:induction false} FieldGetsItsEntry(entries: seq<Entry>, at: nat, fields: map<Field, Span>, k: nat)
    requires k < |entries| && Fresh(entries, fields.Keys)
    ensures var f := entries[k].field;
      f in SpansFrom(entries, at, fields) && SpansFrom(entries, at, fields)[f] == EntrySpan(entries, at, k)
  {
    hide Entry.Text, Entry.ValueSpan;
    var e := entries[0];
    var (seen, next) := (fields[e.field := e.ValueSpan(at + |e.before|)], at + |e.Text()| + 1);
    assert seen.Keys == fields.Keys + {e.field};
    if k == 0 {
      SeenStays(entries[1..], next, seen, e.field);
    } else {
      FieldGetsItsEntry(entries[1..], next, seen, k - 1);
    }
  }

  lemma {:induction false} FieldHasEntry(entries: seq<Entry>, at: nat, fields: map<Field, Span>, f: Field) returns (k: nat)
    requires f in SpansFrom(entries, at, fields) && f !in fields
    ensures k < |entries| && entries[k].field == f
  {
    hide Entry.Text, Entry.ValueSpan;
    var e := entries[0];
    if e.field == f {
      k := 0;
    } else {
      var rest := FieldHasEntry(entries[1..], at + |e.Text()| + 1, fields[e.field := e.ValueSpan(at + |e.before|)], f);
      k := rest + 1;
    }
  }

  lemma ValueSpanInText(e: Entry, head: seq<byte>, rest: seq<byte>)
    requires e.value.Valid()
    ensures var (span, bytes) := (e.ValueSpan(|head + e.before|), head + e.Text() + rest);
      span.start < span.end <= |head + e.Text()| && bytes[span.start..span.end] == e.value.Print()
  {
    hide KeyText;
    ScalarStartsDark(e.value);
    var before := head + e.before + e.HeadText();
    assert head + e.Text() + rest == before + e.value.Print() + (e.afterValue + rest);
    assert (before + e.value.Print() + (e.afterValue + rest))[|before|..|before + e.value.Print()|] == e.value.Print();
  }

  lemma {:induction false} EntrySpanInText(
    bytes: seq<byte>, pre: seq<byte>, entries: seq<Entry>, rest: seq<byte>, k: nat)
    requires k < |entries| && ValidEntries(entries) && bytes == pre + PrintEntries(entries) + rest
    ensures var span := EntrySpan(entries, |pre|, k);
      span.start < span.end <= |bytes| && bytes[span.start..span.end] == entries[k].value.Print()
    decreases k
  {
    hide Entry.Text, Entry.ValueSpan, Value.Valid, Value.Print;
    var e := entries[0];
    if k > 0 {
      TextOfMore(pre, e.Text(), PrintEntries(entries[1..]), rest);
      EntrySpanInText(bytes, pre + e.Text() + [COMMA], entries[1..], rest, k - 1);
    } else if |entries| == 1 {
      assert bytes == pre + e.Text() + ([CLOSE_BRACE] + rest);
      ValueSpanInText(e, pre, [CLOSE_BRACE] + rest);
    } else {
      TextOfMore(pre, e.Text(), PrintEntries(entries[1..]), rest);
      ValueSpanInText(e, pre, [COMMA] + PrintEntries(entries[1..]) + rest);
    }
  }

  lemma {:induction false} EntrySpansAreOrdered(entries: seq<Entry>, at: nat, j: nat, k: nat)
    requires j < k < |entries|
    ensures EntrySpan(entries, at, j).end < EntrySpan(entries, at, k).start
    decreases j
  {
    hide KeyText;
    var e := entries[0];
    if j == 0 {
      assert e.ValueSpan(at + |e.before|).end <= at + |e.Text()|;
      assert EntrySpan(entries[1..], at + |e.Text()| + 1, k - 1).start >= at + |e.Text()| + 1;
    } else {
      EntrySpansAreOrdered(entries[1..], at + |e.Text()| + 1, j - 1, k - 1);
    }
  }

  /** Each field has its own entry in an accepted envelope, and the field's span is that entry's value. */
  lemma SpanIsEntryValue(l: Layout, f: Field) returns (k: nat)
    requires l.Valid()
    ensures k < |l.entries| && l.entries[k].field == f
    ensures l.Spans().At(f) == EntrySpan(l.entries, |l.lead| + 1, k)
  {
    hide SpansFrom, ValidEntries, PrintEntries, Blank;
    var none: map<Field, Span> := map[];
    assert none.Keys == {};
    k := FieldHasEntry(l.entries, |l.lead| + 1, none, f);
    FieldGetsItsEntry(l.entries, |l.lead| + 1, none, k);
  }

  /** The span of an entry's field holds exactly the text of the value that entry printed. */
  lemma SpansHoldTheValues(l: Layout, k: nat)
    requires l.Valid() && k < |l.entries|
    ensures var span := l.Spans().At(l.entries[k].field);
      span.start < span.end <= |l.Print()| && l.Print()[span.start..span.end] == l.entries[k].value.Print()
  {
    hide SpansFrom, ValidEntries, PrintEntries, Blank, EntrySpan;
    var none: map<Field, Span> := map[];
    assert none.Keys == {};
    FieldGetsItsEntry(l.entries, |l.lead| + 1, none, k);
    EntrySpanInText(l.Print(), l.lead + [OPEN_BRACE], l.entries, l.trail, k);
  }

  /** On any accepted input the five spans are non-empty, in range and pairwise disjoint. */
  lemma AcceptedSpansAreSeparate(bytes: seq<byte>, f: Field, g: Field)
    requires ScanEnvelope(bytes).Some?
    ensures var span := ScanEnvelope(bytes).value.At(f); span.start < span.end <= |bytes|
    ensures var (a, b) := (ScanEnvelope(bytes).value.At(f), ScanEnvelope(bytes).value.At(g));
      f != g ==> a.end <= b.start || b.end <= a.start
  {
    hide ScanEnvelope, Layout.Valid, Layout.Print, EntrySpan;
    var l := EnvelopeHasLayout(bytes);
    var j := SpanIsEntryValue(l, f);
    var k := SpanIsEntryValue(l, g);
    SpansHoldTheValues(l, j);
    if j < k { EntrySpansAreOrdered(l.entries, |l.lead| + 1, j, k); }
    if k < j { EntrySpansAreOrdered(l.entries, |l.lead| + 1, k, j); }
  }

  // ----- The envelope as text

  /** The five keys with their quotes. */
  lemma KeyTexts(field: Field)
    ensures KeyText(field) ==
      match field
      case EnvelopeVersion => [QUOTE] + Ascii("envelope_version") + [QUOTE]
      case SignatureAlgorithm => [QUOTE] + Ascii("signature_algorithm") + [QUOTE]
      case KeyId => [QUOTE] + Ascii("key_id") + [QUOTE]
      case Payload => [QUOTE] + Ascii("payload") + [QUOTE]
      case Signature => [QUOTE] + Ascii("signature") + [QUOTE]
  {
    NamesAreNames(field);
    KeyIsAscii(Name(field));
  }

  lemma KeyIsAscii(name: string)
    requires forall i | 0 <= i < |name| :: IsNameChar(name[i])
    ensures PrintString(NameItems(name)) == [QUOTE] + Ascii(name) + [QUOTE]
  {
    PlainItemsPrint(NameItems(name));
    assert PrintItems(NameItems(name)) == Ascii(name);
  }

  lemma {:induction false} PlainItemsPrint(items: seq<StringItem>)
    requires forall i | 0 <= i < |items| :: items[i].Plain?
    ensures |PrintItems(items)| == |items| && forall i | 0 <= i < |items| :: PrintItems(items)[i] == items[i].b
  {
    if items != [] { PlainItemsPrint(items[1..]); }
  }

  /** The bounds of the five values and of the whole, in bytes, on any accepted input. */
  lemma AcceptedWithinBounds(bytes: seq<byte>)
    requires ScanEnvelope(bytes).Some?
    ensures var spans := ScanEnvelope(bytes).value;
      && spans.envelopeVersion.end - spans.envelopeVersion.start <= 5
      && spans.signatureAlgorithm.end - spans.signatureAlgorithm.start <= 18
      && spans.keyId.end - spans.keyId.start <= 130
      && spans.payload.end - spans.payload.start <= 8388608
      && spans.signature.end - spans.signature.start <= 88
      && |bytes| <= 8389632 && |bytes| - (spans.payload.end - spans.payload.start) <= 1024
  {
    hide ScanEntries, Layout.Complete, Layout.Spans, SpansFrom, PrintEntries;
    var l := EnvelopeHasLayout(bytes);
    forall f: Field ensures l.Spans().At(f).Length() <= Maximum(f) {
      var k := SpanIsEntryValue(l, f);
      SpansHoldTheValues(l, k);
      assert l.entries[k].Valid();
    }
    assert forall f: Field :: ScanEnvelope(bytes).value.At(f) == l.Spans().At(f);
    assert l.Spans().At(EnvelopeVersion).Length() <= 5 && l.Spans().At(SignatureAlgorithm).Length() <= 18;
    assert l.Spans().At(KeyId).Length() <= 130 && l.Spans().At(Payload).Length() <= 8388608;
    assert l.Spans().At(Signature).Length() <= 88;
  }
}
