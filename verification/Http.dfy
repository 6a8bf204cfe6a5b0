/** The HTTP responses: how they are printed, and a parser of the message format of RFC 9112 that
    reads them back. */
module Http {
  import opened Prelude
  import opened Octets

  datatype Field = Field(name: seq<Octet>, value: seq<Octet>)

  datatype Response = Response(statusCode: nat, statusText: seq<Octet>, headers: seq<Field>, body: seq<Octet>) {

    static function New(statusCode: nat, statusText: seq<Octet>): Response {
      Response(statusCode, statusText, [], [])
    }

    function Header(name: seq<Octet>, value: seq<Octet>): Response {
      this.(headers := headers + [Field(name, value)])
    }

    function Body(content: seq<Octet>, contentType: seq<Octet>): Response {
      this.(body := content)
      .Header(Ascii("Content-Type"), contentType)
      .Header(Ascii("Content-Length"), Decimal(|content|))
    }
  }

  /** Decimal digits, as `{}` prints an unsigned number. */
  function Decimal(n: nat): (d: seq<Octet>)
    ensures d != []
    ensures forall i :: 0 <= i < |d| ==> IsDigit(d[i])
  {
    if n < 10 then [48 + n] else Decimal(n / 10) + [48 + n % 10]
  }

  predicate IsDigit(b: Octet) {
    48 <= b <= 57
  }

  const CRLF: seq<Octet> := [CR, LF]
  const SP: Octet := 32
  const HTAB: Octet := 9
  const COLON: Octet := 58

  // ---- Printing ----

  function StatusLine(r: Response): seq<Octet> {
    Ascii("HTTP/1.1 ") + Decimal(r.statusCode) + [SP] + r.statusText
  }

  function FieldLine(f: Field): seq<Octet> {
    f.name + [COLON, SP] + f.value
  }

  function FieldLines(fields: seq<Field>): seq<Octet> {
    if fields == [] then [] else FieldLine(fields[0]) + CRLF + FieldLines(fields[1..])
  }

  /** The body that is really sent: nothing if it is not valid UTF-8. */
  function SentBody(r: Response): seq<Octet> {
    if IsUtf8(r.body) then r.body else []
  }

  function Serialized(r: Response): seq<Octet> {
    StatusLine(r) + CRLF + (FieldLines(r.headers) + CRLF + SentBody(r))
  }

  lemma {:induction false} FieldLinesAppend(fields: seq<Field>, f: Field)
    ensures FieldLines(fields + [f]) == FieldLines(fields) + (FieldLine(f) + CRLF)
  {
    if fields == [] {
      assert FieldLines([f]) == FieldLine(f) + CRLF + FieldLines([]);
    } else {
      assert (fields + [f])[1..] == fields[1..] + [f];
      FieldLinesAppend(fields[1..], f);
    }
  }

  lemma {:induction false} FieldLinesConcat(a: seq<Field>, b: seq<Field>)
    ensures FieldLines(a + b) == FieldLines(a) + FieldLines(b)
  {
    if a == [] {
      assert a + b == b;
    } else {
      assert (a + b)[1..] == a[1..] + b;
      FieldLinesConcat(a[1..], b);
      Associate(FieldLine(a[0]) + CRLF, FieldLines(a[1..]), FieldLines(b));
    }
  }

  /** The text of a response around any one of its header fields. */
  lemma WrittenForm(r: Response, before: seq<Field>, f: Field, after: seq<Field>)
    requires r.headers == before + [f] + after
    ensures Serialized(r) ==
            Ascii("HTTP/1.1 ") + Decimal(r.statusCode) + Ascii(" ") + r.statusText + Ascii("\r\n") +
            (FieldLines(before) + (f.name + Ascii(": ") + f.value + Ascii("\r\n")) + FieldLines(after) +
             Ascii("\r\n") + SentBody(r))
  {
    FieldLinesConcat(before + [f], after);
    FieldLinesConcat(before, [f]);
    assert FieldLines([f]) == FieldLine(f) + CRLF + FieldLines([]);
    assert Ascii("\r\n") == CRLF && Ascii(" ") == [SP] && Ascii(": ") == [COLON, SP];
    assert FieldLine(f) + CRLF + [] == FieldLine(f) + CRLF;
  }

  /** Without any field, the empty line follows the status line at once. */
  lemma WrittenBare(r: Response)
    requires r.headers == []
    ensures Serialized(r) ==
            Ascii("HTTP/1.1 ") + Decimal(r.statusCode) + Ascii(" ") + r.statusText + Ascii("\r\n") +
            (Ascii("\r\n") + SentBody(r))
  {
    assert Ascii("\r\n") == CRLF && Ascii(" ") == [SP];
    assert [] + CRLF + SentBody(r) == CRLF + SentBody(r);
  }

  method Serialize(r: Response) returns (response: seq<Octet>)
    ensures response == Serialized(r)
  {
    var head := StatusLine(r) + CRLF;
    var rest: seq<Octet> := [];
    response := head;
    for i := 0 to |r.headers|
      invariant rest == FieldLines(r.headers[..i])
      invariant response == head + rest
    {
      assert r.headers[..i + 1] == r.headers[..i] + [r.headers[i]];
      FieldLinesAppend(r.headers[..i], r.headers[i]);
      Associate(head, rest, FieldLine(r.headers[i]) + CRLF);
      rest := rest + (FieldLine(r.headers[i]) + CRLF);
      response := response + (FieldLine(r.headers[i]) + CRLF);
    }
    assert r.headers[..|r.headers|] == r.headers;
    response := response + CRLF;
    Associate(head, rest, CRLF);
    rest := rest + CRLF;
    if r.body != [] {
      if IsUtf8(r.body) {
        Associate(head, rest, r.body);
        rest := rest + r.body;
        response := response + r.body;
      } else {
        assert rest + [] == rest;
      }
    } else {
      assert rest + [] == rest;
    }
  }

  // ---- Parsing, by sections 2.1, 4, 5, 6 and 7.1 of RFC 9112 ----

  datatype Message = Message(statusCode: nat, reason: seq<Octet>, fields: seq<Field>, body: seq<Octet>)

  /** The position of the first CR LF, or the length. */
  function FindCrlf(s: seq<Octet>): (i: nat)
    ensures i <= |s|
  {
    if |s| < 2 then |s|
    else if s[0] == CR && s[1] == LF then 0
    else 1 + FindCrlf(s[1..])
  }

  function ParseDecimal(s: seq<Octet>): Option<nat> {
    if s == [] then None
    else
      var last := s[|s| - 1];
      if !IsDigit(last) then None
      else if |s| == 1 then Some(last - 48)
      else
        var front := ParseDecimal(s[..|s| - 1]);
        if front.Some? then Some(front.value * 10 + (last - 48)) else None
  }

  /** status-line = HTTP-version SP status-code SP [ reason-phrase ] */
  function ParseStatusLine(line: seq<Octet>): Option<(nat, seq<Octet>)> {
    if |line| < 13 || line[..9] != Ascii("HTTP/1.1 ") || line[12] != SP then None
    else
      var code := ParseDecimal(line[9..12]);
      if code.Some? then Some((code.value, line[13..])) else None
  }

  predicate IsBlank(b: Octet) {
    b == SP || b == HTAB
  }

  function TrimBlanksStart(s: seq<Octet>): seq<Octet> {
    if s != [] && IsBlank(s[0]) then TrimBlanksStart(s[1..]) else s
  }

  function TrimBlanksEnd(s: seq<Octet>): seq<Octet> {
    if s != [] && IsBlank(s[|s| - 1]) then TrimBlanksEnd(s[..|s| - 1]) else s
  }

  /** field-line = field-name ":" OWS field-value OWS */
  function ParseField(line: seq<Octet>): Option<Field> {
    var c := IndexOf(line, COLON);
    if c == 0 || c == |line| || (exists i :: 0 <= i < c && IsBlank(line[i])) then None
    else Some(Field(line[..c], TrimBlanksEnd(TrimBlanksStart(line[c + 1..]))))
  }

  /** The field lines up to the empty line, and what follows it. */
  function ParseFields(s: seq<Octet>): Option<(seq<Field>, seq<Octet>)>
    decreases |s|
  {
    var i := FindCrlf(s);
    if i + 2 > |s| then None
    else if i == 0 then Some(([], s[2..]))
    else
      var field, rest := ParseField(s[..i]), ParseFields(s[i + 2..]);
      if field.Some? && rest.Some? then Some(([field.value] + rest.value.0, rest.value.1)) else None
  }

  function Lower(b: Octet): Octet {
    if 65 <= b <= 90 then b + 32 else b
  }

  /** Names and codings are compared without regard to case. */
  predicate SameToken(a: seq<Octet>, b: seq<Octet>) {
    |a| == |b| && forall i :: 0 <= i < |a| ==> Lower(a[i]) == Lower(b[i])
  }

  const CONTENT_LENGTH: seq<Octet> := Ascii("Content-Length")
  const TRANSFER_ENCODING: seq<Octet> := Ascii("Transfer-Encoding")
  const CHUNKED: seq<Octet> := Ascii("chunked")
  const COMMA: Octet := 44

  /** The elements of a comma-separated list, without the empty ones (section 5.6.1 of RFC 9110). */
  function ListItems(value: seq<Octet>): seq<seq<Octet>>
    decreases |value|
  {
    var c := IndexOf(value, COMMA);
    var item := TrimBlanksEnd(TrimBlanksStart(value[..c]));
    (if item == [] then [] else [item]) + if c < |value| then ListItems(value[c + 1..]) else []
  }

  predicate HasField(fields: seq<Field>, name: seq<Octet>) {
    exists i :: 0 <= i < |fields| && SameToken(fields[i].name, name)
  }

  /** The elements of all the fields of that name. */
  function Items(fields: seq<Field>, name: seq<Octet>): seq<seq<Octet>> {
    if fields == [] then []
    else (if SameToken(fields[0].name, name) then ListItems(fields[0].value) else []) + Items(fields[1..], name)
  }

  function HexDigit(b: Octet): Option<nat> {
    if IsDigit(b) then Some(b - 48)
    else if 97 <= Lower(b) <= 102 then Some(Lower(b) - 87)
    else None
  }

  function ParseHex(s: seq<Octet>): Option<nat> {
    if s == [] then None
    else
      var last := HexDigit(s[|s| - 1]);
      if last.None? then None
      else if |s| == 1 then last
      else
        var front := ParseHex(s[..|s| - 1]);
        if front.Some? then Some(front.value * 16 + last.value) else None
  }

  const SEMICOLON: Octet := 59

  /** The chunked transfer coding (section 7.1 of RFC 9112): chunks, each with its size in front,
      then an empty one and the trailer. */
  function ParseChunked(s: seq<Octet>): Option<seq<Octet>>
    decreases |s|
  {
    var i := FindCrlf(s);
    if i + 2 > |s| then None
    else
      var size := ParseHex(TrimBlanksEnd(s[..IndexOf(s[..i], SEMICOLON)]));
      if size.None? then None
      else if size.value == 0 then if ParseFields(s[i + 2..]).Some? then Some([]) else None
      else
        var end := i + 2 + size.value;
        if end + 2 > |s| || s[end..end + 2] != CRLF then None
        else
          var rest := ParseChunked(s[end + 2..]);
          if rest.Some? then Some(s[i + 2..end] + rest.value) else None
  }

  /** Responses with these status codes end at the empty line, whatever their fields say. */
  predicate Bodiless(statusCode: nat) {
    100 <= statusCode <= 199 || statusCode == 204 || statusCode == 304
  }

  /** Is chunked the last of these transfer codings? */
  predicate EndsChunked(codings: seq<seq<Octet>>) {
    codings != [] && SameToken(codings[|codings| - 1], CHUNKED)
  }

  /** The length that these elements of Content-Length fields agree on. */
  function AgreedLength(lengths: seq<seq<Octet>>): Option<nat> {
    if lengths == [] || (exists i :: 0 <= i < |lengths| && ParseDecimal(lengths[i]) != ParseDecimal(lengths[0]))
    then None
    else ParseDecimal(lengths[0])
  }

  /** The body of a response to a request other than HEAD or CONNECT, by section 6.3 of RFC 9112. */
  function ParseBody(statusCode: nat, fields: seq<Field>, s: seq<Octet>): Option<seq<Octet>> {
    if Bodiless(statusCode) then Some([])
    else if HasField(fields, TRANSFER_ENCODING) then
      if EndsChunked(Items(fields, TRANSFER_ENCODING)) then ParseChunked(s) else Some(s)
    else if !HasField(fields, CONTENT_LENGTH) then Some(s)
    else
      var n := AgreedLength(Items(fields, CONTENT_LENGTH));
      if n.Some? && n.value <= |s| then Some(s[..n.value]) else None
  }

  function ParseMessage(s: seq<Octet>): Option<Message> {
    var i := FindCrlf(s);
    if i + 2 > |s| then None
    else
      var status, fields := ParseStatusLine(s[..i]), ParseFields(s[i + 2..]);
      if status.None? || fields.None? then None
      else
        var body := ParseBody(status.value.0, fields.value.0, fields.value.1);
        if body.None? then None
        else Some(Message(status.value.0, status.value.1, fields.value.0, body.value))
  }

  // ---- The round trip ----

  predicate NoLineBreak(s: seq<Octet>) {
    forall i :: 0 <= i < |s| ==> s[i] != CR && s[i] != LF
  }

  predicate WellFormedField(f: Field) {
    && f.name != [] && NoLineBreak(f.name) && NoLineBreak(f.value)
    && (forall i :: 0 <= i < |f.name| ==> f.name[i] != COLON && !IsBlank(f.name[i]))
    && (f.value != [] ==> !IsBlank(f.value[0]) && !IsBlank(f.value[|f.value| - 1]))
  }

  predicate WellFormed(r: Response) {
    && NoLineBreak(r.statusText)
    && forall i :: 0 <= i < |r.headers| ==> WellFormedField(r.headers[i])
  }

  predicate ThreeDigits(statusCode: nat) {
    100 <= statusCode <= 999
  }

  /** Do the status and the fields of a response tell a reader where its body ends? */
  predicate Framed(r: Response) {
    if Bodiless(r.statusCode) then r.body == []
    else if HasField(r.headers, TRANSFER_ENCODING) then !EndsChunked(Items(r.headers, TRANSFER_ENCODING))
    else HasField(r.headers, CONTENT_LENGTH) ==> AgreedLength(Items(r.headers, CONTENT_LENGTH)) == Some(|r.body|)
  }

  /** Does a reader go by the length that is declared? */
  predicate ByLength(r: Response) {
    && !Bodiless(r.statusCode)
    && !HasField(r.headers, TRANSFER_ENCODING)
    && HasField(r.headers, CONTENT_LENGTH)
  }

  lemma {:induction false} DecimalRoundTrip(n: nat)
    ensures ParseDecimal(Decimal(n)) == Some(n)
  {
    if n >= 10 {
      DecimalRoundTrip(n / 10);
      var d := Decimal(n);
      assert d[..|d| - 1] == Decimal(n / 10);
    }
  }

  /** A number is printed without leading zeros. */
  lemma {:induction false} DecimalLeads(n: nat)
    ensures Decimal(n)[0] == 48 ==> n == 0 && Decimal(n) == [48]
  {
    if n >= 10 {
      DecimalLeads(n / 10);
      assert Decimal(n)[0] == Decimal(n / 10)[0];
    }
  }

  lemma DigitCount(n: nat)
    ensures |Decimal(n)| == 3 <==> ThreeDigits(n)
  {
    if 10 <= n {
      assert |Decimal(n)| == |Decimal(n / 10)| + 1;
      if 10 <= n / 10 {
        assert |Decimal(n / 10)| == |Decimal(n / 10 / 10)| + 1;
      }
    }
  }

  lemma {:induction false} OnlyDigitsParse(s: seq<Octet>, i: nat)
    requires ParseDecimal(s).Some? && i < |s|
    ensures IsDigit(s[i])
  {
    if i < |s| - 1 {
      OnlyDigitsParse(s[..|s| - 1], i);
    }
  }

  lemma {:induction false} CrlfAfterLine(line: seq<Octet>, rest: seq<Octet>)
    requires NoLineBreak(line)
    ensures FindCrlf(line + CRLF + rest) == |line|
    ensures (line + CRLF + rest)[..|line|] == line
    ensures (line + CRLF + rest)[|line| + 2..] == rest
  {
    var s := line + CRLF + rest;
    if line != [] {
      assert s[0] == line[0] != CR;
      assert s[1..] == line[1..] + CRLF + rest;
      CrlfAfterLine(line[1..], rest);
    }
  }

  lemma StatusLineRoundTrip(r: Response)
    requires WellFormed(r)
    ensures NoLineBreak(StatusLine(r))
    ensures ParseStatusLine(StatusLine(r)) ==
            if ThreeDigits(r.statusCode) then Some((r.statusCode, r.statusText)) else None
  {
    var line, d := StatusLine(r), Decimal(r.statusCode);
    DigitCount(r.statusCode);
    assert forall i :: 0 <= i < |d| ==> line[9 + i] == d[i] && IsDigit(d[i]);
    assert line[9 + |d|] == SP;
    assert line[..9] == Ascii("HTTP/1.1 ");
    if ThreeDigits(r.statusCode) {
      DecimalRoundTrip(r.statusCode);
      assert line[9..12] == d;
      assert line[13..] == r.statusText;
    } else if |d| < 3 && |line| >= 13 {
      assert line[9..12][|d|] == SP;
      if ParseDecimal(line[9..12]).Some? {
        OnlyDigitsParse(line[9..12], |d|);
      }
    }
  }

  lemma FieldRoundTrip(f: Field)
    requires WellFormedField(f)
    ensures FieldLine(f) != [] && NoLineBreak(FieldLine(f))
    ensures ParseField(FieldLine(f)) == Some(f)
  {
    var line := FieldLine(f);
    var c := |f.name|;
    assert line[c] == COLON;
    assert forall i :: 0 <= i < c ==> line[i] == f.name[i];
    IndexOfUnique(line, COLON, c);
    assert line[..c] == f.name;
    assert line[c + 1..] == [SP] + f.value;
    assert ([SP] + f.value)[1..] == f.value;
    assert TrimBlanksStart([SP] + f.value) == f.value;
  }

  lemma FieldsStep(line: seq<Octet>, tail: seq<Octet>)
    requires line != [] && NoLineBreak(line)
    requires ParseField(line).Some? && ParseFields(tail).Some?
    ensures ParseFields(line + CRLF + tail) ==
            Some(([ParseField(line).value] + ParseFields(tail).value.0, ParseFields(tail).value.1))
  {
    CrlfAfterLine(line, tail);
  }

  lemma NoFields(rest: seq<Octet>)
    ensures ParseFields(CRLF + rest) == Some(([], rest))
  {
    assert (CRLF + rest)[0] == CR && (CRLF + rest)[1] == LF;
    assert (CRLF + rest)[2..] == rest;
  }

  lemma FieldLinesSplit(fields: seq<Field>, rest: seq<Octet>)
    requires fields != []
    ensures FieldLines(fields) + CRLF + rest ==
            FieldLine(fields[0]) + CRLF + (FieldLines(fields[1..]) + CRLF + rest)
  {
    var line, lines := FieldLine(fields[0]) + CRLF, FieldLines(fields[1..]);
    Associate(line, lines, CRLF + rest);
    Associate(lines, CRLF, rest);
    Associate(line + lines, CRLF, rest);
  }

  lemma {:induction false} FieldsRoundTrip(fields: seq<Field>, rest: seq<Octet>)
    requires forall i :: 0 <= i < |fields| ==> WellFormedField(fields[i])
    ensures ParseFields(FieldLines(fields) + CRLF + rest) == Some((fields, rest))
  {
    if fields == [] {
      NoFields(rest);
      assert [] + CRLF + rest == CRLF + rest;
    } else {
      FieldLinesSplit(fields, rest);
      FieldRoundTrip(fields[0]);
      FieldsRoundTrip(fields[1..], rest);
      FieldsStep(FieldLine(fields[0]), FieldLines(fields[1..]) + CRLF + rest);
      assert [fields[0]] + fields[1..] == fields;
    }
  }

  /** Decoding chunks always yields less than there was. */
  lemma {:induction false} ChunkedShrinks(s: seq<Octet>)
    ensures ParseChunked(s).Some? ==> |ParseChunked(s).value| < |s|
    decreases |s|
  {
    if ParseChunked(s).Some? && ParseChunked(s).value != [] {
      var i := FindCrlf(s);
      var size := ParseHex(TrimBlanksEnd(s[..IndexOf(s[..i], SEMICOLON)]));
      ChunkedShrinks(s[i + 2 + size.value + 2..]);
    }
  }

  /** What is sent is read back as the body exactly if the reader can tell where it ends and it is
      the body. */
  lemma BodyReadBackIff(r: Response)
    ensures ParseBody(r.statusCode, r.headers, SentBody(r)) == Some(r.body) <==> Framed(r) && IsUtf8(r.body)
    ensures ByLength(r) && Framed(r) && !IsUtf8(r.body) ==>
              ParseBody(r.statusCode, r.headers, SentBody(r)) == None
  {
    ChunkedShrinks(SentBody(r));
    assert r.body[..|r.body|] == r.body;
  }

  /** Reading a well-formed response back, all but its body is found as it was. */
  lemma HeadRoundTrip(r: Response)
    requires WellFormed(r)
    ensures var body := ParseBody(r.statusCode, r.headers, SentBody(r));
            ParseMessage(Serialized(r)) ==
            if body.None? || !ThreeDigits(r.statusCode) then None
            else Some(Message(r.statusCode, r.statusText, r.headers, body.value))
  {
    StatusLineRoundTrip(r);
    FieldsRoundTrip(r.headers, SentBody(r));
    CrlfAfterLine(StatusLine(r), FieldLines(r.headers) + CRLF + SentBody(r));
  }

  ghost predicate ReadsBack(r: Response) {
    ParseMessage(Serialized(r)) == Some(Message(r.statusCode, r.statusText, r.headers, r.body))
  }

  /** HTTP response round trip: reading a well-formed response back yields its status, its headers in
      order and its body, if and only if the status has three digits, status and headers frame the
      body, and the body is valid UTF-8. */
  lemma ResponseRoundTripIff(r: Response)
    requires WellFormed(r)
    ensures ReadsBack(r) <==> ThreeDigits(r.statusCode) && Framed(r) && IsUtf8(r.body)
    ensures ByLength(r) && Framed(r) && !IsUtf8(r.body) ==> ParseMessage(Serialized(r)) == None
  {
    HeadRoundTrip(r);
    BodyReadBackIff(r);
  }

  lemma LengthFieldWellFormed(n: nat)
    ensures WellFormedField(LengthField(n))
  {
    var d := Decimal(n);
    assert IsDigit(d[0]) && IsDigit(d[|d| - 1]);
    assert forall i :: 0 <= i < |d| ==> IsDigit(d[i]);
  }

  lemma DecimalItems(n: nat)
    ensures ListItems(Decimal(n)) == [Decimal(n)]
  {
    var d := Decimal(n);
    assert IsDigit(d[0]) && IsDigit(d[|d| - 1]);
    assert forall i :: 0 <= i < |d| ==> IsDigit(d[i]);
    assert IndexOf(d, COMMA) == |d|;
    assert d[..|d|] == d;
  }

  lemma {:induction false} HasFieldConcat(a: seq<Field>, b: seq<Field>, name: seq<Octet>)
    ensures HasField(a + b, name) <==> HasField(a, name) || HasField(b, name)
  {
    if i :| 0 <= i < |a| && SameToken(a[i].name, name) {
      assert (a + b)[i] == a[i];
    }
    if i :| 0 <= i < |b| && SameToken(b[i].name, name) {
      assert (a + b)[|a| + i] == b[i];
    }
  }

  lemma {:induction false} ItemsConcat(a: seq<Field>, b: seq<Field>, name: seq<Octet>)
    ensures Items(a + b, name) == Items(a, name) + Items(b, name)
  {
    if a == [] {
      assert a + b == b;
    } else {
      assert (a + b)[1..] == a[1..] + b;
      ItemsConcat(a[1..], b, name);
    }
  }

  lemma {:induction false} NoItems(fields: seq<Field>, name: seq<Octet>)
    requires !HasField(fields, name)
    ensures Items(fields, name) == []
  {
    if fields != [] {
      assert !HasField(fields[1..], name) by {
        HasFieldConcat([fields[0]], fields[1..], name);
        assert [fields[0]] + fields[1..] == fields;
      }
      NoItems(fields[1..], name);
    }
  }

  function TypeField(contentType: seq<Octet>): Field {
    Field(Ascii("Content-Type"), contentType)
  }

  function LengthField(n: nat): Field {
    Field(CONTENT_LENGTH, Decimal(n))
  }

  /** The two fields that `body()` adds. */
  function BodyFields(content: seq<Octet>, contentType: seq<Octet>): seq<Field> {
    [TypeField(contentType)] + [LengthField(|content|)]
  }

  lemma OtherName(f: Field, name: seq<Octet>)
    requires |f.name| != |name|
    ensures !HasField([f], name) && Items([f], name) == []
  {
    NoItems([f], name);
  }

  lemma LengthFieldItems(n: nat)
    ensures HasField([LengthField(n)], CONTENT_LENGTH)
    ensures Items([LengthField(n)], CONTENT_LENGTH) == [Decimal(n)]
  {
    var f := LengthField(n);
    assert SameToken([f][0].name, CONTENT_LENGTH);
    DecimalItems(n);
    assert Items([f], CONTENT_LENGTH) == ListItems(f.value) + Items([], CONTENT_LENGTH);
  }

  lemma BodyFieldsFacts(content: seq<Octet>, contentType: seq<Octet>)
    ensures !HasField(BodyFields(content, contentType), TRANSFER_ENCODING)
    ensures HasField(BodyFields(content, contentType), CONTENT_LENGTH)
    ensures Items(BodyFields(content, contentType), CONTENT_LENGTH) == [Decimal(|content|)]
  {
    var first, second := [TypeField(contentType)], [LengthField(|content|)];
    OtherName(first[0], TRANSFER_ENCODING);
    OtherName(first[0], CONTENT_LENGTH);
    OtherName(second[0], TRANSFER_ENCODING);
    LengthFieldItems(|content|);
    HasFieldConcat(first, second, TRANSFER_ENCODING);
    HasFieldConcat(first, second, CONTENT_LENGTH);
    ItemsConcat(first, second, CONTENT_LENGTH);
    assert [] + [Decimal(|content|)] == [Decimal(|content|)];
  }

  /** `body()` adds the length of the body to those that are declared, and touches nothing else that
      frames it. */
  lemma BodyDeclaresLength(r: Response, content: seq<Octet>, contentType: seq<Octet>)
    ensures var b := r.Body(content, contentType);
            && HasField(b.headers, CONTENT_LENGTH)
            && Items(b.headers, CONTENT_LENGTH) == Items(r.headers, CONTENT_LENGTH) + [Decimal(|content|)]
            && (HasField(b.headers, TRANSFER_ENCODING) <==> HasField(r.headers, TRANSFER_ENCODING))
            && Items(b.headers, TRANSFER_ENCODING) == Items(r.headers, TRANSFER_ENCODING)
            && |SentBody(b)| == if IsUtf8(content) then |content| else 0
  {
    var fields := BodyFields(content, contentType);
    var b := r.Body(content, contentType);
    assert b.headers == r.headers + fields;
    BodyFieldsFacts(content, contentType);
    HasFieldConcat(r.headers, fields, CONTENT_LENGTH);
    HasFieldConcat(r.headers, fields, TRANSFER_ENCODING);
    ItemsConcat(r.headers, fields, CONTENT_LENGTH);
    ItemsConcat(r.headers, fields, TRANSFER_ENCODING);
    NoItems(fields, TRANSFER_ENCODING);
    assert Items(r.headers, TRANSFER_ENCODING) + [] == Items(r.headers, TRANSFER_ENCODING);
  }

  /** Do these lengths, declared before, agree with the length of the body? */
  predicate Agree(lengths: seq<seq<Octet>>, n: nat) {
    forall i :: 0 <= i < |lengths| ==> ParseDecimal(lengths[i]) == Some(n)
  }

  lemma AgreedWithLast(lengths: seq<seq<Octet>>, n: nat)
    ensures AgreedLength(lengths + [Decimal(n)]) == Some(n) <==> Agree(lengths, n)
  {
    var all := lengths + [Decimal(n)];
    DecimalRoundTrip(n);
    assert all[|lengths|] == Decimal(n);
    assert forall i :: 0 <= i < |lengths| ==> all[i] == lengths[i];
  }

  lemma BodyWellFormed(r: Response, content: seq<Octet>, contentType: seq<Octet>)
    requires WellFormed(r) && WellFormedField(TypeField(contentType))
    ensures WellFormed(r.Body(content, contentType))
  {
    LengthFieldWellFormed(|content|);
    assert r.Body(content, contentType).headers == r.headers + BodyFields(content, contentType);
  }

  /** A response whose body is set last, by `body()`, reads back if and only if the status has three
      digits, the body is valid UTF-8 and, if the status allows no body, empty; if it allows one, no
      header may say that it is chunked and, unless there is another transfer coding, no header may
      declare another length. */
  lemma BodyRoundTripIff(r: Response, content: seq<Octet>, contentType: seq<Octet>)
    requires WellFormed(r) && WellFormedField(TypeField(contentType))
    ensures ReadsBack(r.Body(content, contentType)) <==>
            && ThreeDigits(r.statusCode) && IsUtf8(content)
            && (if Bodiless(r.statusCode) then content == []
                else if HasField(r.headers, TRANSFER_ENCODING) then !EndsChunked(Items(r.headers, TRANSFER_ENCODING))
                else Agree(Items(r.headers, CONTENT_LENGTH), |content|))
  {
    BodyDeclaresLength(r, content, contentType);
    BodyWellFormed(r, content, contentType);
    ResponseRoundTripIff(r.Body(content, contentType));
    AgreedWithLast(Items(r.headers, CONTENT_LENGTH), |content|);
  }

  /** The status and the body that a response is read back with. */
  ghost predicate Reads(bytes: seq<Octet>, statusCode: nat, body: seq<Octet>) {
    var m := ParseMessage(bytes);
    m.Some? && m.value.statusCode == statusCode && m.value.body == body
  }

  lemma BodilessReads(r: Response)
    requires WellFormed(r) && ThreeDigits(r.statusCode) && Bodiless(r.statusCode)
    ensures Reads(Serialized(r), r.statusCode, [])
  {
    HeadRoundTrip(r);
  }

  /** So the body of this response is sent, but no reader takes it for one. */
  lemma NoContentLosesBody()
    ensures var r := Response.New(204, Ascii("No Content")).Body(Ascii("OK"), Ascii("text/plain"));
            SentBody(r) == Ascii("OK") && Reads(Serialized(r), 204, [])
  {
    var r := Response.New(204, Ascii("No Content"));
    OkIsUtf8();
    PlainText();
    BodyWellFormed(r, Ascii("OK"), Ascii("text/plain"));
    BodilessReads(r.Body(Ascii("OK"), Ascii("text/plain")));
  }

  lemma PlainText()
    ensures WellFormedField(TypeField(Ascii("text/plain")))
  {
  }

  lemma OkIsUtf8()
    ensures IsUtf8(Ascii("OK"))
  {
    var ok := Ascii("OK");
    assert CharLength(ok) == 1 && CharLength(ok[1..]) == 1 && ok[1..][1..] == [];
  }

  // ---- Requests ----

  datatype BootSelection = Windows | Linux

  /** What the request parser makes of the bytes received; a part of a request is not an error. */
  datatype Request = Invalid | Request(verb: Option<string>, path: Option<string>)

  /** The start of every answer. */
  function Closing(statusCode: nat, statusText: seq<Octet>): Response {
    Response.New(statusCode, statusText).Header(Ascii("Connection"), Ascii("close"))
  }

  function Page(html: seq<Octet>): Response {
    Closing(200, Ascii("OK")).Body(html, Ascii("text/html"))
  }

  function Accepted(): Response {
    Closing(200, Ascii("OK")).Body(Ascii("OK"), Ascii("text/plain"))
  }

  function NotFound(): Response {
    Closing(404, Ascii("NOT FOUND"))
  }

  datatype Answer = PageAnswer | AcceptedAnswer(selection: BootSelection) | NotFoundAnswer

  /** Which answer a request gets, if any. */
  function Route(request: Request): Option<Answer> {
    if request.Invalid? || request.path.None? || request.verb.None? then None
    else
      var (m, path) := (request.verb.value, request.path.value);
      if m == "GET" && (path == "/" || path == "/index.html") then Some(PageAnswer)
      else if m == "POST" && path == "/boot/windows" then Some(AcceptedAnswer(Windows))
      else if m == "POST" && path == "/boot/linux" then Some(AcceptedAnswer(Linux))
      else Some(NotFoundAnswer)
  }

  function HandleHttpRequest(request: Request, html: seq<Octet>): Option<(seq<Octet>, Option<BootSelection>)> {
    match Route(request)
    case None => None
    case Some(PageAnswer) => Some((Serialized(Page(html)), None))
    case Some(AcceptedAnswer(selection)) => Some((Serialized(Accepted()), Some(selection)))
    case Some(NotFoundAnswer) => Some((Serialized(NotFound()), None))
  }

  lemma ClosingHeader(statusCode: nat, statusText: seq<Octet>)
    requires NoLineBreak(statusText)
    ensures var r := Closing(statusCode, statusText);
            && WellFormed(r)
            && !HasField(r.headers, CONTENT_LENGTH)
            && !HasField(r.headers, TRANSFER_ENCODING)
  {
    var connection := Field(Ascii("Connection"), Ascii("close"));
    OtherName(connection, CONTENT_LENGTH);
    OtherName(connection, TRANSFER_ENCODING);
    assert Closing(statusCode, statusText).headers == [connection];
  }

  const CLOSING: Field := Field(Ascii("Connection"), Ascii("close"))
  const NOT_FOUND_TEXT: seq<Octet> := Ascii("NOT FOUND")
  const TEXT_HTML: seq<Octet> := Ascii("text/html")
  const TEXT_PLAIN: seq<Octet> := Ascii("text/plain")

  /** The response is read back as status 200 with this body, its type and its length. */
  ghost predicate ReadsOk(bytes: seq<Octet>, body: seq<Octet>, contentType: seq<Octet>) {
    ParseMessage(bytes) ==
    Some(Message(200, Ascii("OK"),
                 [CLOSING, Field(Ascii("Content-Type"), contentType), Field(Ascii("Content-Length"), Decimal(|body|))],
                 body))
  }

  /** The response is read back as status 404 without a body. */
  ghost predicate ReadsNotFound(bytes: seq<Octet>) {
    ParseMessage(bytes) ==
    Some(Message(404, NOT_FOUND_TEXT, [CLOSING], []))
  }

  lemma OkShape(content: seq<Octet>, contentType: seq<Octet>)
    requires WellFormedField(TypeField(contentType)) && IsUtf8(content)
    ensures var r := Closing(200, Ascii("OK"));
            ReadsOk(Serialized(r.Body(content, contentType)), content, contentType)
  {
    ClosingHeader(200, Ascii("OK"));
    var r := Closing(200, Ascii("OK"));
    BodyRoundTripIff(r, content, contentType);
    NoItems(r.headers, CONTENT_LENGTH);
    OkFields(content, contentType);
  }

  lemma OkFields(content: seq<Octet>, contentType: seq<Octet>)
    ensures var r := Closing(200, Ascii("OK"));
            r.Body(content, contentType).headers ==
            [Field(Ascii("Connection"), Ascii("close")),
             Field(Ascii("Content-Type"), contentType),
             Field(Ascii("Content-Length"), Decimal(|content|))]
  {
  }

  lemma HtmlText()
    ensures WellFormedField(TypeField(Ascii("text/html")))
  {
  }

  lemma PageReads(html: seq<Octet>)
    requires IsUtf8(html)
    ensures ReadsOk(Serialized(Page(html)), html, TEXT_HTML)
  {
    HtmlText();
    OkShape(html, TEXT_HTML);
  }

  lemma AcceptedReads()
    ensures ReadsOk(Serialized(Accepted()), Ascii("OK"), TEXT_PLAIN)
  {
    OkIsUtf8();
    PlainText();
    OkShape(Ascii("OK"), TEXT_PLAIN);
  }

  lemma EmptyReads(statusCode: nat, statusText: seq<Octet>)
    requires ThreeDigits(statusCode) && NoLineBreak(statusText)
    ensures ParseMessage(Serialized(Closing(statusCode, statusText))) ==
            Some(Message(statusCode, statusText, [CLOSING], []))
  {
    var r := Closing(statusCode, statusText);
    ClosingHeader(statusCode, statusText);
    ResponseRoundTripIff(r);
    assert r.headers == [CLOSING];
  }

  lemma NotFoundReads()
    ensures ReadsNotFound(Serialized(NotFound()))
  {
    EmptyReads(404, NOT_FOUND_TEXT);
  }

  predicate AsksForPage(request: Request) {
    request == Request.Request(Some("GET"), Some("/")) || request == Request.Request(Some("GET"), Some("/index.html"))
  }

  function Selects(request: Request): Option<BootSelection> {
    if request == Request.Request(Some("POST"), Some("/boot/windows")) then Some(Windows)
    else if request == Request.Request(Some("POST"), Some("/boot/linux")) then Some(Linux)
    else None
  }

  lemma RouteExact(request: Request)
    ensures Route(request).None? <==> request.Invalid? || request.path.None? || request.verb.None?
    ensures Route(request) == Some(PageAnswer) <==> AsksForPage(request)
    ensures forall s :: Route(request) == Some(AcceptedAnswer(s)) <==> Selects(request) == Some(s)
  {
  }

  lemma AnswerReads(request: Request, html: seq<Octet>)
    requires IsUtf8(html)
    ensures match Route(request)
            case None => HandleHttpRequest(request, html).None?
            case Some(PageAnswer) =>
              var answer := HandleHttpRequest(request, html);
              answer.Some? && answer.value.1 == None && ReadsOk(answer.value.0, html, TEXT_HTML)
            case Some(AcceptedAnswer(s)) =>
              var answer := HandleHttpRequest(request, html);
              answer.Some? && answer.value.1 == Some(s) && ReadsOk(answer.value.0, Ascii("OK"), TEXT_PLAIN)
            case Some(NotFoundAnswer) =>
              var answer := HandleHttpRequest(request, html);
              answer.Some? && answer.value.1 == None && ReadsNotFound(answer.value.0)
  {
    match Route(request)
    case None =>
    case Some(PageAnswer) => PageReads(html);
    case Some(AcceptedAnswer(_)) => AcceptedReads();
    case Some(NotFoundAnswer) => NotFoundReads();
  }

  /** The selection that a request makes, and the status and body that its answer reads back as:
      200 with the page or with OK, or 404 without a body. A boot is selected by the two POST
      requests alone, and then the answer is OK. */
  ghost predicate AnsweredProperly(request: Request, html: seq<Octet>) {
    var answer := HandleHttpRequest(request, html);
    if request.Invalid? || request.path.None? || request.verb.None? then answer.None?
    else
      && answer.Some?
      && answer.value.1 == Selects(request)
      && (if AsksForPage(request) then ReadsOk(answer.value.0, html, TEXT_HTML)
          else if Selects(request).Some? then ReadsOk(answer.value.0, Ascii("OK"), TEXT_PLAIN)
          else ReadsNotFound(answer.value.0))
  }

  lemma RequestsAnswered(request: Request, html: seq<Octet>)
    requires IsUtf8(html)
    ensures AnsweredProperly(request, html)
  {
    RouteExact(request);
    AnswerReads(request, html);
  }
}
