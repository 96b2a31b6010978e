/**
 The strict request-head parser of gui/ipc/IpcHttpRequest.cpp.

 Loops of the source are methods proved against the functions here; what those functions accept is
 then characterised by rendering: a field list renders to a text, and the parser accepts exactly the
 rendered texts and gives the fields back (section 5 of RFC 9112, section 5.6.2 of RFC 9110).
 */
module HttpHead {
  import opened Basics
  import opened Text

  const MAX_REQUEST_BYTES: nat := 1024 * 1024

  // ---------------------------------------------------------------- header fields

  predicate IsAlnum(c: char) { 'a' <= c <= 'z' || 'A' <= c <= 'Z' || '0' <= c <= '9' }

  predicate IsToken(c: char) { IsAlnum(c) || c in "!#$%&'*+-.^_`|~" }

  predicate IsValueChar(c: char) { (c >= ' ' || c == '\t') && c != '\U{7F}' }

  type Headers = map<string, string>

  datatype Parsed = Ok(headers: Headers) | Bad

  predicate AllTokens(s: string) { forall i :: 0 <= i < |s| ==> IsToken(s[i]) }

  predicate AllValueChars(s: string) { forall i :: 0 <= i < |s| ==> IsValueChar(s[i]) }

  function LineEnd(input: string, start: nat): (e: nat)
    requires start <= |input|
    ensures start <= e <= |input|
  {
    match FindFrom(input, CRLF, start) case Some(i) => i case None => |input|
  }

  /** The line from `start` to `end` as a field, if the source accepts it. */
  function FieldOf(input: string, start: nat, end: nat): Option<(string, string)>
    requires start <= end <= |input|
  {
    if start == end || IsOws(input[start]) then None
    else match FindFrom(input, ":", start)
      case None => None
      case Some(colon) =>
        if colon >= end || colon == start then None
        else if !AllTokens(input[start..colon]) || !AllValueChars(input[colon + 1..end]) then None
        else Some((Lower(input[start..colon]), Trim(input[colon + 1..end])))
  }

  /** Parse header lines from `start` on, adding to what was already seen. */
  function ParseFrom(input: string, start: nat, seen: Headers): Parsed
    requires start <= |input|
    decreases |input| - start
  {
    if start == |input| then Ok(seen)
    else
      var end := LineEnd(input, start);
      match FieldOf(input, start, end)
      case None => Bad
      case Some((name, value)) =>
        if name in seen then Bad
        else if end == |input| then Ok(seen[name := value])
        else ParseFrom(input, end + 2, seen[name := value])
  }

  method OnlyTokens(input: string, from: nat, to: nat) returns (ok: bool)
    requires from <= to <= |input|
    ensures ok <==> AllTokens(input[from..to])
  {
    for i := from to to
      invariant forall k :: from <= k < i ==> IsToken(input[k])
    {
      if !IsToken(input[i]) {
        assert input[from..to][i - from] == input[i];
        return false;
      }
    }
    ok := true;
  }

  method OnlyValueChars(input: string, from: nat, to: nat) returns (ok: bool)
    requires from <= to <= |input|
    ensures ok <==> AllValueChars(input[from..to])
  {
    for i := from to to
      invariant forall k :: from <= k < i ==> IsValueChar(input[k])
    {
      if !IsValueChar(input[i]) {
        assert input[from..to][i - from] == input[i];
        return false;
      }
    }
    ok := true;
  }

  /** One pass of the loop body over the line `lineStart..lineEnd`. */
  method ParseLine(input: string, lineStart: nat, lineEnd: nat) returns (r: Option<(string, string)>)
    requires lineStart <= lineEnd <= |input|
    ensures r == FieldOf(input, lineStart, lineEnd)
  {
    hide Trim, AllTokens, AllValueChars, FindFrom;
    if lineEnd == lineStart { return None; }
    if IsOws(input[lineStart]) { return None; }
    var found := FindFrom(input, ":", lineStart);
    if found.None? || found.value >= lineEnd || found.value == lineStart { return None; }
    var colon := found.value;
    var nameOk := OnlyTokens(input, lineStart, colon);
    if !nameOk { return None; }
    var valueOk := OnlyValueChars(input, colon + 1, lineEnd);
    if !valueOk { return None; }
    var value := TrimOptionalWhitespace(input[colon + 1..lineEnd]);
    r := Some((Lower(input[lineStart..colon]), value));
  }

  /** `parseHeaders`: the loop over lines. */
  method ParseHeaders(input: string, firstLineEnd: nat) returns (r: Parsed)
    requires firstLineEnd + 2 <= |input|
    ensures r == ParseFrom(input, firstLineEnd + 2, map[])
  {
    hide FieldOf, FindFrom;
    var lineStart := firstLineEnd + 2;
    var output: Headers := map[];
    while lineStart < |input|
      invariant lineStart <= |input|
      invariant ParseFrom(input, lineStart, output) == ParseFrom(input, firstLineEnd + 2, map[])
      decreases |input| - lineStart
    {
      var lineEnd := LineEnd(input, lineStart);
      var field := ParseLine(input, lineStart, lineEnd);
      if field.None? || field.value.0 in output { return Bad; }
      output := output[field.value.0 := field.value.1];
      if lineEnd == |input| { return Ok(output); }
      lineStart := lineEnd + 2;
    }
    r := Ok(output);
  }

  // ---------------------------------------------------------------- rendering

  /** A field as written: name, blanks, value, blanks. */
  datatype Field = Field(name: string, before: string, value: string, after: string)

  predicate ValidField(f: Field) {
    && f.name != "" && AllTokens(f.name)
    && AllOws(f.before) && AllOws(f.after)
    && AllValueChars(f.value) && IsTrimmed(f.value)
  }

  function RenderField(f: Field): string {
    f.name + ":" + f.before + f.value + f.after
  }

  /** The header block: lines separated by CRLF, with or without a CRLF after the last one. */
  function RenderFields(fs: seq<Field>, closed: bool): string {
    if fs == [] then ""
    else if |fs| == 1 && !closed then RenderField(fs[0])
    else RenderField(fs[0]) + CRLF + RenderFields(fs[1..], closed)
  }

  function FieldMap(fs: seq<Field>, seen: Headers): Headers {
    if fs == [] then seen else FieldMap(fs[1..], seen[Lower(fs[0].name) := fs[0].value])
  }

  /** Every field legal, and no two names equal up to case, nor equal to one already seen. */
  ghost predicate ValidFields(fs: seq<Field>, seen: Headers)
    decreases fs
  {
    fs == [] ||
    (ValidField(fs[0]) && Lower(fs[0].name) !in seen
     && ValidFields(fs[1..], seen[Lower(fs[0].name) := fs[0].value]))
  }

  /** The characters of a rendered field: tokens, one colon, then value characters. */
  lemma RenderFieldChars(f: Field)
    requires ValidField(f)
    ensures var s := RenderField(f); var n := |f.name|;
      && n < |s| && s[..n] == f.name && s[n] == ':' && s[n + 1..] == f.before + f.value + f.after
      && AllTokens(s[..n]) && AllValueChars(s[n + 1..])
  {
    var s, n := RenderField(f), |f.name|;
    assert s[..n] == f.name;
    assert s[n + 1..] == f.before + f.value + f.after;
  }

  lemma MiddleOf(prefix: string, line: string, rest: string, i: nat, j: nat)
    requires i <= j <= |line|
    ensures (prefix + line + rest)[|prefix| + i..|prefix| + j] == line[i..j]
  {
  }

  lemma LineEndIs(prefix: string, line: string, rest: string)
    requires forall k :: 0 <= k < |line| ==> line[k] != '\r'
    requires rest == "" || CRLF <= rest
    ensures LineEnd(prefix + line + rest, |prefix|) == |prefix| + |line|
  {
    var input, end := prefix + line + rest, |prefix| + |line|;
    forall j | |prefix| <= j < end ensures !MatchAt(input, CRLF, j) {
      assert input[j] == line[j - |prefix|] != '\r' == CRLF[0];
      if j + 2 <= |input| { assert input[j..j + 2][0] == input[j]; }
    }
    if rest == "" {
      NotFound(input, CRLF, |prefix|);
    } else {
      assert input[end..end + 2] == rest[..2] == CRLF;
      FoundAt(input, CRLF, |prefix|, end);
    }
  }

  lemma TokenFacts(c: char)
    requires IsToken(c)
    ensures c != ':' && c != '\r' && !IsOws(c)
  {
  }

  lemma ColonIs(input: string, start: nat, colon: nat)
    requires start <= colon < |input| && input[colon] == ':'
    requires forall j :: start <= j < colon ==> input[j] != ':'
    ensures FindFrom(input, ":", start) == Some(colon)
  {
    forall j | start <= j < colon ensures !MatchAt(input, ":", j) {
      assert input[j..j + 1][0] == input[j];
    }
    assert input[colon..colon + 1] == ":";
    FoundAt(input, ":", start, colon);
  }

  lemma NoCarriageReturn(f: Field)
    requires ValidField(f)
    ensures forall k :: 0 <= k < |RenderField(f)| ==> RenderField(f)[k] != '\r'
  {
    hide IsToken;
    RenderFieldChars(f);
    var s, n := RenderField(f), |f.name|;
    forall k | 0 <= k < |s| ensures s[k] != '\r' {
      if k < n { TokenFacts(s[..n][k]); } else if k > n { assert IsValueChar(s[n + 1..][k - n - 1]); }
    }
  }

  /** A rendered field inside a text is one line, and parses to its lower-cased name and bare value. */
  lemma FieldParses(prefix: string, f: Field, rest: string)
    requires ValidField(f) && (rest == "" || CRLF <= rest)
    ensures var input := prefix + RenderField(f) + rest;
      && LineEnd(input, |prefix|) == |prefix| + |RenderField(f)|
      && FieldOf(input, |prefix|, |prefix| + |RenderField(f)|) == Some((Lower(f.name), f.value))
  {
    hide Trim, FindFrom, RenderField, IsToken;
    var line := RenderField(f);
    var input, colon := prefix + line + rest, |prefix| + |f.name|;
    RenderFieldChars(f);
    NoCarriageReturn(f);
    LineEndIs(prefix, line, rest);
    forall j | |prefix| <= j < colon ensures input[j] != ':' {
      assert input[j] == line[j - |prefix|] == line[..|f.name|][j - |prefix|];
      TokenFacts(input[j]);
    }
    ColonIs(input, |prefix|, colon);
    MiddleOf(prefix, line, rest, 0, |f.name|);
    MiddleOf(prefix, line, rest, |f.name| + 1, |line|);
    assert input[|prefix|] == line[0] == line[..|f.name|][0];
    TokenFacts(line[..|f.name|][0]);
    assert line[|f.name| + 1..|line|] == line[|f.name| + 1..];
    TrimPadded(f.before, f.value, f.after);
  }

  /** What follows the first line of a header block. */
  function RestOf(fs: seq<Field>, closed: bool): string
    requires fs != []
  {
    if |fs| == 1 && !closed then "" else CRLF + RenderFields(fs[1..], closed)
  }

  lemma Regroup(a: string, b: string, c: string, d: string)
    ensures a + (b + c + d) == (a + b + c) + d && a + (b + (c + d)) == (a + b + c) + d
    ensures a + b + (c + d) == (a + b + c) + d
  {
  }

  lemma RenderSplits(prefix: string, fs: seq<Field>, closed: bool)
    requires fs != []
    ensures prefix + RenderFields(fs, closed) == prefix + RenderField(fs[0]) + RestOf(fs, closed)
    ensures RestOf(fs, closed) != "" ==>
      prefix + RenderFields(fs, closed) == (prefix + RenderField(fs[0]) + CRLF) + RenderFields(fs[1..], closed)
  {
    hide RenderField;
    var line, rest := RenderField(fs[0]), RenderFields(fs[1..], closed);
    if |fs| == 1 && !closed {
      assert RenderFields(fs, closed) == line && RestOf(fs, closed) == "";
    } else {
      assert RenderFields(fs, closed) == line + CRLF + rest && RestOf(fs, closed) == CRLF + rest;
      hide RenderFields, RestOf;
      Regroup(prefix, line, CRLF, rest);
    }
  }

  /** Round trip: parsing a rendered header block returns exactly its field map. */
  lemma {:induction false} ParseRendered(prefix: string, fs: seq<Field>, closed: bool, seen: Headers)
    requires ValidFields(fs, seen)
    ensures ParseFrom(prefix + RenderFields(fs, closed), |prefix|, seen) == Ok(FieldMap(fs, seen))
    decreases |fs|
  {
    hide FieldOf, LineEnd, RenderField, ValidField;
    var input := prefix + RenderFields(fs, closed);
    if fs == [] {
      assert input == prefix;
    } else {
      var rest := RestOf(fs, closed);
      RenderSplits(prefix, fs, closed);
      FieldParses(prefix, fs[0], rest);
      FieldNotEmpty(fs[0]);
      var end := |prefix| + |RenderField(fs[0])|;
      if rest != "" {
        ParseRendered(prefix + RenderField(fs[0]) + CRLF, fs[1..], closed, seen[Lower(fs[0].name) := fs[0].value]);
      }
    }
  }

  lemma FieldNotEmpty(f: Field)
    ensures |RenderField(f)| > 0
  {
  }

  /** An accepted line is the rendering of a legal field. */
  lemma FieldOfRenders(input: string, start: nat, end: nat) returns (f: Field)
    requires start <= end <= |input| && FieldOf(input, start, end).Some?
    ensures ValidField(f) && RenderField(f) == input[start..end]
    ensures FieldOf(input, start, end).value == (Lower(f.name), f.value)
  {
    hide IsToken, IsValueChar, Trim, FindFrom;
    var colon := FindFrom(input, ":", start).value;
    assert input[colon..colon + 1] == ":";
    var name, text := input[start..colon], input[colon + 1..end];
    var before, after := TrimSplits(text);
    f := Field(name, before, Trim(text), after);
    ValueCharsWithin(before, f.value, after);
    LineAtColon(input, start, colon, end);
    RenderedAs(f, text);
  }

  lemma ValueCharsWithin(before: string, value: string, after: string)
    requires AllValueChars(before + value + after)
    ensures AllValueChars(value)
  {
    forall i | 0 <= i < |value| ensures IsValueChar(value[i]) {
      assert value[i] == (before + value + after)[|before| + i];
    }
  }

  lemma LineAtColon(input: string, start: nat, colon: nat, end: nat)
    requires start <= colon < end <= |input| && input[colon..colon + 1] == ":"
    ensures input[start..end] == input[start..colon] + ":" + input[colon + 1..end]
  {
    assert input[start..end] == input[start..colon] + input[colon..colon + 1] + input[colon + 1..end];
  }

  lemma RenderedAs(f: Field, text: string)
    requires text == f.before + f.value + f.after
    ensures RenderField(f) == f.name + ":" + text
  {
  }

  /** The converse of the round trip: whatever the parser accepts is a rendering of legal fields. */
  lemma {:induction false} AcceptedIsRendered(input: string, start: nat, seen: Headers)
      returns (fs: seq<Field>, closed: bool)
    requires start <= |input| && ParseFrom(input, start, seen).Ok?
    ensures ValidFields(fs, seen)
    ensures input[start..] == RenderFields(fs, closed)
    ensures ParseFrom(input, start, seen) == Ok(FieldMap(fs, seen))
    decreases |input| - start
  {
    hide FieldOf, RenderField, ValidField, FindFrom;
    if start == |input| {
      fs, closed := [], false;
    } else {
      var end := LineEnd(input, start);
      var f := FieldOfRenders(input, start, end);
      var seen' := seen[Lower(f.name) := f.value];
      if end == |input| {
        fs, closed := [f], false;
        assert input[start..] == input[start..end];
      } else {
        LineEndIsCrlf(input, start);
        var rest, c := AcceptedIsRendered(input, end + 2, seen');
        fs, closed := [f] + rest, if rest == [] then true else c;
        if rest == [] { assert RenderFields(rest, true) == ""; }
        LineAndRest(input, start, end);
        assert fs[1..] == rest;
      }
    }
  }

  lemma LineAndRest(input: string, start: nat, end: nat)
    requires start <= end && end + 2 <= |input| && input[end..end + 2] == CRLF
    ensures input[start..] == input[start..end] + CRLF + input[end + 2..]
  {
    assert input[start..] == input[start..end] + input[end..end + 2] + input[end + 2..];
  }

  lemma LineEndIsCrlf(input: string, start: nat)
    requires start <= |input| && LineEnd(input, start) != |input|
    ensures var end := LineEnd(input, start); end + 2 <= |input| && input[end..end + 2] == CRLF
  {
  }

  // ---------------------------------------------------------------- Content-Length

  const SIZE_MAX: nat := U64_MAX

  predicate IsDigit(c: char) { '0' <= c <= '9' }

  predicate AllDigits(s: string) { forall i :: 0 <= i < |s| ==> IsDigit(s[i]) }

  function DigitValue(c: char): nat
    requires IsDigit(c)
  {
    c as int - '0' as int
  }

  /** The number a digit string denotes. */
  function Decimal(s: string): nat
    requires AllDigits(s)
  {
    if s == "" then 0 else 10 * Decimal(s[..|s| - 1]) + DigitValue(s[|s| - 1])
  }

  /** The shortest digit string of a number. */
  function Digits(n: nat): (s: string)
    ensures s != "" && AllDigits(s)
  {
    var last := ['0' + (n % 10) as char];
    if n < 10 then last else Digits(n / 10) + last
  }

  lemma {:induction false} DecimalOfDigits(n: nat)
    ensures Decimal(Digits(n)) == n
  {
    var s := Digits(n);
    assert s[|s| - 1] == '0' + (n % 10) as char;
    if n < 10 {
      assert s[..|s| - 1] == "";
    } else {
      DecimalOfDigits(n / 10);
      assert s[..|s| - 1] == Digits(n / 10);
    }
  }

  lemma {:induction false} DecimalGrows(s: string, i: nat)
    requires AllDigits(s) && i <= |s|
    ensures AllDigits(s[..i]) && Decimal(s[..i]) <= Decimal(s)
    decreases |s|
  {
    if i < |s| {
      DecimalGrows(s[..|s| - 1], i);
      assert s[..|s| - 1][..i] == s[..i];
    } else {
      assert s[..i] == s;
    }
  }

  /**
   `parseContentLength` (section 8.6 of RFC 9110): succeeds on exactly the non-empty digit strings
   whose value fits `size_t`, and its running overflow test never misjudges a prefix.
   */
  method ParseContentLength(value: string) returns (ok: bool, length: nat)
    ensures ok <==> value != "" && AllDigits(value) && Decimal(value) <= SIZE_MAX
    ensures ok ==> length == Decimal(value)
  {
    ok, length := false, 0;
    if value == "" { return; }
    var parsed := 0;
    for i := 0 to |value|
      invariant AllDigits(value[..i]) && parsed == Decimal(value[..i]) <= SIZE_MAX
    {
      if !IsDigit(value[i]) { return; }
      var digit := DigitValue(value[i]);
      assert value[..i + 1][..i] == value[..i];
      assert Decimal(value[..i + 1]) == 10 * parsed + digit;
      if parsed > (SIZE_MAX - digit) / 10 {
        if AllDigits(value) { DecimalGrows(value, i + 1); }
        return;
      }
      parsed := parsed * 10 + digit;
    }
    assert value[..|value|] == value;
    ok, length := true, parsed;
  }

  /** The same decision as a function, for use in specifications. */
  function ContentLength(value: string): Option<nat> {
    if value != "" && AllDigits(value) && Decimal(value) <= SIZE_MAX then Some(Decimal(value)) else None
  }

  // ---------------------------------------------------------------- the request line

  datatype RequestLine = RequestLine(verb: string, target: string)

  function ParseRequestLine(line: string): Option<RequestLine> {
    match FindFrom(line, " ", 0)
    case None => None
    case Some(methodEnd) =>
      if methodEnd == 0 then None
      else match FindFrom(line, " ", methodEnd + 1)
        case None => None
        case Some(targetEnd) =>
          if targetEnd == methodEnd + 1 || FindFrom(line, " ", targetEnd + 1).Some? then None
          else if line[targetEnd + 1..] != "HTTP/1.0" && line[targetEnd + 1..] != "HTTP/1.1" then None
          else Some(RequestLine(line[..methodEnd], line[methodEnd + 1..targetEnd]))
  }

  predicate NoSpace(s: string) { forall i :: 0 <= i < |s| ==> s[i] != ' ' }

  predicate IsVersion(v: string) { v == "HTTP/1.0" || v == "HTTP/1.1" }

  lemma SpaceAt(line: string, from: nat, k: nat)
    requires from <= k < |line| && line[k] == ' '
    requires forall j :: from <= j < k ==> line[j] != ' '
    ensures FindFrom(line, " ", from) == Some(k)
  {
    forall j | from <= j < k ensures !MatchAt(line, " ", j) { assert line[j..j + 1][0] == line[j]; }
    assert line[k..k + 1] == " ";
    FoundAt(line, " ", from, k);
  }

  lemma NoSpaceFrom(line: string, from: nat)
    requires forall j :: from <= j < |line| ==> line[j] != ' '
    ensures FindFrom(line, " ", from) == None
  {
    forall j | from <= j ensures !MatchAt(line, " ", j) {
      if j < |line| { assert line[j..j + 1][0] == line[j]; }
    }
    NotFound(line, " ", from);
  }

  /** Three space-free words, the last one a known version, parse back to the first two. */
  lemma RequestLineParses(verb: string, target: string, version: string)
    requires verb != "" && target != "" && NoSpace(verb) && NoSpace(target) && IsVersion(version)
    ensures ParseRequestLine(verb + " " + target + " " + version) == Some(RequestLine(verb, target))
  {
    hide FindFrom;
    var line := verb + " " + target + " " + version;
    var m, t := |verb|, |verb| + 1 + |target|;
    assert line[..m] == verb && line[m + 1..t] == target && line[t + 1..] == version;
    assert NoSpace(version);
    SpaceAt(line, 0, m);
    SpaceAt(line, m + 1, t);
    NoSpaceFrom(line, t + 1);
  }

  lemma SpaceFound(line: string, from: nat)
    requires from <= |line| && FindFrom(line, " ", from).Some?
    ensures var k := FindFrom(line, " ", from).value;
      from <= k < |line| && line[k] == ' ' && NoSpace(line[from..k])
  {
    var k := FindFrom(line, " ", from).value;
    assert line[k..k + 1][0] == ' ';
    forall j | from <= j < k ensures line[j] != ' ' {
      assert !MatchAt(line, " ", j);
      assert line[j..j + 1] == [line[j]];
    }
  }

  lemma ThreeWords(line: string, m: nat, t: nat)
    requires m < t < |line| && line[m] == ' ' && line[t] == ' '
    ensures line == line[..m] + " " + line[m + 1..t] + " " + line[t + 1..]
  {
  }

  lemma RequestLineIsRendered(line: string) returns (version: string)
    requires ParseRequestLine(line).Some?
    ensures var r := ParseRequestLine(line).value;
      && line == r.verb + " " + r.target + " " + version
      && r.verb != "" && r.target != "" && NoSpace(r.verb) && NoSpace(r.target) && IsVersion(version)
  {
    hide FindFrom;
    SpaceFound(line, 0);
    var m := FindFrom(line, " ", 0).value;
    SpaceFound(line, m + 1);
    var t := FindFrom(line, " ", m + 1).value;
    version := line[t + 1..];
    assert line[0..m] == line[..m];
    ThreeWords(line, m, t);
  }

  // ---------------------------------------------------------------- the whole head

  function PathWithoutQuery(target: string): string {
    match FindFrom(target, "?", 0) case None => target case Some(q) => target[..q]
  }

  function IsJsonContentType(value: string): bool {
    var media := match FindFrom(value, ";", 0) case None => value case Some(q) => value[..q];
    Lower(Trim(media)) == "application/json"
  }

  datatype Verdict = Accept(length: nat) | Reject(status: nat)

  function CheckHeaders(h: Headers, headBytes: nat, limit: nat): Verdict {
    if "transfer-encoding" in h then Reject(400)
    else if "content-length" !in h then Reject(400)
    else match ContentLength(h["content-length"])
      case None => Reject(400)
      case Some(length) =>
        if "content-type" !in h || !IsJsonContentType(h["content-type"]) then Reject(415)
        else if "origin" in h && h["origin"] != "" then Reject(403)
        else if length > limit || headBytes + 4 > limit - length then Reject(413)
        else Accept(length)
  }

  /** `ValidateRequestHead`; `headers` is the text before the first empty line. */
  function ValidateHead(headers: string, limit: nat): Verdict {
    if |headers| > limit then Reject(413)
    else match FindFrom(headers, CRLF, 0)
      case None => Reject(400)
      case Some(lineEnd) =>
        match ParseRequestLine(headers[..lineEnd])
        case None => Reject(400)
        case Some(line) =>
          if PathWithoutQuery(line.target) != "/" then Reject(404)
          else if line.verb != "POST" then Reject(405)
          else match ParseFrom(headers, lineEnd + 2, map[])
            case Bad => Reject(400)
            case Ok(h) => CheckHeaders(h, |headers|, limit)
  }

  method ValidateRequestHead(headers: string, limit: nat) returns (v: Verdict)
    ensures v == ValidateHead(headers, limit)
    ensures v.Accept? ==> |headers| + 4 + v.length <= limit
  {
    hide ParseFrom, ParseRequestLine, IsJsonContentType, PathWithoutQuery, FindFrom;
    if |headers| > limit { return Reject(413); }
    var lineEnd := FindFrom(headers, CRLF, 0);
    if lineEnd.None? { return Reject(400); }
    var line := ParseRequestLine(headers[..lineEnd.value]);
    if line.None? { return Reject(400); }
    if PathWithoutQuery(line.value.target) != "/" { return Reject(404); }
    if line.value.verb != "POST" { return Reject(405); }
    var parsed := ParseHeaders(headers, lineEnd.value);
    if parsed.Bad? { return Reject(400); }
    var h := parsed.headers;
    if "transfer-encoding" in h { return Reject(400); }
    if "content-length" !in h { return Reject(400); }
    var ok, length := ParseContentLength(h["content-length"]);
    if !ok { return Reject(400); }
    if "content-type" !in h || !IsJsonContentType(h["content-type"]) { return Reject(415); }
    if "origin" in h && h["origin"] != "" { return Reject(403); }
    if length > limit || |headers| + 4 > limit - length { return Reject(413); }
    v := Accept(length);
  }

  // ---------------------------------------------------------------- what a head has to say

  /** No line break inside. */
  predicate NoBreak(s: string) { forall i :: 0 <= i < |s| - 1 ==> !(s[i] == '\r' && s[i + 1] == '\n') }

  /** The head is a request line of these three words and then `rest`. */
  ghost predicate IsHead(head: string, verb: string, target: string, version: string, rest: string) {
    && head == verb + " " + target + " " + version + CRLF + rest
    && verb != "" && target != "" && NoSpace(verb) && NoSpace(target) && NoBreak(verb) && NoBreak(target)
    && IsVersion(version)
  }

  /** The root, with or without a query. */
  predicate IsRoot(target: string) {
    target == "/" || "/?" <= target
  }

  lemma RootIff(target: string)
    ensures PathWithoutQuery(target) == "/" <==> IsRoot(target)
  {
    match FindFrom(target, "?", 0)
    case None => if "/?" <= target { assert MatchAt(target, "?", 1); }
    case Some(q) =>
      assert target[q..q + 1] == "?" && target[q] == '?';
      if "/?" <= target { assert MatchAt(target, "?", 1) && target[0] == '/'; }
      if target[..q] == "/" { assert target[..2] == target[..1] + target[1..2] == "/?"; }
  }

  ghost predicate JsonParts(value: string, before: string, media: string, after: string, parameters: string) {
    && value == before + media + after + parameters && AllOws(before) && AllOws(after)
    && Lower(media) == "application/json" && (parameters == "" || parameters[0] == ';')
  }

  /** `application/json` in any case, with blanks around it, alone or before a semicolon. */
  ghost predicate IsJson(value: string) {
    exists before, media, after, parameters :: JsonParts(value, before, media, after, parameters)
  }

  lemma JsonMedia(media: string)
    requires Lower(media) == "application/json"
    ensures IsTrimmed(media) && forall i :: 0 <= i < |media| ==> media[i] != ';'
  {
    forall i | 0 <= i < |media| ensures media[i] != ';' {
      assert LowerChar(media[i]) == "application/json"[i];
    }
    assert LowerChar(media[0]) == 'a' && LowerChar(media[|media| - 1]) == "application/json"[|media| - 1] == 'n';
  }

  lemma JsonRead(value: string, before: string, media: string, after: string, parameters: string)
    requires JsonParts(value, before, media, after, parameters)
    ensures IsJsonContentType(value)
  {
    hide FindFrom, Trim, Lower;
    JsonMedia(media);
    var text := before + media + after;
    assert value == text + parameters;
    TrimPadded(before, media, after);
    assert forall i :: 0 <= i < |text| ==> text[i] != ';';
    forall j | 0 <= j < |text| ensures !MatchAt(value, ";", j) { assert value[j..j + 1][0] == value[j] == text[j]; }
    if parameters == "" {
      assert value == text;
      NotFound(value, ";", 0);
    } else {
      assert value[|text|] == parameters[0] && value[|text|..|text| + 1] == ";";
      FoundAt(value, ";", 0, |text|);
      assert value[..|text|] == text;
    }
  }

  lemma JsonWritten(value: string)
    requires IsJsonContentType(value)
    ensures IsJson(value)
  {
    hide Trim, Lower;
    var q := match FindFrom(value, ";", 0) case None => |value| case Some(k) => k;
    var text, parameters := value[..q], value[q..];
    if q < |value| { assert value[q..q + 1] == ";" && parameters[0] == value[q]; }
    if q == |value| { assert text == value; }
    assert Lower(Trim(text)) == "application/json";
    assert value == text + parameters;
    var before, after := TrimSplits(text);
    assert JsonParts(value, before, Trim(text), after, parameters);
  }

  lemma JsonIff(value: string)
    ensures IsJsonContentType(value) <==> IsJson(value)
  {
    hide IsJsonContentType, JsonParts;
    if IsJsonContentType(value) { JsonWritten(value); }
    if before, media, after, parameters :| JsonParts(value, before, media, after, parameters) {
      JsonRead(value, before, media, after, parameters);
    }
  }

  /** Some field of that name, in any case, has this value. */
  ghost predicate HasField(fs: seq<Field>, name: string, value: string) {
    exists i :: 0 <= i < |fs| && Lower(fs[i].name) == name && fs[i].value == value
  }

  ghost predicate Names(fs: seq<Field>, name: string) {
    exists value :: HasField(fs, name, value)
  }

  lemma HasFieldFirst(fs: seq<Field>, name: string, value: string)
    requires fs != []
    ensures HasField(fs, name, value) <==>
      (Lower(fs[0].name) == name && fs[0].value == value) || HasField(fs[1..], name, value)
  {
    if i :| 0 <= i < |fs| && Lower(fs[i].name) == name && fs[i].value == value {
      if i > 0 { assert fs[1..][i - 1] == fs[i]; }
    }
    if i :| 0 <= i < |fs[1..]| && Lower(fs[1..][i].name) == name && fs[1..][i].value == value {
      assert fs[i + 1] == fs[1..][i];
    }
  }

  /** The field map holds the fields and nothing else. */
  lemma {:induction false} FieldMapHolds(fs: seq<Field>, seen: Headers, name: string, value: string)
    requires ValidFields(fs, seen)
    ensures name in FieldMap(fs, seen) && FieldMap(fs, seen)[name] == value <==>
      (name in seen && seen[name] == value) || HasField(fs, name, value)
    decreases fs
  {
    hide Lower, ValidField;
    if fs != [] {
      HasFieldFirst(fs, name, value);
      FieldMapHolds(fs[1..], seen[Lower(fs[0].name) := fs[0].value], name, value);
    }
  }

  lemma FieldMapIs(fs: seq<Field>, name: string)
    requires ValidFields(fs, map[])
    ensures name in FieldMap(fs, map[]) <==> Names(fs, name)
    ensures forall v :: HasField(fs, name, v) <==> name in FieldMap(fs, map[]) && FieldMap(fs, map[])[name] == v
  {
    forall v ensures HasField(fs, name, v) <==> name in FieldMap(fs, map[]) && FieldMap(fs, map[])[name] == v {
      FieldMapHolds(fs, map[], name, v);
    }
    if name in FieldMap(fs, map[]) { assert HasField(fs, name, FieldMap(fs, map[])[name]); }
  }

  ghost predicate IsLength(value: string, length: nat) {
    value != "" && AllDigits(value) && Decimal(value) == length <= SIZE_MAX
  }

  /** The body's length, as some content-length field gives it. */
  ghost predicate GivesLength(fs: seq<Field>, length: nat) {
    exists value :: HasField(fs, "content-length", value) && IsLength(value, length)
  }

  ghost predicate GivesNoLength(fs: seq<Field>) {
    forall length :: !GivesLength(fs, length)
  }

  ghost predicate CarriesJson(fs: seq<Field>) {
    exists value :: HasField(fs, "content-type", value) && IsJson(value)
  }

  ghost predicate FromBrowser(fs: seq<Field>) {
    exists value :: HasField(fs, "origin", value) && value != ""
  }

  /** The fields of a request that is served, for a body of that length. */
  ghost predicate Acceptable(fs: seq<Field>, length: nat) {
    !Names(fs, "transfer-encoding") && GivesLength(fs, length) && CarriesJson(fs) && !FromBrowser(fs)
  }

  /** What is made of legal fields: one status for the first condition that fails. */
  ghost predicate IsFieldsVerdict(v: Verdict, fs: seq<Field>, headBytes: nat, limit: nat) {
    if Names(fs, "transfer-encoding") || GivesNoLength(fs) then v == Reject(400)
    else if !CarriesJson(fs) then v == Reject(415)
    else if FromBrowser(fs) then v == Reject(403)
    else forall n :: GivesLength(fs, n) ==> v == if headBytes + 4 + n > limit then Reject(413) else Accept(n)
  }

  lemma FieldsVerdict(fs: seq<Field>, headBytes: nat, limit: nat)
    requires ValidFields(fs, map[])
    ensures IsFieldsVerdict(CheckHeaders(FieldMap(fs, map[]), headBytes, limit), fs, headBytes, limit)
  {
    hide FieldMap, ValidFields, HasField, IsJsonContentType, IsJson;
    var h := FieldMap(fs, map[]);
    FieldMapIs(fs, "transfer-encoding");
    FieldMapIs(fs, "content-length");
    FieldMapIs(fs, "content-type");
    FieldMapIs(fs, "origin");
    LengthIs(fs, h);
    if "content-type" in h { JsonIff(h["content-type"]); }
  }

  lemma LengthIs(fs: seq<Field>, h: Headers)
    requires forall v :: HasField(fs, "content-length", v) <==> "content-length" in h && h["content-length"] == v
    ensures GivesNoLength(fs) <==> "content-length" !in h || ContentLength(h["content-length"]).None?
    ensures forall n: nat :: GivesLength(fs, n) <==>
      "content-length" in h && ContentLength(h["content-length"]) == Some(n)
  {
    forall n: nat ensures GivesLength(fs, n) <==>
      "content-length" in h && ContentLength(h["content-length"]) == Some(n)
    {
      if "content-length" in h && ContentLength(h["content-length"]) == Some(n) {
        assert HasField(fs, "content-length", h["content-length"]) && IsLength(h["content-length"], n);
      }
    }
    if "content-length" in h && ContentLength(h["content-length"]).Some? {
      assert GivesLength(fs, ContentLength(h["content-length"]).value);
    }
  }

  // ---------------------------------------------------------------- the verdict on every head

  lemma NoBreakInLine(verb: string, target: string, version: string)
    requires NoBreak(verb) && NoBreak(target) && IsVersion(version)
    ensures NoBreak(verb + " " + target + " " + version)
  {
    var line := verb + " " + target + " " + version;
    var m, t := |verb|, |verb| + 1 + |target|;
    assert NoBreak(version);
    forall i | 0 <= i < |line| - 1 ensures !(line[i] == '\r' && line[i + 1] == '\n') {
      if i + 1 < m {
        assert line[i] == verb[i] && line[i + 1] == verb[i + 1];
      } else if m < i && i + 1 < t {
        assert line[i] == target[i - m - 1] && line[i + 1] == target[i + 1 - m - 1];
      } else if t < i {
        assert line[i] == version[i - t - 1] && line[i + 1] == version[i + 1 - t - 1];
      } else {
        assert line[m] == ' ' && line[t] == ' ';
      }
    }
  }

  lemma BreakAt(line: string, rest: string)
    requires NoBreak(line)
    ensures FindFrom(line + CRLF + rest, CRLF, 0) == Some(|line|)
  {
    var s := line + CRLF + rest;
    forall j | 0 <= j < |line| ensures !MatchAt(s, CRLF, j) {
      assert s[j..j + 2] == [s[j], s[j + 1]];
      assert s[j] == line[j] && s[j + 1] == if j + 1 < |line| then line[j + 1] else '\r';
    }
    assert s[|line|..|line| + 2] == CRLF;
    FoundAt(s, CRLF, 0, |line|);
  }

  lemma CutAt(s: string, end: nat)
    requires MatchAt(s, CRLF, end)
    ensures s == s[..end] + CRLF + s[end + 2..]
  {
    assert s == s[..end] + s[end..end + 2] + s[end + 2..];
  }

  lemma NoMatchNoBreak(s: string, end: nat)
    requires end <= |s| && forall j :: 0 <= j < end ==> !MatchAt(s, CRLF, j)
    ensures NoBreak(s[..end])
  {
    var line := s[..end];
    forall i | 0 <= i < |line| - 1 ensures !(line[i] == '\r' && line[i + 1] == '\n') {
      assert line[i] == s[i] && line[i + 1] == s[i + 1];
      assert !MatchAt(s, CRLF, i);
      assert s[i..i + 2] == [s[i], s[i + 1]];
    }
  }

  lemma NoBreakBefore(s: string, end: nat)
    requires FindFrom(s, CRLF, 0) == Some(end)
    ensures end + 2 <= |s| && NoBreak(s[..end])
    ensures s == s[..end] + CRLF + s[end + 2..]
  {
    assert MatchAt(s, CRLF, end);
    CutAt(s, end);
    NoMatchNoBreak(s, end);
  }

  lemma NoBreakWithin(before: string, s: string, after: string)
    requires NoBreak(before + s + after)
    ensures NoBreak(s)
  {
    var whole := before + s + after;
    forall i | 0 <= i < |s| - 1 ensures !(s[i] == '\r' && s[i + 1] == '\n') {
      assert whole[|before| + i] == s[i] && whole[|before| + i + 1] == s[i + 1];
    }
  }

  /** How the head is cut at its first line break. */
  lemma HeadCuts(head: string, verb: string, target: string, version: string, rest: string)
    requires IsHead(head, verb, target, version, rest)
    ensures var line := verb + " " + target + " " + version;
      && FindFrom(head, CRLF, 0) == Some(|line|) && head[..|line|] == line && head == line + CRLF + rest
      && ParseRequestLine(line) == Some(RequestLine(verb, target))
  {
    hide FindFrom, ParseRequestLine;
    var line := verb + " " + target + " " + version;
    assert head == line + CRLF + rest;
    NoBreakInLine(verb, target, version);
    BreakAt(line, rest);
    RequestLineParses(verb, target, version);
  }

  /** A head whose first line is accepted is one in these terms. */
  lemma HeadOfLine(head: string, end: nat) returns (verb: string, target: string, version: string)
    requires FindFrom(head, CRLF, 0) == Some(end) && ParseRequestLine(head[..end]).Some?
    ensures end + 2 <= |head| && IsHead(head, verb, target, version, head[end + 2..])
    ensures ParseRequestLine(head[..end]) == Some(RequestLine(verb, target))
  {
    hide FindFrom, ParseRequestLine;
    NoBreakBefore(head, end);
    var line := head[..end];
    version := RequestLineIsRendered(line);
    verb, target := ParseRequestLine(line).value.verb, ParseRequestLine(line).value.target;
    assert line == "" + verb + (" " + target + " " + version);
    NoBreakWithin("", verb, " " + target + " " + version);
    assert line == (verb + " ") + target + (" " + version);
    NoBreakWithin(verb + " ", target, " " + version);
  }

  /** No request line: too long, or malformed. */
  lemma NoLineVerdict(head: string, limit: nat)
    ensures |head| > limit ==> ValidateHead(head, limit) == Reject(413)
    ensures |head| <= limit && (forall verb, target, version, rest :: !IsHead(head, verb, target, version, rest)) ==>
      ValidateHead(head, limit) == Reject(400)
  {
    hide FindFrom, ParseRequestLine, ParseFrom;
    var end := FindFrom(head, CRLF, 0);
    if end.Some? && ParseRequestLine(head[..end.value]).Some? {
      var verb, target, version := HeadOfLine(head, end.value);
    }
  }

  ghost predicate AreFields(rest: string, fs: seq<Field>, closed: bool) {
    rest == RenderFields(fs, closed) && ValidFields(fs, map[])
  }

  /** The block of fields after a request line parses to the map of its fields, and fails if there are none such. */
  lemma FieldsOf(line: string, rest: string)
    ensures forall fs, closed :: AreFields(rest, fs, closed) ==>
      ParseFrom(line + CRLF + rest, |line| + 2, map[]) == Ok(FieldMap(fs, map[]))
    ensures (forall fs, closed :: !AreFields(rest, fs, closed)) ==>
      ParseFrom(line + CRLF + rest, |line| + 2, map[]) == Bad
  {
    hide ParseFrom, RenderFields, ValidFields, FieldMap;
    var input := line + CRLF + rest;
    forall fs, closed | AreFields(rest, fs, closed)
      ensures ParseFrom(input, |line| + 2, map[]) == Ok(FieldMap(fs, map[]))
    {
      ParseRendered(line + CRLF, fs, closed, map[]);
    }
    if ParseFrom(input, |line| + 2, map[]).Ok? {
      var fs, closed := AcceptedIsRendered(input, |line| + 2, map[]);
      assert input[|line| + 2..] == rest;
      assert AreFields(rest, fs, closed);
    }
  }

  /**
   The verdict on every head with a request line: 404 for another target, 405 for another method, 400 for
   what is not a block of legal fields with distinct names, and otherwise what the fields give.
   */
  lemma HeadVerdict(head: string, verb: string, target: string, version: string, rest: string, limit: nat)
    requires IsHead(head, verb, target, version, rest) && |head| <= limit
    ensures var v := ValidateHead(head, limit);
      if !IsRoot(target) then v == Reject(404)
      else if verb != "POST" then v == Reject(405)
      else if forall fs, closed :: !AreFields(rest, fs, closed) then v == Reject(400)
      else forall fs, closed :: AreFields(rest, fs, closed) ==> IsFieldsVerdict(v, fs, |head|, limit)
  {
    hide FindFrom, ParseRequestLine, ParseFrom, PathWithoutQuery, CheckHeaders, IsFieldsVerdict, FieldMap, IsRoot;
    HeadCuts(head, verb, target, version, rest);
    RootIff(target);
    FieldsOf(verb + " " + target + " " + version, rest);
    forall fs, closed | AreFields(rest, fs, closed)
      ensures IsFieldsVerdict(CheckHeaders(FieldMap(fs, map[]), |head|, limit), fs, |head|, limit)
    {
      FieldsVerdict(fs, |head|, limit);
    }
  }

  /**
   Acceptance, exactly: a POST to the root with legal fields of distinct names, among them a length and
   JSON as the content, no transfer encoding and no origin, of which head and body stay within the limit.
   */
  lemma AcceptedIff(head: string, limit: nat, length: nat)
    ensures ValidateHead(head, limit) == Accept(length) <==>
      && |head| + 4 + length <= limit
      && exists target, version, rest, fs, closed ::
        && IsHead(head, "POST", target, version, rest) && IsRoot(target) && AreFields(rest, fs, closed)
        && Acceptable(fs, length)
  {
    hide ValidateHead, RenderFields, ValidFields, HasField, IsHead, IsRoot;
    NoLineVerdict(head, limit);
    if verb, target, version, rest :| IsHead(head, verb, target, version, rest) && |head| <= limit {
      HeadVerdict(head, verb, target, version, rest, limit);
    }
    if target, version, rest, fs, closed :|
      && IsHead(head, "POST", target, version, rest) && IsRoot(target) && AreFields(rest, fs, closed)
      && Acceptable(fs, length) && |head| + 4 + length <= limit
    {
      HeadVerdict(head, "POST", target, version, rest, limit);
      assert IsFieldsVerdict(ValidateHead(head, limit), fs, |head|, limit);
      assert GivesLength(fs, length);
    }
  }
}
