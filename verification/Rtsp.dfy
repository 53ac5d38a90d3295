/** RTSP messages as text: what parse makes of a request, what create_response prints, and how
    the two fit together. Stream extraction and getline are written as functions of strings. */
module Rtsp {
  import opened Common

  datatype Method = OPTIONS | DESCRIBE | SETUP | PLAY | PAUSE | TEARDOWN | GET_PARAMETER | SET_PARAMETER
                  | REDIRECT | ANNOUNCE | RECORD | UNKNOWN

  const UNSET: nat := 0

  datatype Message = Message(protocol: string, verb: Method, uri: string, cseq: nat, status: nat,
                             body: string, headers: map<string, string>)

  const FRESH := Message("RTSP/1.0", UNKNOWN, "", 0, UNSET, "", map[])

  // parse answers false, answers true, or lets an exception out.
  datatype Outcome = NoData | Parsed | Threw

  function ParseMethod(s: string): Method {
    match s
    case "OPTIONS" => OPTIONS
    case "DESCRIBE" => DESCRIBE
    case "SETUP" => SETUP
    case "PLAY" => PLAY
    case "PAUSE" => PAUSE
    case "TEARDOWN" => TEARDOWN
    case "GET_PARAMETER" => GET_PARAMETER
    case "SET_PARAMETER" => SET_PARAMETER
    case "REDIRECT" => REDIRECT
    case "ANNOUNCE" => ANNOUNCE
    case "RECORD" => RECORD
    case _ => UNKNOWN
  }

  function MethodToString(m: Method): string {
    match m
    case OPTIONS => "OPTIONS"
    case DESCRIBE => "DESCRIBE"
    case SETUP => "SETUP"
    case PLAY => "PLAY"
    case PAUSE => "PAUSE"
    case TEARDOWN => "TEARDOWN"
    case _ => "UNKNOWN"
  }

  function StatusToString(code: nat): string {
    if code == 100 then "Continue" else if code == 200 then "OK" else if code == 201 then "Created" else "Unknown"
  }

  // ---------------------------------------------------------------- text

  predicate IsSpace(c: char) {
    c == ' ' || '\t' <= c <= '\r'
  }

  // The index of the first c; the length of the text if there is none.
  function Find(s: string, c: char): (i: nat)
    ensures i <= |s| && (i < |s| ==> s[i] == c) && c !in s[..i]
  {
    if s == "" || s[0] == c then 0 else 1 + Find(s[1..], c)
  }

  // std::getline on a stream that is not at its end: the line and what follows it.
  function GetLine(s: string): (r: (string, string))
    requires s != ""
    ensures |r.1| < |s|
  {
    var i := Find(s, '\n');
    (s[..i], if i < |s| then s[i + 1..] else "")
  }

  function SkipSpaces(s: string): (r: string)
    ensures |r| <= |s|
    ensures r == "" || !IsSpace(r[0])
  {
    if s == "" || !IsSpace(s[0]) then s else SkipSpaces(s[1..])
  }

  function WordLength(s: string): (n: nat)
    ensures n <= |s|
    ensures forall i :: 0 <= i < n ==> !IsSpace(s[i])
  {
    if s == "" || IsSpace(s[0]) then 0 else 1 + WordLength(s[1..])
  }

  // stream >> word: the next word, empty when the extraction fails, and what follows it.
  function Word(s: string): (r: (string, string))
    ensures forall i :: 0 <= i < |r.0| ==> !IsSpace(r.0[i])
  {
    var t := SkipSpaces(s);
    (t[..WordLength(t)], t[WordLength(t)..])
  }

  function RemoveCr(s: string): (r: string)
    ensures '\r' !in r
    ensures forall c :: c in r ==> c in s
  {
    if s == "" then "" else (if s[0] == '\r' then [] else [s[0]]) + RemoveCr(s[1..])
  }

  function TrimFront(s: string): (r: string)
    ensures r == "" || r[0] != ' '
    ensures forall c :: c in r ==> c in s
  {
    if s == "" || s[0] != ' ' then s else TrimFront(s[1..])
  }

  function TrimBack(s: string): (r: string)
    ensures r <= s && (r == "" || r[|r| - 1] != ' ')
  {
    if s == "" || s[|s| - 1] != ' ' then s else TrimBack(s[..|s| - 1])
  }

  function Trim(s: string): string {
    TrimBack(TrimFront(s))
  }

  predicate IsDigit(c: char) { '0' <= c <= '9' }

  function DigitCount(s: string): (n: nat)
    ensures n <= |s| && forall i :: 0 <= i < n ==> IsDigit(s[i])
  {
    if s == "" || !IsDigit(s[0]) then 0 else 1 + DigitCount(s[1..])
  }

  function Decimal(digits: string): nat
    requires forall i :: 0 <= i < |digits| ==> IsDigit(digits[i])
  {
    if digits == "" then 0
    else
      var last := digits[|digits| - 1];
      assert IsDigit(last);
      Decimal(digits[..|digits| - 1]) * 10 + (last as int - '0' as int)
  }

  // std::stoi: leading white space, a sign, digits; anything may follow. None is an exception.
  function Stoi(s: string): Option<int> {
    var t := SkipSpaces(s);
    var negative := t != "" && t[0] == '-';
    var u := if t != "" && t[0] in {'+', '-'} then t[1..] else t;
    var n: int := Decimal(u[..DigitCount(u)]);
    var value := if negative then -n else n;
    if DigitCount(u) == 0 || !(-0x8000_0000 <= value < 0x8000_0000) then None else Some(value)
  }

  function Unsigned(n: int): nat { n % 0x1_0000_0000 }

  // ---------------------------------------------------------------- parse

  function HeaderName(line: string): string { line[..Find(line, ':')] }

  function HeaderValue(line: string): string {
    var i := Find(line, ':');
    Trim(if i < |line| then line[i + 1..] else "")
  }

  // One header line without its carriage returns.
  function ParseLine(line: string, m: Message): (Message, Outcome) {
    var name, value := HeaderName(line), HeaderValue(line);
    if value == "" then (m, Threw)
    else if name == "CSeq" then
      match Stoi(value)
      case None => (m, Threw)
      case Some(n) => (m.(cseq := Unsigned(n)), Parsed)
    else (m.(headers := m.headers[name := value]), Parsed)
  }

  function ParseHeaders(rest: string, m: Message): (Message, Outcome)
    decreases |rest|
  {
    if rest == "" then (m, Parsed)
    else
      var (raw, after) := GetLine(rest);
      var line := RemoveCr(raw);
      if line == "" then (m, Parsed)
      else
        var (m', r) := ParseLine(line, m);
        if r.Threw? then (m', r) else ParseHeaders(after, m')
  }

  // A word that is missing leaves its field as it was.
  function ParseRequestLine(line: string, m: Message): Message {
    var (w1, t1) := Word(line);
    var (w2, t2) := Word(t1);
    var (w3, _) := Word(t2);
    m.(verb := ParseMethod(w1), uri := if w2 == "" then m.uri else w2, protocol := if w3 == "" then m.protocol else w3)
  }

  function Parse(data: string, m: Message): (Message, Outcome) {
    if data == "" then (m, NoData)
    else
      var (line, rest) := GetLine(data);
      ParseHeaders(rest, ParseRequestLine(line, m))
  }

  // ---------------------------------------------------------------- print

  // The order in which the header map is walked: every key once.
  ghost predicate IsOrder(order: seq<string>, headers: map<string, string>) {
    && (forall k :: k in order <==> k in headers)
    && (forall i, j :: 0 <= i < j < |order| ==> order[i] != order[j])
  }

  function NumberText(n: nat): string {
    if n < 10 then ['0' + n as char] else NumberText(n / 10) + ['0' + (n % 10) as char]
  }

  function StartLine(m: Message): string {
    if m.status != UNSET then m.protocol + " " + NumberText(m.status) + " " + StatusToString(m.status)
    else MethodToString(m.verb) + " " + m.uri + " " + m.protocol
  }

  function HeaderText(pairs: seq<(string, string)>): string {
    if pairs == [] then "" else pairs[0].0 + ": " + pairs[0].1 + "\r\n" + HeaderText(pairs[1..])
  }

  function Pairs(order: seq<string>, headers: map<string, string>): seq<(string, string)>
    requires forall k :: k in order ==> k in headers
  {
    seq(|order|, i requires 0 <= i < |order| => (order[i], headers[order[i]]))
  }

  function Print(m: Message, order: seq<string>): string
    requires forall k :: k in order ==> k in m.headers
  {
    StartLine(m) + "\r\n" + (HeaderText(Pairs(order, m.headers)) + ("\r\n" + m.body))
  }

  // ---------------------------------------------------------------- what survives

  // Printing knows only six methods.
  lemma MethodRoundTrip(v: Method)
    ensures ParseMethod(MethodToString(v)) == v <==>
            v !in {GET_PARAMETER, SET_PARAMETER, REDIRECT, ANNOUNCE, RECORD}
  {}

  predicate IsWord(s: string) {
    s != "" && forall i :: 0 <= i < |s| ==> !IsSpace(s[i])
  }

  predicate LegalName(s: string) {
    ':' !in s && '\r' !in s && '\n' !in s && s != "CSeq"
  }

  predicate LegalValue(s: string) {
    s != "" && s[0] != ' ' && s[|s| - 1] != ' ' && '\r' !in s && '\n' !in s
  }

  predicate LegalPairs(pairs: seq<(string, string)>) {
    forall i :: 0 <= i < |pairs| ==> LegalName(pairs[i].0) && LegalValue(pairs[i].1)
  }

  // The fields a printed request carries, in the form that survives.
  ghost predicate Printable(m: Message) {
    && m.status == UNSET && IsWord(m.uri) && IsWord(m.protocol)
    && forall k :: k in m.headers ==> LegalName(k) && LegalValue(m.headers[k])
  }

  lemma {:induction false} FindIs(a: string, c: char, b: string)
    requires c !in a
    ensures Find(a + [c] + b, c) == |a|
  {
    var s := a + [c] + b;
    if a != "" {
      assert s[1..] == a[1..] + [c] + b;
      FindIs(a[1..], c, b);
    }
  }

  lemma GetLineIs(line: string, rest: string)
    requires '\n' !in line
    ensures GetLine(line + "\n" + rest) == (line, rest)
  {
    FindIs(line, '\n', rest);
    var s := line + ['\n'] + rest;
    assert s[..|line|] == line && s[|line| + 1..] == rest;
  }

  lemma {:induction false} RemoveCrIs(s: string)
    requires '\r' !in s
    ensures RemoveCr(s + "\r") == s
  {
    if s != "" {
      assert (s + "\r")[1..] == s[1..] + "\r";
      RemoveCrIs(s[1..]);
    }
  }

  lemma {:induction false} WordLengthIs(w: string, t: string)
    requires IsWord(w) && (t == "" || IsSpace(t[0]))
    ensures WordLength(w + t) == |w|
  {
    assert (w + t)[1..] == w[1..] + t;
    if |w| > 1 {
      WordLengthIs(w[1..], t);
    } else {
      assert w[1..] + t == t;
    }
  }

  lemma WordIs(w: string, t: string)
    requires IsWord(w) && (t == "" || IsSpace(t[0]))
    ensures Word(w + t) == (w, t)
    ensures Word(" " + (w + t)) == (w, t)
  {
    WordLengthIs(w, t);
    var s := w + t;
    assert s[..|w|] == w && s[|w|..] == t;
    assert (" " + s)[1..] == s;
  }

  lemma TrimIs(v: string)
    requires LegalValue(v)
    ensures Trim(" " + v) == v
  {
    assert (" " + v)[1..] == v;
    assert TrimFront(" " + v) == TrimFront(v) == v;
  }

  // A printed request line is read back word by word.
  lemma RequestLineIs(m: Message, m0: Message)
    requires m.status == UNSET && IsWord(m.uri) && IsWord(m.protocol)
    ensures ParseRequestLine(StartLine(m) + "\r", m0) ==
            m0.(verb := ParseMethod(MethodToString(m.verb)), uri := m.uri, protocol := m.protocol)
    ensures '\n' !in StartLine(m)
  {
    hide Word, ParseMethod, MethodToString, IsWord, StartLine;
    var v, u, p := MethodToString(m.verb), m.uri, m.protocol;
    var t2 := " " + (p + "\r");
    var t1 := " " + (u + t2);
    MethodIsWord(m.verb);
    StartLineIs(m);
    WordIs(v, t1);
    WordIs(u, t2);
    WordIs(p, "\r");
  }

  lemma MethodIsWord(v: Method)
    ensures IsWord(MethodToString(v))
  {}

  lemma StartLineIs(m: Message)
    requires m.status == UNSET && IsWord(MethodToString(m.verb)) && IsWord(m.uri) && IsWord(m.protocol)
    ensures StartLine(m) + "\r" == MethodToString(m.verb) + (" " + (m.uri + (" " + (m.protocol + "\r"))))
    ensures '\n' !in StartLine(m) && m.uri != "" && m.protocol != ""
  {
    hide MethodToString;
    assert '\n' !in MethodToString(m.verb) && '\n' !in m.uri && '\n' !in m.protocol;
  }

  // A printed header line is read back as its name and value.
  lemma HeaderLineIs(name: string, value: string)
    requires LegalName(name) && LegalValue(value)
    ensures var line := name + ": " + value;
            HeaderName(line) == name && HeaderValue(line) == value && '\r' !in line && '\n' !in line && line != ""
  {
    hide Find, Trim;
    var line := name + ": " + value;
    HeaderLineParts(name, value);
    FindIs(name, ':', " " + value);
    TrimIs(value);
  }

  lemma HeaderLineParts(name: string, value: string)
    requires LegalName(name) && LegalValue(value)
    ensures var line := name + ": " + value;
            && line == name + [':'] + (" " + value) && line[|name| + 1..] == " " + value && line[..|name|] == name
            && '\r' !in line && '\n' !in line
  {}

  function Collect(headers: map<string, string>, pairs: seq<(string, string)>): map<string, string>
    decreases |pairs|
  {
    if pairs == [] then headers else Collect(headers[pairs[0].0 := pairs[0].1], pairs[1..])
  }

  // Reading one line of the header block.
  lemma ParseOneLine(line: string, tail: string, m: Message)
    requires '\r' !in line && '\n' !in line && line != ""
    ensures var (m', r) := ParseLine(line, m);
            ParseHeaders((line + "\r") + "\n" + tail, m) == if r.Threw? then (m', r) else ParseHeaders(tail, m')
  {
    GetLineIs(line + "\r", tail);
    RemoveCrIs(line);
    hide GetLine, RemoveCr, ParseLine;
  }

  lemma LineText(line: string, tail: string)
    ensures line + "\r\n" + tail == (line + "\r") + "\n" + tail
  {}

  // The front line of a printed block of headers.
  lemma HeaderBlockFront(name: string, value: string, tail: string, m: Message)
    requires LegalName(name) && LegalValue(value)
    ensures ParseHeaders(name + ": " + value + "\r\n" + tail, m) ==
            ParseHeaders(tail, m.(headers := m.headers[name := value]))
  {
    var line := name + ": " + value;
    HeaderLineIs(name, value);
    LineText(line, tail);
    ParseOneLine(line, tail, m);
    hide HeaderName, HeaderValue, ParseHeaders;
  }

  lemma EmptyLineEnds(body: string, m: Message)
    ensures ParseHeaders("\r\n" + body, m) == (m, Parsed)
  {
    GetLineIs("\r", body);
    assert "\r\n" + body == "\r" + "\n" + body;
    RemoveCrIs("");
    assert "" + "\r" == "\r";
  }

  lemma LegalTail(pairs: seq<(string, string)>)
    requires LegalPairs(pairs) && pairs != []
    ensures LegalName(pairs[0].0) && LegalValue(pairs[0].1) && LegalPairs(pairs[1..])
  {
    hide LegalName, LegalValue;
  }

  /** Any list of legal header lines, duplicates included, is read into the map in which the last
      line of a name wins; the empty line ends the headers whatever body follows. */
  lemma {:induction false} HeadersAreRead(pairs: seq<(string, string)>, body: string, m: Message)
    requires LegalPairs(pairs)
    ensures ParseHeaders(HeaderText(pairs) + ("\r\n" + body), m) == (m.(headers := Collect(m.headers, pairs)), Parsed)
    decreases |pairs|
  {
    hide ParseHeaders, LegalPairs, LegalName, LegalValue;
    var end := "\r\n" + body;
    if pairs == [] {
      assert HeaderText(pairs) + end == end;
      EmptyLineEnds(body, m);
    } else {
      LegalTail(pairs);
      var m' := m.(headers := m.headers[pairs[0].0 := pairs[0].1]);
      var first := pairs[0].0 + ": " + pairs[0].1 + "\r\n";
      HeadersAreRead(pairs[1..], body, m');
      HeaderBlockFront(pairs[0].0, pairs[0].1, HeaderText(pairs[1..]) + end, m);
      assert HeaderText(pairs) + end == first + (HeaderText(pairs[1..]) + end);
    }
  }

  lemma {:induction false} CollectOrder(order: seq<string>, headers: map<string, string>, start: map<string, string>)
    requires forall k :: k in order ==> k in headers
    ensures Collect(start, Pairs(order, headers)) == start + (map k | k in order :: headers[k])
    decreases |order|
  {
    var pairs := Pairs(order, headers);
    if order != [] {
      var rest := order[1..];
      assert pairs[1..] == Pairs(rest, headers);
      CollectOrder(rest, headers, start[order[0] := headers[order[0]]]);
      assert forall k :: k in order <==> k == order[0] || k in rest;
    }
  }

  lemma ParsePrinted(m: Message, order: seq<string>, m0: Message)
    requires Printable(m) && IsOrder(order, m.headers)
    ensures Parse(Print(m, order), m0) ==
            (m0.(verb := ParseMethod(MethodToString(m.verb)), uri := m.uri, protocol := m.protocol,
                 headers := m0.headers + m.headers), Parsed)
  {
    var pairs := Pairs(order, m.headers);
    var block := HeaderText(pairs) + ("\r\n" + m.body);
    var line := StartLine(m) + "\r";
    PairsLegal(m, order);
    RequestLineIs(m, m0);
    PrintIs(m, order);
    CollectAll(order, m.headers, m0.headers);
    hide Print, StartLine, HeaderText, Collect, Pairs, LegalPairs, Printable, MethodToString, ParseMethod;
    hide ParseHeaders, ParseRequestLine, GetLine;
    GetLineIs(line, block);
    HeadersAreRead(pairs, m.body, ParseRequestLine(line, m0));
  }

  lemma PrintIs(m: Message, order: seq<string>)
    requires forall k :: k in order ==> k in m.headers
    ensures Print(m, order) ==
            (StartLine(m) + "\r") + "\n" + (HeaderText(Pairs(order, m.headers)) + ("\r\n" + m.body))
  {
    hide StartLine, HeaderText, Pairs;
  }

  lemma CollectAll(order: seq<string>, headers: map<string, string>, start: map<string, string>)
    requires IsOrder(order, headers)
    ensures Collect(start, Pairs(order, headers)) == start + headers
  {
    CollectOrder(order, headers, start);
    assert (map k | k in order :: headers[k]) == headers;
  }

  lemma PairsLegal(m: Message, order: seq<string>)
    requires Printable(m) && forall k :: k in order ==> k in m.headers
    ensures LegalPairs(Pairs(order, m.headers))
  {
    hide LegalName, LegalValue;
  }

  /** Round trip: a printed request, in whatever order the headers came out and whatever the body,
      is parsed by a fresh message into the same URI, protocol and headers, and into the same
      method exactly when printing knows the method. */
  lemma RequestRoundTrip(m: Message, order: seq<string>)
    requires Printable(m) && IsOrder(order, m.headers)
    ensures var (m', r) := Parse(Print(m, order), FRESH);
            && r == Parsed && m'.uri == m.uri && m'.protocol == m.protocol && m'.headers == m.headers
            && (m'.verb == m.verb <==> m.verb !in {GET_PARAMETER, SET_PARAMETER, REDIRECT, ANNOUNCE, RECORD})
  {
    hide Parse, Print, Printable, ParseMethod, MethodToString;
    ParsePrinted(m, order, FRESH);
    MethodRoundTrip(m.verb);
    assert map[] + m.headers == m.headers;
  }

  // ---------------------------------------------------------------- the methods

  // Section 10 of RFC 2326.
  const METHODS: map<string, Method> := map[
    "OPTIONS" := OPTIONS, "DESCRIBE" := DESCRIBE, "SETUP" := SETUP, "PLAY" := PLAY, "PAUSE" := PAUSE,
    "TEARDOWN" := TEARDOWN, "GET_PARAMETER" := GET_PARAMETER, "SET_PARAMETER" := SET_PARAMETER,
    "REDIRECT" := REDIRECT, "ANNOUNCE" := ANNOUNCE, "RECORD" := RECORD]

  /** A method word means what the standard says, and any other word is no method. */
  lemma MethodsAreStandard(word: string)
    ensures ParseMethod(word) == if word in METHODS then METHODS[word] else UNKNOWN
  {}

  // ---------------------------------------------------------------- numbers

  predicate AllDigits(s: string) {
    forall i :: 0 <= i < |s| ==> '0' <= s[i] <= '9'
  }

  lemma {:induction false} NumberTextReads(n: nat)
    ensures NumberText(n) != "" && AllDigits(NumberText(n)) && Decimal(NumberText(n)) == n
  {
    var t := NumberText(n);
    if n < 10 {
      assert t[..|t| - 1] == "";
    } else {
      NumberTextReads(n / 10);
      assert t[..|t| - 1] == NumberText(n / 10);
    }
  }

  // Known texts fix the base and the order of the digits.
  lemma NumberExamples()
    ensures NumberText(0) == "0" && NumberText(200) == "200" && NumberText(4096) == "4096"
    ensures Decimal("200") == 200 && Decimal("4096") == 4096
  {
    assert NumberText(2) == "2" && NumberText(20) == "20";
    assert NumberText(4) == "4" && NumberText(40) == "40" && NumberText(409) == "409";
    NumberTextReads(200);
    NumberTextReads(4096);
  }

  lemma {:induction false} DigitCountIs(s: string, tail: string)
    requires AllDigits(s) && (tail == "" || !IsDigit(tail[0]))
    ensures DigitCount(s + tail) == |s|
  {
    if s == "" {
      assert s + tail == tail;
    } else {
      assert (s + tail)[1..] == s[1..] + tail;
      DigitCountIs(s[1..], tail);
    }
  }

  /** std::stoi on decimal digits, whatever but a digit follows them: their number if an int can hold
      it, with or without a sign, and an exception otherwise; and an exception for anything that
      does not begin with a number. */
  lemma StoiReads(t: string, garbage: string)
    requires t != "" && AllDigits(t) && (garbage == "" || !IsDigit(garbage[0]))
    ensures var n: int := Decimal(t);
            && Stoi(t + garbage) == (if n <= 2147483647 then Some(n) else None)
            && Stoi("+" + (t + garbage)) == Stoi(t + garbage)
            && Stoi("-" + (t + garbage)) == (if n <= 2147483648 then Some(-n) else None)
  {
    hide Decimal, DigitCount, SkipSpaces;
    var u := t + garbage;
    DigitCountIs(t, garbage);
    assert u[..|t|] == t && ("-" + u)[1..] == u && ("+" + u)[1..] == u;
    NoSpaces(u);
    NoSpaces("-" + u);
    NoSpaces("+" + u);
  }

  lemma NoSpaces(s: string)
    requires s != "" && !IsSpace(s[0])
    ensures SkipSpaces(s) == s
  {}

  lemma StoiRefuses(s: string)
    requires s == "" || !(IsSpace(s[0]) || IsDigit(s[0]) || s[0] == '+' || s[0] == '-')
    ensures Stoi(s) == None
  {}

  // ---------------------------------------------------------------- single lines

  lemma {:induction false} RemoveCrConcat(a: string, b: string)
    ensures RemoveCr(a + b) == RemoveCr(a) + RemoveCr(b)
  {
    if a == "" {
      assert a + b == b;
    } else {
      assert (a + b)[1..] == a[1..] + b;
      RemoveCrConcat(a[1..], b);
    }
  }

  lemma {:induction false} RemoveCrNothing(s: string)
    requires '\r' !in s
    ensures RemoveCr(s) == s
  {
    if s != "" { RemoveCrNothing(s[1..]); }
  }

  /** It does not matter whether a line ends in CR LF or in LF alone. */
  lemma LineEndsAlike(line: string, tail: string, m: Message)
    requires '\r' !in line && '\n' !in line
    ensures ParseHeaders(line + "\n" + tail, m) == ParseHeaders((line + "\r") + "\n" + tail, m)
  {
    hide ParseLine, RemoveCr, GetLine;
    GetLineIs(line, tail);
    GetLineIs(line + "\r", tail);
    RemoveCrNothing(line);
    RemoveCrIs(line);
  }

  /** A header line without a value, with or without a colon, ends the parse with an exception and
      leaves what was read before it. */
  lemma EmptyValueThrows(name: string, blanks: string, tail: string, m: Message)
    requires name != "" && ':' !in name && '\r' !in name && '\n' !in name
    requires forall i :: 0 <= i < |blanks| ==> blanks[i] == ' '
    ensures ParseHeaders((name + "\r") + "\n" + tail, m) == (m, Threw)
    ensures ParseHeaders((name + ":" + blanks + "\r") + "\n" + tail, m) == (m, Threw)
  {
    hide ParseHeaders, Trim, Find;
    var line := name + [':'] + blanks;
    NoFind(name, ':');
    BlankTrims("");
    assert HeaderValue(name) == "";
    ParseOneLine(name, tail, m);
    FindIs(name, ':', blanks);
    BlankTrims(blanks);
    assert line[|name| + 1..] == blanks;
    assert '\r' !in line && '\n' !in line;
    assert line == name + ":" + blanks;
    ParseOneLine(line, tail, m);
  }

  lemma {:induction false} NoFind(s: string, c: char)
    requires c !in s
    ensures Find(s, c) == |s|
  {
    if s != "" { NoFind(s[1..], c); }
  }

  lemma {:induction false} BlankTrims(s: string)
    requires forall i :: 0 <= i < |s| ==> s[i] == ' '
    ensures Trim(s) == ""
  {
    if s != "" {
      BlankTrims(s[1..]);
      assert TrimFront(s) == TrimFront(s[1..]);
    }
  }

  /** A CSeq line sets the sequence number of the message to the number it gives; it is no entry of
      the header map, and a number that is none, or that no int holds, is an exception. */
  lemma CSeqIsRead(text: string, n: nat, tail: string, m: Message)
    requires text == NumberText(n)
    ensures ParseHeaders("CSeq: " + text + "\r\n" + tail, m) ==
            if n <= 2147483647 then ParseHeaders(tail, m.(cseq := n)) else (m, Threw)
    ensures ParseHeaders("CSeq: " + ("-" + text) + "\r\n" + tail, m) ==
            if n <= 2147483648 then ParseHeaders(tail, m.(cseq := if n == 0 then 0 else 4294967296 - n)) else (m, Threw)
  {
    hide ParseHeaders, Stoi, NumberText, Decimal, HeaderName, HeaderValue;
    NumberTextReads(n);
    DigitsAreLegal(text);
    assert text + "" == text;
    StoiReads(text, "");
    CSeqLine(text, tail, m);
    CSeqLine("-" + text, tail, m);
  }

  lemma CSeqLine(value: string, tail: string, m: Message)
    requires LegalValue(value)
    ensures ParseHeaders("CSeq: " + value + "\r\n" + tail, m) ==
            match Stoi(value)
            case None => (m, Threw)
            case Some(n) => ParseHeaders(tail, m.(cseq := Unsigned(n)))
  {
    hide ParseHeaders, Stoi, HeaderName, HeaderValue;
    CSeqLineIs(value);
    LineText("CSeq: " + value, tail);
    ParseOneLine("CSeq: " + value, tail, m);
  }

  lemma DigitsAreLegal(s: string)
    requires s != "" && AllDigits(s)
    ensures LegalValue(s) && LegalValue("-" + s)
  {}

  lemma CSeqLineIs(value: string)
    requires LegalValue(value)
    ensures var line := "CSeq: " + value;
            HeaderName(line) == "CSeq" && HeaderValue(line) == value && '\r' !in line && '\n' !in line && line != ""
  {
    hide Find, Trim;
    var line, name := "CSeq: " + value, "CSeq";
    assert line == name + [':'] + (" " + value);
    FindIs(name, ':', " " + value);
    assert line[|name| + 1..] == " " + value && line[..|name|] == name;
    TrimIs(value);
  }

  lemma BadCSeqThrows(value: string, tail: string, m: Message)
    requires LegalValue(value) && !(IsSpace(value[0]) || IsDigit(value[0]) || value[0] == '+' || value[0] == '-')
    ensures ParseHeaders("CSeq: " + value + "\r\n" + tail, m) == (m, Threw)
  {
    hide ParseHeaders, Stoi;
    StoiRefuses(value);
    CSeqLine(value, tail, m);
  }

  /** Of the lines with one name the last wins, and a name without a line keeps its old value. */
  lemma {:induction false} LastLineWins(headers: map<string, string>, pairs: seq<(string, string)>, name: string)
    ensures var c := Collect(headers, pairs);
            if exists i :: 0 <= i < |pairs| && pairs[i].0 == name then
              name in c && exists i :: 0 <= i < |pairs| && LastOf(pairs, name, i) && c[name] == pairs[i].1
            else
              (name in c <==> name in headers) && (name in headers ==> c[name] == headers[name])
    decreases |pairs|
  {
    if pairs != [] {
      var rest, h' := pairs[1..], headers[pairs[0].0 := pairs[0].1];
      LastLineWins(h', rest, name);
      if exists i :: 0 <= i < |rest| && rest[i].0 == name {
        var i :| 0 <= i < |rest| && LastOf(rest, name, i) && Collect(h', rest)[name] == rest[i].1;
        assert pairs[i + 1] == rest[i];
        LastOfRest(pairs, name, i);
      } else if pairs[0].0 == name {
        assert forall i :: 0 < i < |pairs| ==> pairs[i] == rest[i - 1];
        assert LastOf(pairs, name, 0);
      } else {
        assert forall i :: 0 < i < |pairs| ==> pairs[i] == rest[i - 1];
      }
    }
  }

  predicate LastOf(pairs: seq<(string, string)>, name: string, i: int) {
    0 <= i < |pairs| && pairs[i].0 == name && forall j :: i < j < |pairs| ==> pairs[j].0 != name
  }

  lemma LastOfRest(pairs: seq<(string, string)>, name: string, i: int)
    requires pairs != [] && LastOf(pairs[1..], name, i)
    ensures LastOf(pairs, name, i + 1)
  {
    forall j | i + 1 < j < |pairs| ensures pairs[j].0 != name {
      assert pairs[j] == pairs[1..][j - 1];
    }
  }

  /** A request line short of words leaves the missing fields as they were. */
  lemma ShortRequestLine(w1: string, w2: string, m: Message)
    requires IsWord(w1) && IsWord(w2)
    ensures ParseRequestLine(w1 + "\r", m) == m.(verb := ParseMethod(w1))
    ensures ParseRequestLine(w1 + (" " + (w2 + "\r")), m) == m.(verb := ParseMethod(w1), uri := w2)
    ensures ParseRequestLine("\r", m) == m.(verb := UNKNOWN)
  {
    hide ParseMethod, Word;
    WordIs(w1, "\r");
    WordIs(w1, " " + (w2 + "\r"));
    WordIs(w2, "\r");
    NoWord();
    MethodsAreStandard("");
  }

  /** Only text without any line at all is no message. */
  lemma NoDataIsNoLine(data: string, m: Message)
    ensures Parse(data, m).1 == NoData <==> data == ""
    ensures data == "" ==> Parse(data, m).0 == m
  {
    hide ParseHeaders, ParseRequestLine;
    if data != "" { HeadersAreNoData(GetLine(data).1, ParseRequestLine(GetLine(data).0, m)); }
  }

  lemma NoWord()
    ensures Word("\r") == ("", "") && Word("") == ("", "")
  {
    assert "\r"[1..] == "";
  }

  lemma {:induction false} HeadersAreNoData(rest: string, m: Message)
    ensures ParseHeaders(rest, m).1 != NoData
    decreases |rest|
  {
    hide ParseLine;
    if rest != "" {
      var (raw, after) := GetLine(rest);
      var line := RemoveCr(raw);
      if line != "" {
        LineIsNoData(line, m);
        HeadersAreNoData(after, ParseLine(line, m).0);
      }
    }
  }

  lemma LineIsNoData(line: string, m: Message)
    ensures ParseLine(line, m).1 != NoData
  {}

  // ---------------------------------------------------------------- responses

  // A response as a client of section 7 of RFC 2326 reads it: a status line of version, code and
  // reason phrase with one space between them, header lines, an empty line, and the body.
  datatype Response = Response(protocol: string, code: nat, reason: string, headers: map<string, string>, body: string)

  // What comes before the first c and what comes after it.
  function CutAt(s: string, c: char): Option<(string, string)> {
    var i := Find(s, c);
    if i == |s| then None else Some((s[..i], s[i + 1..]))
  }

  function ReadLine(s: string): (r: Option<(string, string)>)
    ensures r.Some? ==> |r.value.1| < |s|
  {
    match CutAt(s, '\n')
    case None => None
    case Some((line, rest)) =>
      if line == "" || line[|line| - 1] != '\r' then None else Some((line[..|line| - 1], rest))
  }

  function ReadCode(s: string): Option<nat> {
    if s == "" || !AllDigits(s) then None else Some(Decimal(s))
  }

  function ReadFields(s: string, headers: map<string, string>): Option<(map<string, string>, string)>
    decreases |s|
  {
    match ReadLine(s)
    case None => None
    case Some((line, rest)) =>
      if line == "" then Some((headers, rest))
      else
        match CutAt(line, ':')
        case None => None
        case Some((name, text)) =>
          if text == "" || text[0] != ' ' then None else ReadFields(rest, headers[name := text[1..]])
  }

  function ReadResponse(text: string): Option<Response> {
    match ReadLine(text)
    case None => None
    case Some((line, rest)) =>
      match CutAt(line, ' ')
      case None => None
      case Some((protocol, codeAndReason)) =>
        match CutAt(codeAndReason, ' ')
        case None => None
        case Some((code, reason)) =>
          match (ReadCode(code), ReadFields(rest, map[]))
          case (Some(n), Some((headers, body))) => Some(Response(protocol, n, reason, headers, body))
          case _ => None
  }

  // Names and values that fit a header line.
  predicate OneLine(s: string) { '\r' !in s && '\n' !in s }

  predicate PlainPairs(pairs: seq<(string, string)>) {
    forall i :: 0 <= i < |pairs| ==> OneLine(pairs[i].0) && ':' !in pairs[i].0 && OneLine(pairs[i].1)
  }

  lemma CutIs(a: string, c: char, b: string)
    requires c !in a
    ensures CutAt(a + [c] + b, c) == Some((a, b))
  {
    FindIs(a, c, b);
    var s := a + [c] + b;
    assert s[..|a|] == a && s[|a| + 1..] == b;
  }

  lemma ReadLineIs(line: string, rest: string)
    requires OneLine(line)
    ensures ReadLine(line + "\r\n" + rest) == Some((line, rest))
  {
    hide CutAt;
    var raw := line + "\r";
    assert '\n' !in raw;
    CutIs(raw, '\n', rest);
    assert line + "\r\n" + rest == raw + ['\n'] + rest;
    assert raw[..|raw| - 1] == line;
  }

  lemma FieldIsRead(name: string, value: string, tail: string, headers: map<string, string>)
    requires OneLine(name) && ':' !in name && OneLine(value)
    ensures ReadFields(name + ": " + value + "\r\n" + tail, headers) == ReadFields(tail, headers[name := value])
  {
    hide CutAt, ReadLine;
    var line := name + ": " + value;
    assert OneLine(line) && line != "";
    ReadLineIs(line, tail);
    assert line == name + [':'] + (" " + value);
    CutIs(name, ':', " " + value);
    assert (" " + value)[1..] == value;
  }

  lemma PlainTail(pairs: seq<(string, string)>)
    requires PlainPairs(pairs) && pairs != []
    ensures OneLine(pairs[0].0) && ':' !in pairs[0].0 && OneLine(pairs[0].1) && PlainPairs(pairs[1..])
  {
    hide OneLine;
  }

  lemma {:induction false} FieldsAreRead(pairs: seq<(string, string)>, body: string, headers: map<string, string>)
    requires PlainPairs(pairs)
    ensures ReadFields(HeaderText(pairs) + ("\r\n" + body), headers) == Some((Collect(headers, pairs), body))
    decreases |pairs|
  {
    hide PlainPairs, OneLine, ReadFields;
    var end := "\r\n" + body;
    if pairs == [] {
      BodyIsRead(body, headers);
      assert HeaderText(pairs) + end == end;
    } else {
      PlainTail(pairs);
      var (name, value) := pairs[0];
      FieldsAreRead(pairs[1..], body, headers[name := value]);
      FieldIsRead(name, value, HeaderText(pairs[1..]) + end, headers);
      assert HeaderText(pairs) + end == name + ": " + value + "\r\n" + (HeaderText(pairs[1..]) + end);
    }
  }

  lemma BodyIsRead(body: string, headers: map<string, string>)
    ensures ReadFields("\r\n" + body, headers) == Some((headers, body))
  {
    hide ReadLine;
    ReadLineIs("", body);
    assert "" + "\r\n" + body == "\r\n" + body;
  }

  /** The reason phrases the server knows. */
  lemma Reasons(code: nat)
    ensures StatusToString(100) == "Continue" && StatusToString(200) == "OK" && StatusToString(201) == "Created"
    ensures code !in {100, 200, 201} ==> StatusToString(code) == "Unknown"
  {}

  lemma StatusLineIs(m: Message)
    requires m.status != UNSET && ' ' !in m.protocol && OneLine(m.protocol)
    ensures StartLine(m) == m.protocol + [' '] + (NumberText(m.status) + [' '] + StatusToString(m.status))
    ensures OneLine(StartLine(m)) && ' ' !in NumberText(m.status)
  {
    hide NumberText;
    NumberTextReads(m.status);
  }

  /** Every response the server prints is read by such a client: protocol, decimal status code,
      reason phrase, header map and body come back, whatever the order of the headers. */
  lemma ResponseRoundTrip(m: Message, order: seq<string>)
    requires m.status != UNSET && ' ' !in m.protocol && OneLine(m.protocol) && IsOrder(order, m.headers)
    requires forall k :: k in m.headers ==> OneLine(k) && ':' !in k && OneLine(m.headers[k])
    ensures ReadResponse(Print(m, order)) ==
            Some(Response(m.protocol, m.status, StatusToString(m.status), m.headers, m.body))
  {
    var pairs, code, reason := Pairs(order, m.headers), NumberText(m.status), StatusToString(m.status);
    assert PlainPairs(pairs);
    hide ReadLine, ReadFields, CutAt, NumberText, StatusToString, StartLine, HeaderText, Pairs, PlainPairs, OneLine;
    hide Collect;
    StatusLineIs(m);
    NumberTextReads(m.status);
    ReadLineIs(StartLine(m), HeaderText(pairs) + ("\r\n" + m.body));
    CutIs(m.protocol, ' ', code + [' '] + reason);
    CutIs(code, ' ', reason);
    FieldsAreRead(pairs, m.body, map[]);
    CollectAll(order, m.headers, map[]);
    assert map[] + m.headers == m.headers;
  }

  // ---------------------------------------------------------------- normal form

  predicate HeadersLegal(headers: map<string, string>) {
    forall k :: k in headers ==> LegalName(k) && LegalValue(headers[k])
  }

  lemma TrimMeans(s: string)
    ensures Trim(s) != "" ==> Trim(s)[0] != ' ' && Trim(s)[|Trim(s)| - 1] != ' '
    ensures forall c :: c in Trim(s) ==> c in s
  {}

  lemma ParseLineLegal(line: string, m: Message)
    requires HeadersLegal(m.headers) && '\r' !in line && '\n' !in line
    ensures var (m', _) := ParseLine(line, m);
            HeadersLegal(m'.headers) && m' == m.(headers := m'.headers, cseq := m'.cseq)
  {
    var i := Find(line, ':');
    TrimMeans(if i < |line| then line[i + 1..] else "");
    assert forall c :: c in line[..i] ==> c in line;
    assert i < |line| ==> forall c :: c in line[i + 1..] ==> c in line;
    assert HeaderValue(line) != "" && HeaderName(line) != "CSeq" ==>
      LegalName(HeaderName(line)) && LegalValue(HeaderValue(line));
    hide LegalName, LegalValue, HeaderName, HeaderValue, Stoi;
  }

  lemma {:induction false} ParseHeadersLegal(rest: string, m: Message)
    requires HeadersLegal(m.headers)
    ensures var (m', _) := ParseHeaders(rest, m);
            HeadersLegal(m'.headers) && m' == m.(headers := m'.headers, cseq := m'.cseq)
    decreases |rest|
  {
    hide HeadersLegal, ParseLine;
    if rest != "" {
      var (raw, after) := GetLine(rest);
      var line := RemoveCr(raw);
      if line != "" {
        ParseLineLegal(line, m);
        ParseHeadersLegal(after, ParseLine(line, m).0);
      }
    }
  }

  // Three words on the request line.
  predicate FullRequestLine(data: string) {
    data != "" && var t1 := Word(GetLine(data).0).1; Word(Word(t1).1).0 != ""
  }

  lemma ParsedIsPrintable(data: string)
    requires FullRequestLine(data)
    ensures var m := Parse(data, FRESH).0; Printable(m) && m.body == "" && m.status == UNSET
  {
    var (line, rest) := GetLine(data);
    var m := ParseRequestLine(line, FRESH);
    ThirdWord(line);
    assert IsWord(m.uri) && IsWord(m.protocol);
    ParseHeadersLegal(rest, m);
    hide ParseHeaders, GetLine, LegalName, LegalValue, Word;
  }

  lemma ThirdWord(line: string)
    ensures var (w1, t1) := Word(line);
            var (w2, t2) := Word(t1);
            Word(t2).0 != "" ==> w2 != ""
  {
    var (w1, t1) := Word(line);
    var (w2, t2) := Word(t1);
    var t := SkipSpaces(t1);
    if w2 == "" {
      assert t == "";
    }
  }

  /** Whatever text was parsed, its result is in printable form, so printing and parsing it again
      changes neither URI nor protocol nor headers, and printing that again gives the same text. */
  lemma ParsePrintParse(data: string, order: seq<string>)
    requires FullRequestLine(data) && Parse(data, FRESH).1.Parsed?
    requires IsOrder(order, Parse(data, FRESH).0.headers)
    ensures var m := Parse(data, FRESH).0;
            var (m', r) := Parse(Print(m, order), FRESH);
            && r == Parsed && m'.uri == m.uri && m'.protocol == m.protocol && m'.headers == m.headers
            && Print(m', order) == Print(m, order)
  {
    hide Parse, FullRequestLine, MethodToString, ParseMethod, Printable, StartLine;
    var m := Parse(data, FRESH).0;
    ParsedIsPrintable(data);
    ParsePrinted(m, order, FRESH);
    assert map[] + m.headers == m.headers;
    var m' := Parse(Print(m, order), FRESH).0;
    PrintIsStable(m, m');
  }

  lemma PrintIsStable(m: Message, m': Message)
    requires m.status == m'.status == UNSET && m'.verb == ParseMethod(MethodToString(m.verb))
    requires m'.uri == m.uri && m'.protocol == m.protocol
    ensures StartLine(m') == StartLine(m)
  {}
}
