/** The RFC 5424 line the exporter writes for an event, and a reader that follows the grammar
    of the RFC: what is written is read back.
 */
module Syslog {
  import opened Decimal
  import opened Options

  // ----- writing -----

  /** score is the text of a number with two decimals, timestamp the text of a time in UTC. */
  datatype Event = Event(
    timestamp: Option<string>, domain: string, clientIp: string, action: string, isSuspicious: bool,
    score: string, detectionMethod: string, threatReason: string)

  const FACILITY_LOCAL0 := 16
  const SD_ID := "hydradns@32473"

  predicate NeedsEscape(c: char) {
    c == '\\' || c == '"' || c == ']'
  }

  function EscapeSD(s: string): string {
    if s == "" then ""
    else if NeedsEscape(s[0]) then ['\\', s[0]] + EscapeSD(s[1..])
    else [s[0]] + EscapeSD(s[1..])
  }

  function SeverityFor(action: string): (r: nat)
    ensures r < 8
  {
    if action == "error" then 3
    else if action == "flagged" then 4
    else if action == "block" || action == "redirect" then 5
    else 6
  }

  function NilIfEmpty(s: string): (r: string)
    ensures r != ""
  {
    if s == "" then "-" else s
  }

  /** A parameter with the text that goes between the quotes. */
  datatype Param = Param(name: string, text: string)

  function Render(ps: seq<Param>): string {
    if |ps| == 0 then "" else " " + ps[0].name + "=\"" + ps[0].text + "\"" + Render(ps[1..])
  }

  function Element(id: string, ps: seq<Param>): string {
    "[" + id + Render(ps) + "]"
  }

  function Params(ev: Event): seq<Param> {
    [Param("domain", EscapeSD(ev.domain)),
     Param("client", EscapeSD(ev.clientIp)),
     Param("action", EscapeSD(ev.action)),
     Param("suspicious", if ev.isSuspicious then "true" else "false"),
     Param("score", ev.score),
     Param("method", EscapeSD(ev.detectionMethod)),
     Param("reason", EscapeSD(ev.threatReason))]
  }

  function Message(ev: Event): string {
    "dns query domain=" + ev.domain + " client=" + ev.clientIp + " action=" + ev.action
  }

  function Priority(ev: Event): nat {
    FACILITY_LOCAL0 * 8 + SeverityFor(ev.action)
  }

  function TimestampText(ev: Event): string {
    if ev.timestamp.None? then "-" else ev.timestamp.value
  }

  /** VERSION TIMESTAMP HOSTNAME APP-NAME PROCID MSGID. */
  function Header(hostname: string, appName: string, procId: string, ev: Event): seq<string> {
    ["1", TimestampText(ev), NilIfEmpty(hostname), NilIfEmpty(appName), NilIfEmpty(procId), "DNSQUERY"]
  }

  function Fields(fs: seq<string>): string {
    if |fs| == 0 then "" else fs[0] + " " + Fields(fs[1..])
  }

  function Format(hostname: string, appName: string, procId: string, ev: Event): string {
    "<" + Numeral(Priority(ev)) + ">" + Fields(Header(hostname, appName, procId, ev))
    + Element(SD_ID, Params(ev)) + " " + Message(ev)
  }

  // ----- reading, by sections 6 and 6.3 of RFC 5424 -----

  /** SD-NAME: printable ASCII other than '=', space, ']' and '"'. */
  predicate IsNameChar(c: char) {
    33 as char <= c <= 126 as char && c != '=' && c != ']' && c != '"'
  }

  function ReadName(s: string): (r: (string, string))
    ensures |r.1| <= |s|
  {
    if s != "" && IsNameChar(s[0]) then
      var (name, rest) := ReadName(s[1..]);
      ([s[0]] + name, rest)
    else ("", s)
  }

  /** PARAM-VALUE up to its closing quote; a backslash that escapes nothing is itself, a bare
      ']' is an error. */
  function ReadValue(s: string): (r: Option<(string, string)>)
    ensures r.Some? ==> |r.value.1| < |s|
  {
    if s == "" || s[0] == ']' then None
    else if s[0] == '"' then Some(("", s[1..]))
    else
      var escape := s[0] == '\\' && |s| > 1 && NeedsEscape(s[1]);
      var c := if escape then s[1] else s[0];
      var r := ReadValue(if escape then s[2..] else s[1..]);
      if r.None? then None else Some(([c] + r.value.0, r.value.1))
  }

  datatype SdParam = SdParam(name: string, value: string)

  function ReadParams(s: string): Option<(seq<SdParam>, string)>
    decreases |s|
  {
    if s == "" then None
    else if s[0] == ']' then Some(([], s[1..]))
    else if s[0] != ' ' then None
    else
      var (name, rest) := ReadName(s[1..]);
      if name == "" || |rest| < 2 || rest[0] != '=' || rest[1] != '"' then None
      else
        var v := ReadValue(rest[2..]);
        if v.None? then None
        else
          var more := ReadParams(v.value.1);
          if more.None? then None else Some(([SdParam(name, v.value.0)] + more.value.0, more.value.1))
  }

  datatype SdElement = SdElement(id: string, params: seq<SdParam>)

  function ReadElement(s: string): Option<(SdElement, string)> {
    if s == "" || s[0] != '[' then None
    else
      var (id, rest) := ReadName(s[1..]);
      var ps := ReadParams(rest);
      if id == "" || ps.None? then None else Some((SdElement(id, ps.value.0), ps.value.1))
  }

  /** Text up to the first c, and what follows it. */
  function ReadTo(s: string, c: char): Option<(string, string)> {
    if s == "" then None
    else if s[0] == c then Some(("", s[1..]))
    else
      var r := ReadTo(s[1..], c);
      if r.None? then None else Some(([s[0]] + r.value.0, r.value.1))
  }

  /** n space-terminated header fields. */
  function ReadFields(s: string, n: nat): Option<(seq<string>, string)>
    decreases n
  {
    if n == 0 then Some(([], s))
    else
      var f := ReadTo(s, ' ');
      if f.None? then None
      else
        var r := ReadFields(f.value.1, n - 1);
        if r.None? then None else Some(([f.value.0] + r.value.0, r.value.1))
  }

  /** PRI, then VERSION TIMESTAMP HOSTNAME APP-NAME PROCID MSGID, one SD-ELEMENT, and MSG. */
  datatype Line = Line(pri: string, header: seq<string>, element: SdElement, msg: string)

  function ReadLine(s: string): Option<Line> {
    if s == "" || s[0] != '<' then None
    else
      var pri := ReadTo(s[1..], '>');
      if pri.None? then None
      else
        var fields := ReadFields(pri.value.1, 6);
        if fields.None? then None
        else
          var el := ReadElement(fields.value.1);
          if el.None? || el.value.1 == "" || el.value.1[0] != ' ' then None
          else Some(Line(pri.value.0, fields.value.0, el.value.0, el.value.1[1..]))
  }

  // ----- escaping -----

  /** Reading an escaped value gives the value back, whatever follows the closing quote. */
  lemma {:induction false} ValueRoundTrip(v: string, rest: string)
    ensures ReadValue(EscapeSD(v) + "\"" + rest) == Some((v, rest))
  {
    var s := EscapeSD(v) + "\"" + rest;
    if v == "" {
      assert s[1..] == rest;
    } else {
      var tail := EscapeSD(v[1..]) + "\"" + rest;
      ValueRoundTrip(v[1..], rest);
      if NeedsEscape(v[0]) {
        assert s == ['\\', v[0]] + tail;
        assert s[2..] == tail;
      } else {
        assert s == [v[0]] + tail;
        assert s[1..] == tail;
      }
      assert v == [v[0]] + v[1..];
    }
  }

  lemma EscapeIsInjective(v: string, w: string)
    requires EscapeSD(v) == EscapeSD(w)
    ensures v == w
  {
    ValueRoundTrip(v, "");
    ValueRoundTrip(w, "");
  }

  /** Every quote and closing bracket is escaped, and every backslash escapes something. */
  predicate NothingBare(s: string) {
    if s == "" then true
    else if s[0] == '\\' then |s| > 1 && NeedsEscape(s[1]) && NothingBare(s[2..])
    else s[0] != '"' && s[0] != ']' && NothingBare(s[1..])
  }

  lemma {:induction false} EscapedHasNothingBare(v: string)
    ensures NothingBare(EscapeSD(v))
  {
    if v != "" {
      EscapedHasNothingBare(v[1..]);
      var e := EscapeSD(v);
      if NeedsEscape(v[0]) {
        assert e[2..] == EscapeSD(v[1..]);
      } else {
        assert e[1..] == EscapeSD(v[1..]);
      }
    }
  }

  ghost predicate Plain(s: string) {
    forall i :: 0 <= i < |s| ==> !NeedsEscape(s[i])
  }

  lemma {:induction false} PlainNeedsNoEscape(s: string)
    requires Plain(s)
    ensures EscapeSD(s) == s
  {
    if s != "" {
      PlainNeedsNoEscape(s[1..]);
    }
  }

  // ----- the element -----

  ghost predicate IsName(s: string) {
    s != "" && forall i :: 0 <= i < |s| ==> IsNameChar(s[i])
  }

  lemma {:induction false} NameRoundTrip(name: string, rest: string)
    requires forall i :: 0 <= i < |name| ==> IsNameChar(name[i])
    requires rest == "" || !IsNameChar(rest[0])
    ensures ReadName(name + rest) == (name, rest)
  {
    if name != "" {
      NameRoundTrip(name[1..], rest);
      assert (name + rest)[1..] == name[1..] + rest;
      assert name == [name[0]] + name[1..];
    } else {
      assert name + rest == rest;
    }
  }

  /** Texts are the escaped forms of values. */
  ghost predicate Carries(ps: seq<Param>, values: seq<SdParam>) {
    && |ps| == |values|
    && forall i :: 0 <= i < |ps| ==>
         ps[i].name == values[i].name && IsName(ps[i].name) && ps[i].text == EscapeSD(values[i].value)
  }

  /** One parameter is read off the front. */
  lemma ParamStep(p: Param, value: string, tail: string)
    requires IsName(p.name) && p.text == EscapeSD(value)
    ensures var more := ReadParams(tail);
            ReadParams(" " + p.name + "=\"" + p.text + "\"" + tail) ==
            if more.None? then None else Some(([SdParam(p.name, value)] + more.value.0, more.value.1))
  {
    var after := p.text + "\"" + tail;
    var named := "=\"" + after;
    var s := " " + p.name + "=\"" + p.text + "\"" + tail;
    assert s == " " + (p.name + named);
    assert s[1..] == p.name + named;
    NameRoundTrip(p.name, named);
    assert named[2..] == after;
    ValueRoundTrip(value, tail);
  }

  lemma RenderFirst(ps: seq<Param>, rest: string)
    requires |ps| > 0
    ensures Render(ps) + "]" + rest == " " + ps[0].name + "=\"" + ps[0].text + "\"" + (Render(ps[1..]) + "]" + rest)
  {
    var first, more := " " + ps[0].name + "=\"" + ps[0].text + "\"", Render(ps[1..]);
    assert Render(ps) == first + more;
    AppendTwice(first, more, "]", rest);
  }

  lemma AppendTwice(a: string, b: string, c: string, d: string)
    ensures a + b + c + d == a + (b + c + d)
  {
    assert a + b + c + d == a + b + (c + d);
  }

  lemma {:induction false} ParamsRoundTrip(ps: seq<Param>, values: seq<SdParam>, rest: string)
    requires Carries(ps, values)
    ensures ReadParams(Render(ps) + "]" + rest) == Some((values, rest))
  {
    var s := Render(ps) + "]" + rest;
    if |ps| == 0 {
      assert s[1..] == rest;
    } else {
      var p, tail := ps[0], Render(ps[1..]) + "]" + rest;
      ParamsRoundTrip(ps[1..], values[1..], rest);
      RenderFirst(ps, rest);
      ParamStep(p, values[0].value, tail);
      assert values == [values[0]] + values[1..];
    }
  }

  lemma ElementRoundTrip(id: string, ps: seq<Param>, values: seq<SdParam>, rest: string)
    requires IsName(id) && Carries(ps, values)
    ensures ReadElement(Element(id, ps) + rest) == Some((SdElement(id, values), rest))
  {
    var s, tail := Element(id, ps) + rest, Render(ps) + "]" + rest;
    assert s[1..] == id + tail;
    NameRoundTrip(id, tail);
    ParamsRoundTrip(ps, values, rest);
  }

  /** The seven values of an event, as a reader should see them. */
  function Values(ev: Event): seq<SdParam> {
    [SdParam("domain", ev.domain),
     SdParam("client", ev.clientIp),
     SdParam("action", ev.action),
     SdParam("suspicious", if ev.isSuspicious then "true" else "false"),
     SdParam("score", ev.score),
     SdParam("method", ev.detectionMethod),
     SdParam("reason", ev.threatReason)]
  }

  lemma NamesAreNames()
    ensures IsName("domain") && IsName("client") && IsName("action") && IsName("suspicious")
    ensures IsName("score") && IsName("method") && IsName("reason")
  {
  }

  lemma EventCarriesValue(ev: Event, i: nat)
    requires Plain(ev.score) && i < 7
    ensures var p, v := Params(ev)[i], Values(ev)[i];
            p.name == v.name && IsName(p.name) && p.text == EscapeSD(v.value)
  {
    NamesAreNames();
    if i == 3 {
      PlainNeedsNoEscape(if ev.isSuspicious then "true" else "false");
    } else if i == 4 {
      PlainNeedsNoEscape(ev.score);
    }
  }

  lemma EventCarriesValues(ev: Event)
    requires Plain(ev.score)
    ensures Carries(Params(ev), Values(ev))
  {
    forall i | 0 <= i < 7
      ensures var p, v := Params(ev)[i], Values(ev)[i];
              p.name == v.name && IsName(p.name) && p.text == EscapeSD(v.value)
    {
      EventCarriesValue(ev, i);
    }
  }

  /** Main result: whatever strings an event holds, a reader of the structured data gets back
      all seven of them. */
  lemma EventElementRoundTrip(ev: Event, rest: string)
    requires Plain(ev.score)
    ensures ReadElement(Element(SD_ID, Params(ev)) + rest) == Some((SdElement(SD_ID, Values(ev)), rest))
  {
    EventCarriesValues(ev);
    ElementRoundTrip(SD_ID, Params(ev), Values(ev), rest);
  }

  // ----- the line -----

  lemma {:induction false} ReadToStops(field: string, c: char, rest: string)
    requires c !in field
    ensures ReadTo(field + [c] + rest, c) == Some((field, rest))
  {
    var s := field + [c] + rest;
    if field == "" {
      assert s[1..] == rest;
    } else {
      assert s[1..] == field[1..] + [c] + rest;
      ReadToStops(field[1..], c, rest);
      assert field == [field[0]] + field[1..];
    }
  }

  lemma {:induction false} FieldsRoundTrip(fs: seq<string>, rest: string)
    requires forall i :: 0 <= i < |fs| ==> ' ' !in fs[i]
    ensures ReadFields(Fields(fs) + rest, |fs|) == Some((fs, rest))
  {
    if |fs| == 0 {
      assert Fields(fs) + rest == rest;
    } else {
      var tail := Fields(fs[1..]) + rest;
      assert Fields(fs) + rest == fs[0] + [' '] + tail;
      ReadToStops(fs[0], ' ', tail);
      FieldsRoundTrip(fs[1..], rest);
      assert fs == [fs[0]] + fs[1..];
    }
  }

  lemma LineParts(pri: string, fs: seq<string>, body: string, el: SdElement, msg: string)
    requires '>' !in pri && |fs| == 6 && forall i :: 0 <= i < 6 ==> ' ' !in fs[i]
    requires ReadElement(body) == Some((el, " " + msg))
    ensures ReadLine("<" + pri + ">" + Fields(fs) + body) == Some(Line(pri, fs, el, msg))
  {
    var line := "<" + pri + ">" + Fields(fs) + body;
    assert line[1..] == pri + ['>'] + (Fields(fs) + body);
    ReadToStops(pri, '>', Fields(fs) + body);
    FieldsRoundTrip(fs, body);
    assert (" " + msg)[1..] == msg;
  }

  lemma PriorityParts(ev: Event)
    ensures var pri := Numeral(Priority(ev));
            && '>' !in pri
            && DigitsValue(pri) / 8 == FACILITY_LOCAL0 && DigitsValue(pri) % 8 == SeverityFor(ev.action)
  {
    NumeralRoundTrip(Priority(ev));
    assert (FACILITY_LOCAL0 * 8 + SeverityFor(ev.action)) / 8 == FACILITY_LOCAL0;
  }

  lemma HeaderHasNoSpace(hostname: string, appName: string, procId: string, ev: Event)
    requires HeaderIsPlain(hostname, appName, procId, ev)
    ensures forall i :: 0 <= i < 6 ==> ' ' !in Header(hostname, appName, procId, ev)[i]
  {
  }

  lemma {:induction false} ReadToHasNone(s: string, c: char)
    ensures ReadTo(s, c).Some? ==> c !in ReadTo(s, c).value.0
  {
    if s != "" && s[0] != c {
      ReadToHasNone(s[1..], c);
    }
  }

  /** A reader takes a space for the end of a header field. */
  lemma {:induction false} FieldsReadHaveNoSpace(s: string, n: nat)
    ensures ReadFields(s, n).Some? ==> forall i :: 0 <= i < |ReadFields(s, n).value.0| ==>
              ' ' !in ReadFields(s, n).value.0[i]
    decreases n
  {
    if n > 0 && ReadTo(s, ' ').Some? {
      ReadToHasNone(s, ' ');
      FieldsReadHaveNoSpace(ReadTo(s, ' ').value.1, n - 1);
    }
  }

  /** No header field holds a space. */
  predicate HeaderIsPlain(hostname: string, appName: string, procId: string, ev: Event) {
    ' ' !in TimestampText(ev) && ' ' !in hostname && ' ' !in appName && ' ' !in procId
  }

  function Written(hostname: string, appName: string, procId: string, ev: Event): Line {
    Line(Numeral(Priority(ev)), Header(hostname, appName, procId, ev), SdElement(SD_ID, Values(ev)), Message(ev))
  }

  /** Main result: a reader of the whole line recovers priority, header, structured data and
      message if and only if no header field holds a space; the priority is facility local0
      and the severity of the action. */
  lemma LineRoundTrip(hostname: string, appName: string, procId: string, ev: Event)
    requires Plain(ev.score)
    ensures ReadLine(Format(hostname, appName, procId, ev)) == Some(Written(hostname, appName, procId, ev)) <==>
            HeaderIsPlain(hostname, appName, procId, ev)
    ensures var pri := Numeral(Priority(ev));
            DigitsValue(pri) / 8 == FACILITY_LOCAL0 && DigitsValue(pri) % 8 == SeverityFor(ev.action)
  {
    PriorityParts(ev);
    if HeaderIsPlain(hostname, appName, procId, ev) {
      PlainLineIsRead(hostname, appName, procId, ev);
    } else {
      LineReadHasPlainHeader(Format(hostname, appName, procId, ev));
      SpaceInHeader(hostname, appName, procId, ev);
    }
  }

  predicate IsOr(text: string, value: string, otherwise: string) {
    if value == "" then text == otherwise else text == value
  }

  /** The header of an event's line: six fields, a dash for what is missing. */
  predicate HeaderSays(fs: seq<string>, hostname: string, appName: string, procId: string, ev: Event) {
    && |fs| == 6 && fs[0] == "1" && fs[5] == "DNSQUERY"
    && (if ev.timestamp.Some? then fs[1] == ev.timestamp.value else fs[1] == "-")
    && IsOr(fs[2], hostname, "-") && IsOr(fs[3], appName, "-") && IsOr(fs[4], procId, "-")
  }

  /** The priority of local0: error, warning, notice or informational. */
  predicate PrioritySays(pri: string, action: string) {
    AllDigits(pri) && PriorityIs(DigitsValue(pri), action)
  }

  predicate PriorityIs(priority: nat, action: string) {
    && (priority == 131 <==> action == "error")
    && (priority == 132 <==> action == "flagged")
    && (priority == 133 <==> action == "block" || action == "redirect")
    && (priority == 134 <==> action != "error" && action != "flagged" && action != "block" && action != "redirect")
  }

  predicate Names(p: SdParam, name: string, value: string) {
    p.name == name && p.value == value
  }

  predicate ElementSays(el: SdElement, ev: Event) {
    && el.id == "hydradns@32473" && |el.params| == 7
    && Names(el.params[0], "domain", ev.domain) && Names(el.params[1], "client", ev.clientIp)
    && Names(el.params[2], "action", ev.action)
    && Names(el.params[3], "suspicious", if ev.isSuspicious then "true" else "false")
    && Names(el.params[4], "score", ev.score) && Names(el.params[5], "method", ev.detectionMethod)
    && Names(el.params[6], "reason", ev.threatReason)
  }

  lemma WrittenHeader(hostname: string, appName: string, procId: string, ev: Event)
    ensures HeaderSays(Header(hostname, appName, procId, ev), hostname, appName, procId, ev)
  {
  }

  lemma WrittenElement(ev: Event)
    ensures ElementSays(SdElement(SD_ID, Values(ev)), ev)
  {
  }

  lemma WrittenPriority(ev: Event)
    ensures PrioritySays(Numeral(Priority(ev)), ev.action)
  {
    NumeralRoundTrip(Priority(ev));
  }

  /** What a reader learns of an event from its line, field by field. */
  lemma LineSays(hostname: string, appName: string, procId: string, ev: Event)
    requires Plain(ev.score) && HeaderIsPlain(hostname, appName, procId, ev)
    ensures var r := ReadLine(Format(hostname, appName, procId, ev));
            && r.Some? && PrioritySays(r.value.pri, ev.action)
            && HeaderSays(r.value.header, hostname, appName, procId, ev) && ElementSays(r.value.element, ev)
            && r.value.msg == "dns query domain=" + ev.domain + " client=" + ev.clientIp + " action=" + ev.action
  {
    PlainLineIsRead(hostname, appName, procId, ev);
    WrittenPriority(ev);
    WrittenHeader(hostname, appName, procId, ev);
    WrittenElement(ev);
  }

  lemma PlainLineIsRead(hostname: string, appName: string, procId: string, ev: Event)
    requires Plain(ev.score) && HeaderIsPlain(hostname, appName, procId, ev)
    ensures ReadLine(Format(hostname, appName, procId, ev)) == Some(Written(hostname, appName, procId, ev))
  {
    var pri, fs, el := Numeral(Priority(ev)), Header(hostname, appName, procId, ev), Element(SD_ID, Params(ev));
    var body := el + (" " + Message(ev));
    PriorityParts(ev);
    HeaderHasNoSpace(hostname, appName, procId, ev);
    EventElementRoundTrip(ev, " " + Message(ev));
    LineParts(pri, fs, body, SdElement(SD_ID, Values(ev)), Message(ev));
    FormatParts("<" + pri + ">" + Fields(fs), el, Message(ev));
  }

  lemma LineReadHasPlainHeader(s: string)
    ensures ReadLine(s).Some? ==> forall i :: 0 <= i < |ReadLine(s).value.header| ==>
              ' ' !in ReadLine(s).value.header[i]
  {
    if s != "" && ReadTo(s[1..], '>').Some? {
      FieldsReadHaveNoSpace(ReadTo(s[1..], '>').value.1, 6);
    }
  }

  lemma SpaceInHeader(hostname: string, appName: string, procId: string, ev: Event)
    requires !HeaderIsPlain(hostname, appName, procId, ev)
    ensures exists i :: 0 <= i < 6 && ' ' in Header(hostname, appName, procId, ev)[i]
  {
    var h := Header(hostname, appName, procId, ev);
    assert ' ' in h[1] || ' ' in h[2] || ' ' in h[3] || ' ' in h[4];
  }

  lemma FormatParts(a: string, b: string, c: string)
    ensures a + b + " " + c == a + (b + (" " + c))
  {
  }
}
