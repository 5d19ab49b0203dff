/** The JSON writers of the session request and the reader that undoes them (RFC 8259, section 7). */
module JsonText {
  import opened Base

  const HEX := "0123456789abcdef"

  function EscapeChar(c: char): (r: string)
    ensures r != ""
    ensures forall d :: d in r ==> d >= ' '
  {
    if c == '"' then "\\\""
    else if c == '\\' then "\\\\"
    else if c == '\U{08}' then "\\b"
    else if c == '\U{0C}' then "\\f"
    else if c == '\n' then "\\n"
    else if c == '\r' then "\\r"
    else if c == '\t' then "\\t"
    else if c < ' ' then "\\u00" + [HEX[c as int / 16], HEX[c as int % 16]]
    else [c]
  }

  function EscapeAll(value: string): string {
    if value == "" then "" else EscapeChar(value[0]) + EscapeAll(value[1..])
  }

  function Quoted(value: string): string {
    "\"" + EscapeAll(value) + "\""
  }

  /** `JSONString`: one pass over the characters, appending to the result. */
  method JSONString(value: string) returns (result: string)
    ensures result == Quoted(value)
  {
    result := "\"";
    for i := 0 to |value|
      invariant result + EscapeAll(value[i..]) == "\"" + EscapeAll(value)
    {
      var escaped := AppendEscaped(value[i]);
      assert value[i..][1..] == value[i + 1..];
      Associate(result, escaped, EscapeAll(value[i + 1..]));
      result := result + escaped;
    }
    result := result + "\"";
  }

  /** The switch of `JSONString`. */
  method AppendEscaped(character: char) returns (escaped: string)
    ensures escaped == EscapeChar(character)
  {
    match character
    case '"' => return "\\\"";
    case '\\' => return "\\\\";
    case '\U{08}' => return "\\b";
    case '\U{0C}' => return "\\f";
    case '\n' => return "\\n";
    case '\r' => return "\\r";
    case '\t' => return "\\t";
    case _ =>
      if character < ' ' {
        escaped := "\\u00";
        escaped := escaped + [HEX[character as int / 16]];
        escaped := escaped + [HEX[character as int % 16]];
      } else {
        escaped := [character];
      }
  }

  // ---- the reader ----

  function HexValue(c: char): Option<nat> {
    if '0' <= c <= '9' then Some(c as int - '0' as int)
    else if 'a' <= c <= 'f' then Some(c as int - 'a' as int + 10)
    else if 'A' <= c <= 'F' then Some(c as int - 'A' as int + 10)
    else None
  }

  /** The character behind a \u and the input after it; surrogates are refused. */
  function ReadUnicode(s: string): Option<(char, string)> {
    if |s| < 4 then None
    else
      match (HexValue(s[0]), HexValue(s[1]), HexValue(s[2]), HexValue(s[3]))
      case (Some(a), Some(b), Some(c), Some(d)) =>
        var code := a * 4096 + b * 256 + c * 16 + d;
        if 0xD800 <= code < 0xE000 || code > 0xFFFF then None else Some((code as char, s[4..]))
      case _ => None
  }

  function ReadEscape(s: string): Option<(char, string)> {
    if s == "" then None
    else match s[0]
      case '"' => Some(('"', s[1..]))
      case '\\' => Some(('\\', s[1..]))
      case '/' => Some(('/', s[1..]))
      case 'b' => Some(('\U{08}', s[1..]))
      case 'f' => Some(('\U{0C}', s[1..]))
      case 'n' => Some(('\n', s[1..]))
      case 'r' => Some(('\r', s[1..]))
      case 't' => Some(('\t', s[1..]))
      case 'u' => ReadUnicode(s[1..])
      case _ => None
  }

  /** One character of a string body: escaped, or unescaped and not a control character. */
  function ReadChar(s: string): (r: Option<(char, string)>)
    requires s != "" && s[0] != '"'
    ensures r.Some? ==> |r.value.1| < |s|
  {
    if s[0] == '\\' then ReadEscape(s[1..])
    else if s[0] < ' ' then None
    else Some((s[0], s[1..]))
  }

  /** The body of a string up to its closing quote. */
  function ReadBody(s: string): Option<(string, string)>
    decreases |s|
  {
    if s == "" then None
    else if s[0] == '"' then Some(("", s[1..]))
    else match ReadChar(s)
      case None => None
      case Some((c, after)) =>
        match ReadBody(after)
        case None => None
        case Some((tail, rest)) => Some(([c] + tail, rest))
  }

  function ReadString(s: string): Option<(string, string)> {
    if s == "" || s[0] != '"' then None else ReadBody(s[1..])
  }

  lemma ReadEscapedChar(c: char, rest: string)
    ensures var s := EscapeChar(c) + rest; s[0] != '"' && ReadChar(s) == Some((c, rest))
  {
    var s := EscapeChar(c) + rest;
    if c < ' ' && EscapeChar(c)[1] == 'u' {
      assert s[1..][1..][4..] == rest;
      HexDigit(c as int / 16);
      HexDigit(c as int % 16);
    } else if |EscapeChar(c)| == 2 {
      assert s[1..][1..] == rest;
    } else {
      assert s[1..] == rest;
    }
  }

  lemma HexDigit(v: nat)
    requires v < 16
    ensures HexValue(HEX[v]) == Some(v)
  {
  }

  lemma {:induction false} ReadEscapedBody(value: string, rest: string)
    ensures ReadBody(EscapeAll(value) + "\"" + rest) == Some((value, rest))
  {
    if value == "" {
      assert (EscapeAll(value) + "\"" + rest)[1..] == rest;
    } else {
      var tail := EscapeAll(value[1..]) + "\"" + rest;
      assert EscapeAll(value) + "\"" + rest == EscapeChar(value[0]) + tail;
      ReadEscapedChar(value[0], tail);
      ReadEscapedBody(value[1..], rest);
      assert [value[0]] + value[1..] == value;
    }
  }

  /** Every string survives, whatever follows it: the first unescaped quote of the output is its last
      character. */
  lemma StringRoundTrip(value: string, rest: string)
    ensures ReadString(Quoted(value) + rest) == Some((value, rest))
  {
    assert (Quoted(value) + rest)[1..] == EscapeAll(value) + "\"" + rest;
    ReadEscapedBody(value, rest);
  }

  predicate Printable(s: string) {
    forall c :: c in s ==> c >= ' '
  }

  lemma {:induction false} EscapedIsPrintable(value: string)
    ensures Printable(EscapeAll(value)) && Printable(Quoted(value))
  {
    if value != "" { EscapedIsPrintable(value[1..]); }
  }

  // ---- the session request ----

  datatype Session = Session(extensionId: string, token: string, codec: string, clientIp: string,
                             clientTransport: string, clientUser: string)

  const EXTENSION_ID := "{\"version\":1,\"extension_id\":"
  const TOKEN := ",\"token\":"
  const CODEC := ",\"video\":\"session\",\"codec\":"
  const CLIENT_IP := ",\"client_ip\":"
  const CLIENT_TRANSPORT := ",\"client_transport\":"
  const CLIENT_USER := ",\"client_user\":"
  const END := "}\n"

  /** Literal text, each piece followed by a quoted value. */
  function Fields(labels: seq<string>, values: seq<string>): string
    requires |labels| == |values|
  {
    if labels == [] then ""
    else Fields(labels[..|labels| - 1], values[..|labels| - 1]) + labels[|labels| - 1] + Quoted(values[|labels| - 1])
  }

  const LABELS := [EXTENSION_ID, TOKEN, CODEC, CLIENT_IP, CLIENT_TRANSPORT]

  function Required(s: Session): (r: seq<string>)
    ensures |r| == |LABELS|
  {
    [s.extensionId, s.token, s.codec, s.clientIp, s.clientTransport]
  }

  function UserField(s: Session): string {
    if s.clientUser == "" then "" else Fields([CLIENT_USER], [s.clientUser])
  }

  function SessionText(s: Session): string {
    Fields(LABELS, Required(s)) + UserField(s) + END
  }

  method SessionJSON(s: Session) returns (request: string)
    ensures request == SessionText(s)
  {
    hide SessionText, Quoted;
    var id := JSONString(s.extensionId);
    var token := JSONString(s.token);
    var codec := JSONString(s.codec);
    var ip := JSONString(s.clientIp);
    var transport := JSONString(s.clientTransport);
    request := EXTENSION_ID + id;
    request := request + TOKEN + token;
    request := request + CODEC + codec;
    request := request + CLIENT_IP + ip;
    request := request + CLIENT_TRANSPORT + transport;
    SessionTextIs(s);
    if s.clientUser != "" {
      var user := JSONString(s.clientUser);
      request := request + (CLIENT_USER + user);
    }
    request := request + END;
  }

  /** The fields written out. */
  lemma SessionTextIs(s: Session)
    ensures var start := EXTENSION_ID + Quoted(s.extensionId) + TOKEN + Quoted(s.token) + CODEC + Quoted(s.codec)
                         + CLIENT_IP + Quoted(s.clientIp) + CLIENT_TRANSPORT + Quoted(s.clientTransport);
            SessionText(s) == (if s.clientUser == "" then start else start + (CLIENT_USER + Quoted(s.clientUser))) + END
  {
    hide Fields, Quoted;
    var values := Required(s);
    OneField(LABELS[..1], values[..1]);
    AppendField(LABELS, values, 1);
    AppendField(LABELS, values, 2);
    AppendField(LABELS, values, 3);
    AppendField(LABELS, values, 4);
    assert LABELS[..5] == LABELS && values[..5] == values;
    OneField([CLIENT_USER], [s.clientUser]);
    var start := Fields(LABELS, values);
    assert start + "" == start;
  }

  predicate Plain(value: string) {
    forall c :: c in value ==> c >= ' ' && c != '"' && c != '\\'
  }

  lemma PlainIsQuoted(value: string)
    requires Plain(value)
    ensures Quoted(value) == "\"" + value + "\""
  {
    PlainIsUnescaped(value);
  }

  lemma {:induction false} PlainIsUnescaped(value: string)
    requires Plain(value)
    ensures EscapeAll(value) == value
  {
    if value != "" {
      assert forall c :: c in value[1..] ==> c in value;
      assert value[0] in value;
      PlainIsUnescaped(value[1..]);
      assert EscapeChar(value[0]) == [value[0]];
    }
  }

  /** For values without anything to escape the request is this text. */
  lemma PlainSession(s: Session)
    requires Plain(s.extensionId) && Plain(s.token) && Plain(s.codec)
    requires Plain(s.clientIp) && Plain(s.clientTransport) && Plain(s.clientUser)
    ensures SessionText(s) ==
            "{\"version\":1,\"extension_id\":" + ("\"" + s.extensionId + "\"")
            + ",\"token\":" + ("\"" + s.token + "\"") + ",\"video\":\"session\",\"codec\":" + ("\"" + s.codec + "\"")
            + ",\"client_ip\":" + ("\"" + s.clientIp + "\"") + ",\"client_transport\":" + ("\"" + s.clientTransport + "\"")
            + (if s.clientUser == "" then "" else ",\"client_user\":" + ("\"" + s.clientUser + "\"")) + "}\n"
  {
    hide SessionText, Quoted, Plain;
    SessionTextIs(s);
    PlainIsQuoted(s.extensionId);
    PlainIsQuoted(s.token);
    PlainIsQuoted(s.codec);
    PlainIsQuoted(s.clientIp);
    PlainIsQuoted(s.clientTransport);
    PlainIsQuoted(s.clientUser);
  }

  lemma AppendField(l: seq<string>, v: seq<string>, n: nat)
    requires |l| == |v| && n < |l|
    ensures Fields(l[..n + 1], v[..n + 1]) == Fields(l[..n], v[..n]) + l[n] + Quoted(v[n])
  {
    assert l[..n + 1][..n] == l[..n] && v[..n + 1][..n] == v[..n];
  }

  lemma LastField(l: seq<string>, v: seq<string>)
    requires |l| == |v| > 0
    ensures var n := |l| - 1; Fields(l, v) == Fields(l[..n], v[..n]) + l[n] + Quoted(v[n])
  {
    hide Quoted;
  }

  lemma OneField(l: seq<string>, v: seq<string>)
    requires |l| == |v| == 1
    ensures Fields(l, v) == l[0] + Quoted(v[0])
  {
    assert Fields(l[..0], v[..0]) == "";
  }

  /** Reads labelled strings back; anything but the expected label is an error. */
  function ReadFields(labels: seq<string>, s: string): Option<(seq<string>, string)>
    decreases |labels|
  {
    if labels == [] then Some(([], s))
    else match ReadFields(labels[..|labels| - 1], s)
      case None => None
      case Some((values, after)) =>
        var expected := labels[|labels| - 1];
        if !(expected <= after) then None
        else match ReadString(after[|expected|..])
          case None => None
          case Some((value, rest)) => Some((values + [value], rest))
  }

  lemma ReadLastField(labels: seq<string>, s: string, values: seq<string>, value: string, rest: string)
    requires labels != []
    requires ReadFields(labels[..|labels| - 1], s) == Some((values, labels[|labels| - 1] + (Quoted(value) + rest)))
    ensures ReadFields(labels, s) == Some((values + [value], rest))
  {
    var expected := labels[|labels| - 1];
    assert (expected + (Quoted(value) + rest))[|expected|..] == Quoted(value) + rest;
    StringRoundTrip(value, rest);
  }

  lemma {:induction false} FieldsRoundTrip(labels: seq<string>, values: seq<string>, rest: string)
    requires |labels| == |values|
    ensures ReadFields(labels, Fields(labels, values) + rest) == Some((values, rest))
    decreases |labels|
  {
    if labels == [] {
      assert Fields(labels, values) + rest == rest;
    } else {
      var n := |labels| - 1;
      FieldsRoundTrip(labels[..n], values[..n], labels[n] + (Quoted(values[n]) + rest));
      FieldsStep(labels, values, rest);
    }
  }

  lemma FieldsStep(labels: seq<string>, values: seq<string>, rest: string)
    requires |labels| == |values| && labels != []
    requires var n := |labels| - 1; var after := labels[n] + (Quoted(values[n]) + rest);
             ReadFields(labels[..n], Fields(labels[..n], values[..n]) + after) == Some((values[..n], after))
    ensures ReadFields(labels, Fields(labels, values) + rest) == Some((values, rest))
  {
    hide Quoted, ReadString, Fields, ReadFields;
    var n := |labels| - 1;
    LastField(labels, values);
    var front, text, value := Fields(labels[..n], values[..n]), labels[n], Quoted(values[n]);
    Associate(front + text, value, rest);
    Associate(front, text, value + rest);
    ReadLastField(labels, Fields(labels, values) + rest, values[..n], values[n], rest);
    assert values[..n] + [values[n]] == values;
  }

  function ReadSession(s: string): Option<Session> {
    match ReadFields(LABELS, s)
    case None => None
    case Some((v, rest)) =>
      if |v| != 5 then None
      else if rest == END then Some(Session(v[0], v[1], v[2], v[3], v[4], ""))
      else match ReadFields([CLIENT_USER], rest)
        case None => None
        case Some((u, rest)) =>
          if |u| == 1 && rest == END then Some(Session(v[0], v[1], v[2], v[3], v[4], u[0])) else None
  }

  /** The request carries all six values, whatever characters they contain. */
  lemma SessionRoundTrip(s: Session)
    ensures ReadSession(SessionText(s)) == Some(s)
  {
    var rest := UserField(s) + END;
    assert SessionText(s) == Fields(LABELS, Required(s)) + rest;
    FieldsRoundTrip(LABELS, Required(s), rest);
    if s.clientUser != "" {
      FieldsRoundTrip([CLIENT_USER], [s.clientUser], END);
      assert rest[0] == ',';
    } else {
      assert rest == END;
    }
  }

  lemma PrintableConcat(a: string, b: string)
    ensures Printable(a + b) <==> Printable(a) && Printable(b)
  {
    assert forall c :: c in a + b <==> c in a || c in b;
  }

  lemma {:induction false} FieldsPrintable(labels: seq<string>, values: seq<string>)
    requires |labels| == |values| && forall l :: l in labels ==> Printable(l)
    ensures Printable(Fields(labels, values))
    decreases |labels|
  {
    if labels != [] {
      var n := |labels| - 1;
      EscapedIsPrintable(values[n]);
      FieldsPrintable(labels[..n], values[..n]);
      PrintableConcat(Fields(labels[..n], values[..n]), labels[n]);
      PrintableConcat(Fields(labels[..n], values[..n]) + labels[n], Quoted(values[n]));
    }
  }

  lemma LabelsPrintable()
    ensures forall l :: l in LABELS ==> Printable(l)
    ensures Printable(CLIENT_USER)
  {
    hide Printable;
    IdPrintable();
    CodecPrintable();
    TokenPrintable();
    ClientPrintable();
    TransportPrintable();
  }

  lemma IdPrintable()
    ensures Printable(EXTENSION_ID)
  {
  }

  lemma CodecPrintable()
    ensures Printable(CODEC)
  {
  }

  lemma TokenPrintable()
    ensures Printable(TOKEN)
  {
  }

  lemma ClientPrintable()
    ensures Printable(CLIENT_IP) && Printable(CLIENT_USER)
  {
  }

  lemma TransportPrintable()
    ensures Printable(CLIENT_TRANSPORT)
  {
  }

  lemma OneLine(body: string)
    requires Printable(body)
    ensures var t := body + END; |t| > 0 && forall i :: 0 <= i < |t| ==> (t[i] == '\n' <==> i == |t| - 1)
  {
    var t := body + END;
    forall i | 0 <= i < |body|
      ensures t[i] != '\n'
    {
      assert t[i] == body[i] && body[i] in body;
    }
  }

  /** The request is one line: its only newline is its last character. */
  lemma SessionIsOneLine(s: Session)
    ensures var t := SessionText(s); |t| > 0 && forall i :: 0 <= i < |t| ==> (t[i] == '\n' <==> i == |t| - 1)
  {
    LabelsPrintable();
    FieldsPrintable(LABELS, Required(s));
    FieldsPrintable([CLIENT_USER], [s.clientUser]);
    PrintableConcat(Fields(LABELS, Required(s)), UserField(s));
    OneLine(Fields(LABELS, Required(s)) + UserField(s));
  }
}
