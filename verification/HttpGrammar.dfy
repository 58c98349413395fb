/** The heads that the parser of src/network/xtxp_message.h accepts, as a grammar, and what they leave in the
    request. */
module HttpGrammar {
  import opened HttpMessage

  // ---- The grammar ----

  datatype Line = Line(name: string, value: string)

  datatype Text = Text(method_: string, uri: string, scheme: string, lines: seq<Line>)

  predicate IsWordChar(c: char)
  {
    || '0' <= c <= '9' || 'A' <= c <= 'Z' || 'a' <= c <= 'z'
    || c in {'!', '#', '$', '%', '&', '\'', '*', '+', '-', '.', '^', '_', '`', '|', '~'}
  }

  ghost predicate IsWord(s: string)
  {
    s != "" && forall i | 0 <= i < |s| :: IsWordChar(s[i])
  }

  /** No control characters. */
  ghost predicate IsValue(s: string)
  {
    forall i | 0 <= i < |s| :: s[i] as int >= 32 && s[i] as int != 127
  }

  ghost predicate IsUri(s: string)
  {
    forall i | 0 <= i < |s| :: 33 <= s[i] as int <= 126
  }

  /** Seven-bit characters up to the end of the line. */
  ghost predicate IsScheme(s: string)
  {
    forall i | 0 <= i < |s| :: s[i] as int <= 127 && s[i] != '\r'
  }

  ghost predicate AreLines(lines: seq<Line>)
  {
    forall i | 0 <= i < |lines| :: IsWord(lines[i].name) && IsValue(lines[i].value)
  }

  ghost predicate IsText(t: Text)
  {
    IsWord(t.method_) && IsUri(t.uri) && IsScheme(t.scheme) && AreLines(t.lines)
  }

  ghost function FirstLine(t: Text): string
  {
    t.method_ + " " + t.uri + " " + t.scheme + "\r\n"
  }

  ghost function LineText(l: Line): string
  {
    l.name + ": " + l.value + "\r\n"
  }

  ghost function LinesText(lines: seq<Line>): string
  {
    if lines == [] then "" else LinesText(lines[..|lines| - 1]) + LineText(lines[|lines| - 1])
  }

  /** Everything before the empty line. */
  ghost function Lines(t: Text): string
  {
    FirstLine(t) + LinesText(t.lines)
  }

  ghost predicate IsRequest(t: Text, data: string)
  {
    IsText(t) && data == Lines(t) + "\r\n"
  }

  // ---- What a head leaves in the request ----

  /** Line i is the last one with its name. */
  ghost predicate IsLast(lines: seq<Line>, i: nat)
  {
    i < |lines| && forall j | i < j < |lines| :: lines[j].name != lines[i].name
  }

  ghost predicate Named(lines: seq<Line>, name: string)
  {
    exists i :: 0 <= i < |lines| && lines[i].name == name
  }

  /** Of every name the last value; the length as a number, 0 without one; the content type that the request had
      before, when no line gives one. */
  ghost predicate Leaves(t: Text, before: string, r: Message)
  {
    && r.method_ == t.method_ && r.uri == t.uri && r.scheme == t.scheme
    && (forall name :: name in r.headers <==> Named(t.lines, name))
    && (forall i: nat | IsLast(t.lines, i) ::
          t.lines[i].name in r.headers && r.headers[t.lines[i].name] == t.lines[i].value)
    && r.contentLength == (if "Content-Length" in r.headers
                           then Strtol(r.headers["Content-Length"]) % 0x1_0000_0000_0000_0000 else 0)
    && r.contentType == (if "Content-Type" in r.headers then r.headers["Content-Type"] else before)
  }

  // ---- Characters ----

  lemma TokenChars(c: char)
    ensures IsToken(c) <==> IsWordChar(c)
  {
  }

  lemma WordIs(s: string)
    ensures IsWord(s) <==> s != "" && AllTokens(s)
  {
    hide IsToken;
    forall i | 0 <= i < |s|
      ensures IsToken(s[i]) <==> IsWordChar(s[i])
    {
      TokenChars(s[i]);
    }
  }

  lemma UriIs(s: string)
    ensures IsUri(s) <==> forall i | 0 <= i < |s| :: IsChar(s[i]) && !IsCtl(s[i]) && s[i] != ' '
  {
  }

  lemma ValueIs(s: string)
    ensures IsValue(s) <==> NoCtl(s)
  {
  }

  // ---- What the parser accepts is in the grammar ----

  /** What the parser has read: t so far, without the line that it is in. */
  ghost predicate HasRead(m: Machine, h: string, t: Text)
  {
    IsUri(t.uri) && IsScheme(t.scheme) && AreLines(t.lines) && (m.state != Start ==> IsWord(t.method_)) &&
    match m.state
    case Start => t == Text("", "", "", []) && h == ""
    case Method => t.uri == t.scheme == "" && t.lines == [] && h == t.method_
    case Uri => t.scheme == "" && t.lines == [] && h == t.method_ + " " + t.uri
    case Scheme => t.lines == [] && h == t.method_ + " " + t.uri + " " + t.scheme
    case NewLine => h + "\n" == Lines(t)
    case HeaderLineStart => m.name == "" && h == Lines(t)
    case HeaderName => IsWord(m.name) && h == Lines(t) + m.name
    case SpaceBeforeValue => IsWord(m.name) && m.value == "" && h == Lines(t) + m.name + ":"
    case HeaderValue => IsWord(m.name) && IsValue(m.value) && h == Lines(t) + m.name + ": " + m.value
    case LastLine => h == Lines(t) + "\r"
  }

  /** The text after one more character. */
  ghost function Extended(m: Machine, c: char, t: Text): Text
  {
    match m.state
    case Start => t.(method_ := t.method_ + [c])
    case Method => if c == ' ' then t else t.(method_ := t.method_ + [c])
    case Uri => if c == ' ' then t else t.(uri := t.uri + [c])
    case Scheme => if c == '\r' then t else t.(scheme := t.scheme + [c])
    case HeaderValue => if c == '\r' then t.(lines := t.lines + [Line(m.name, m.value)]) else t
    case _ => t
  }

  lemma WordGrows(s: string, c: char)
    requires (s == "" || IsWord(s)) && IsToken(c)
    ensures IsWord(s + [c])
  {
    TokenChars(c);
  }

  lemma LineReadOn(h: string, t: Text, name: string, value: string)
    requires h == Lines(t) + name + ": " + value
    ensures h + "\r" + "\n" == Lines(t.(lines := t.lines + [Line(name, value)]))
  {
    var u := t.(lines := t.lines + [Line(name, value)]);
    assert u.lines[..|u.lines| - 1] == t.lines;
    assert FirstLine(u) == FirstLine(t);
    var l := LineText(Line(name, value));
    assert h + "\r" + "\n" == Lines(t) + l;
    assert Lines(u) == FirstLine(t) + (LinesText(t.lines) + l);
  }

  lemma RequestLineRead(h: string, t: Text)
    requires h == t.method_ + " " + t.uri + " " + t.scheme && t.lines == []
    ensures h + "\r" + "\n" == Lines(t)
  {
    assert "\r" + "\n" == "\r\n";
  }

  lemma ReadsOn(m: Machine, h: string, t: Text, c: char)
    requires HasRead(m, h, t) && Step(m, c).1 == More
    ensures HasRead(Step(m, c).0, h + [c], Extended(m, c, t))
  {
    hide IsWordChar, IsToken, Lines, Stored, IsWord;
    match m.state {
      case Start => WordGrows("", c);
      case Method =>
        if c != ' ' {
          WordGrows(t.method_, c);
        }
      case Scheme =>
        if c == '\r' {
          RequestLineRead(h, t);
        }
      case HeaderLineStart =>
        if c != '\r' {
          WordGrows("", c);
        }
      case HeaderName =>
        if c != ':' {
          WordGrows(m.name, c);
        }
      case HeaderValue =>
        if c == '\r' {
          LineReadOn(h, t, m.name, m.value);
        }
      case _ =>
    }
  }

  /** From position i on. */
  lemma {:induction false} Sound(m: Machine, data: string, i: nat, t: Text) returns (u: Text)
    requires OnlyAtEnd(data) && i < |data| && Tracks(m.state, data[..i]) && HasRead(m, data[..i], t)
    requires ParseFrom(m, data[i..]).1
    ensures IsRequest(u, data)
    decreases |data| - i
  {
    hide Step, EndsHead, Tracks, HasRead;
    var rest := data[i..];
    var (n, r) := Step(m, data[i]);
    TracksNext(m, data[..i], data[i]);
    assert data[..i] + [data[i]] == data[..i + 1];
    assert rest[0] == data[i] && rest[1..] == data[i + 1..];
    if i + 1 == |data| {
      assert data[..i + 1] == data;
      LastRead(m, data[..i], t, data[i]);
      u := t;
    } else {
      ReadsOn(m, data[..i], t, data[i]);
      u := Sound(n, data, i + 1, Extended(m, data[i], t));
    }
  }

  lemma LastRead(m: Machine, h: string, t: Text, c: char)
    requires HasRead(m, h, t) && Step(m, c).1 == Done
    ensures IsRequest(t, h + [c])
  {
    hide IsWordChar, IsToken, Lines, Stored, IsWord;
    assert "\r" + "\n" == "\r\n";
  }

  // ---- What is in the grammar is accepted ----

  ghost function AfterLines(msg: Message, lines: seq<Line>): Message
  {
    if lines == [] then msg
    else
      var l := lines[|lines| - 1];
      Stored(AfterLines(msg, lines[..|lines| - 1]), l.name, l.value)
  }

  lemma {:induction false} LinesConsumed(m: Machine, lines: seq<Line>) returns (n: Machine)
    requires m.state == HeaderLineStart && m.name == "" && AreLines(lines)
    ensures Consumes(m, LinesText(lines), n)
    ensures n.state == HeaderLineStart && n.name == "" && n.msg == AfterLines(m.msg, lines)
    decreases |lines|
  {
    hide Step, Stored, IsWord, IsValue, LineText;
    if lines == [] {
      n := m;
    } else {
      var init, l := lines[..|lines| - 1], lines[|lines| - 1];
      var k := LinesConsumed(m, init);
      WordIs(l.name);
      ValueIs(l.value);
      HeaderLineConsumed(k, l.name, l.value);
      assert LineText(l) == HeaderLine(l.name, l.value) by { LineTextIs(l); }
      n := k.(value := l.value, msg := Stored(k.msg, l.name, l.value));
      ConsumesBoth(m, LinesText(init), k, LineText(l), n);
    }
  }

  lemma LineTextIs(l: Line)
    ensures LineText(l) == HeaderLine(l.name, l.value)
  {
  }

  lemma {:induction false} LinesLeave(msg: Message, lines: seq<Line>)
    requires msg.contentLength == 0 && msg.headers == map[]
    ensures Leaves(Text(msg.method_, msg.uri, msg.scheme, lines), msg.contentType, AfterLines(msg, lines))
    decreases |lines|
  {
    hide Leaves, Stored;
    if lines == [] {
      NoLines(msg);
    } else {
      var init, last := lines[..|lines| - 1], lines[|lines| - 1];
      LinesLeave(msg, init);
      LineLeaves(Text(msg.method_, msg.uri, msg.scheme, init), last, msg.contentType, AfterLines(msg, init));
      assert init + [last] == lines;
    }
  }

  lemma NoLines(msg: Message)
    requires msg.contentLength == 0 && msg.headers == map[]
    ensures Leaves(Text(msg.method_, msg.uri, msg.scheme, []), msg.contentType, msg)
  {
  }

  lemma LineLeaves(t: Text, l: Line, before: string, r: Message)
    requires Leaves(t, before, r)
    ensures Leaves(t.(lines := t.lines + [l]), before, Stored(r, l.name, l.value))
  {
    hide Strtol;
    var u, k := t.(lines := t.lines + [l]), Stored(r, l.name, l.value);
    assert u.lines[|t.lines|] == l;
    forall name
      ensures name in k.headers <==> Named(u.lines, name)
    {
      NamedIn(t.lines, l, name);
    }
    forall i: nat | IsLast(u.lines, i)
      ensures k.headers[u.lines[i].name] == u.lines[i].value
    {
      if i < |t.lines| {
        assert u.lines[|t.lines|].name != u.lines[i].name;
        assert IsLast(t.lines, i) by { StillLast(t.lines, l, i); }
      }
    }
  }

  lemma NamedIn(lines: seq<Line>, l: Line, name: string)
    ensures Named(lines + [l], name) <==> Named(lines, name) || name == l.name
  {
    var u := lines + [l];
    assert u[|lines|] == l;
    if Named(lines, name) {
      var i :| 0 <= i < |lines| && lines[i].name == name;
      assert u[i].name == name;
    }
    if Named(u, name) && name != l.name {
      var i :| 0 <= i < |u| && u[i].name == name;
      assert lines[i].name == name;
    }
  }

  lemma StillLast(lines: seq<Line>, l: Line, i: nat)
    requires IsLast(lines + [l], i) && i < |lines|
    ensures IsLast(lines, i)
  {
    forall j | i < j < |lines|
      ensures lines[j].name != lines[i].name
    {
      assert (lines + [l])[j].name != (lines + [l])[i].name;
    }
  }

  lemma Complete(m: Machine, t: Text, data: string)
    requires m.state == Start && m.msg == Message("", "", "", 0, m.msg.contentType, map[]) && IsRequest(t, data)
    ensures var (k, ok) := ParseFrom(m, data); ok && k.state == Start && Leaves(t, m.msg.contentType, k.msg)
  {
    hide Step, Consumes, ParseFrom, Leaves, LinesText, AfterLines, IsWord, AllTokens;
    WordIs(t.method_);
    UriIs(t.uri);
    var base := m.msg.(method_ := t.method_, uri := t.uri, scheme := t.scheme);
    var m1 := RequestLineConsumed(m, Message(t.method_, t.uri, t.scheme, 0, "", map[]));
    var m2 := LinesConsumed(m1, t.lines);
    ConsumesBoth(m, FirstLine(t), m1, LinesText(t.lines), m2);
    ConsumesThen(m, Lines(t), m2, "\r\n");
    EmptyLine(m2);
    LinesLeave(base, t.lines);
  }

  // ---- Exactness ----

  /** On input that ends with its first empty line, the parser says yes exactly to the heads of the grammar, and
      leaves in the request what the head says. */
  lemma ParsesExactly(m: Machine, data: string)
    requires OnlyAtEnd(data)
    requires m.state == Start && m.msg == Message("", "", "", 0, m.msg.contentType, map[])
    ensures var (k, ok) := ParseFrom(m, data);
      && k.state == Start && (ok <==> exists t :: IsRequest(t, data))
      && forall t | IsRequest(t, data) :: Leaves(t, m.msg.contentType, k.msg)
  {
    hide ParseFrom, OnlyAtEnd, IsRequest, Leaves;
    CompleteAtEnd(m, data);
    forall t | IsRequest(t, data)
      ensures ParseFrom(m, data).1 && Leaves(t, m.msg.contentType, ParseFrom(m, data).0.msg)
    {
      Complete(m, t, data);
    }
    if ParseFrom(m, data).1 {
      assert data[0..] == data && data[..0] == "";
      NotEmpty(data);
      Beginning(m);
      var t := Sound(m, data, 0, Text("", "", "", []));
    }
  }

  lemma NotEmpty(data: string)
    requires OnlyAtEnd(data)
    ensures data != ""
  {
  }

  lemma Beginning(m: Machine)
    requires m.state == Start
    ensures HasRead(m, "", Text("", "", "", [])) && Tracks(m.state, "")
  {
  }

  /** `parse` on what the server hands over. */
  method ParseHead(parser: HttpMessageParser, req: Request, data: string) returns (ok: bool)
    requires parser.state == Start && OnlyAtEnd(data)
    modifies parser, req
    ensures parser.state == Start && (ok <==> exists t :: IsRequest(t, data))
    ensures forall t | IsRequest(t, data) :: Leaves(t, old(req.contentType), req.Value())
  {
    hide ParseFrom, OnlyAtEnd, IsRequest, Leaves;
    ParsesExactly(Machine(parser.state, parser.name, parser.value, Message("", "", "", 0, req.contentType, map[])), data);
    ok := parser.Parse(req, data);
  }

  // ---- The number of a Content-Length line ----

  ghost predicate AreDigits(s: string)
  {
    forall i | 0 <= i < |s| :: '0' <= s[i] <= '9'
  }

  ghost function Value(digits: string): (n: nat)
    requires AreDigits(digits)
  {
    if digits == "" then 0 else 10 * Value(digits[..|digits| - 1]) + (digits[|digits| - 1] as int - '0' as int)
  }

  ghost predicate AreBlanks(s: string)
  {
    forall i | 0 <= i < |s| :: s[i] in {' ', '\t', '\n', '\r'} || s[i] as int in {11, 12}
  }

  lemma OneMoreDigit(digits: string, c: char)
    requires AreDigits(digits) && '0' <= c <= '9'
    ensures AreDigits(digits + [c]) && Value(digits + [c]) == 10 * Value(digits) + (c as int - '0' as int)
  {
    assert (digits + [c])[..|digits|] == digits;
  }

  lemma FirstDigit(digits: string, rest: string, acc: nat)
    requires AreDigits(digits) && digits != ""
    ensures '0' <= digits[0] <= '9' && AreDigits(digits[1..])
    ensures Digits(digits + rest, acc) == Digits(digits[1..] + rest, 10 * acc + (digits[0] as int - '0' as int))
  {
    assert (digits + rest)[1..] == digits[1..] + rest;
  }

  lemma Moved(seen: string, digits: string)
    requires digits != ""
    ensures seen + digits == seen + [digits[0]] + digits[1..]
  {
  }

  lemma {:induction false} DigitsAre(digits: string, rest: string, acc: nat, seen: string)
    requires AreDigits(digits) && AreDigits(seen) && AreDigits(seen + digits) && acc == Value(seen)
    requires rest == "" || !('0' <= rest[0] <= '9')
    ensures Digits(digits + rest, acc) == Value(seen + digits)
    decreases |digits|
  {
    hide Value, AreDigits;
    if digits == "" {
      assert digits + rest == rest && seen + digits == seen;
    } else {
      hide Digits;
      FirstDigit(digits, rest, acc);
      OneMoreDigit(seen, digits[0]);
      Moved(seen, digits);
      DigitsAre(digits[1..], rest, 10 * acc + (digits[0] as int - '0' as int), seen + [digits[0]]);
    }
  }

  lemma {:induction false} BlanksSkipped(blanks: string, rest: string)
    requires AreBlanks(blanks) && (rest == "" || (rest[0] != ' ' && !(9 <= rest[0] as int <= 13)))
    ensures SkipBlanks(blanks + rest) == rest
    decreases |blanks|
  {
    if blanks == "" {
      assert blanks + rest == rest;
    } else {
      assert (blanks + rest)[1..] == blanks[1..] + rest;
      BlanksSkipped(blanks[1..], rest);
    }
  }

  lemma SignRead(sign: string, body: string)
    requires sign in {"", "+", "-"} && body != "" && '0' <= body[0] <= '9'
    ensures var v := if sign == "-" then -(Digits(body, 0) as int) else Digits(body, 0);
      Number(sign + body) == if v < -0x8000_0000_0000_0000 then -0x8000_0000_0000_0000
                             else if v > 0x7fff_ffff_ffff_ffff then 0x7fff_ffff_ffff_ffff else v
  {
    hide Digits;
    if sign == "" {
      assert sign + body == body;
    } else {
      assert (sign + body)[1..] == body;
    }
  }

  /** Blanks, at most one sign, and decimal digits give that number, as far as 64 bits hold it; what follows does
      not matter. */
  lemma StrtolReads(blanks: string, sign: string, digits: string, rest: string)
    requires AreBlanks(blanks) && sign in {"", "+", "-"} && digits != "" && AreDigits(digits)
    requires rest == "" || !('0' <= rest[0] <= '9')
    ensures var v := if sign == "-" then -(Value(digits) as int) else Value(digits);
      Strtol(blanks + (sign + (digits + rest)))
      == if v < -0x8000_0000_0000_0000 then -0x8000_0000_0000_0000
         else if v > 0x7fff_ffff_ffff_ffff then 0x7fff_ffff_ffff_ffff else v
  {
    hide Digits, SkipBlanks, Value, Number, AreBlanks;
    BlanksSkipped(blanks, sign + (digits + rest));
    NoDigits();
    assert "" + digits == digits;
    DigitsAre(digits, rest, 0, "");
    SignRead(sign, digits + rest);
  }

  lemma NoDigits()
    ensures Value("") == 0
  {
  }
}
