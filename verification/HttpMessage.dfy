/** Request heads of HTTP and RTSP (src/network/xtxp_message.h, src/network/xtxp_message.cpp): the
    character-driven parser and the serializer. A char above 127 stands for a byte of that value. */
module HttpMessage {

  datatype Message = Message(method_: string, uri: string, scheme: string, contentLength: int, contentType: string,
                             headers: map<string, string>)

  datatype State = Start | Method | Uri | Scheme | NewLine | HeaderLineStart | HeaderName | SpaceBeforeValue
    | HeaderValue | LastLine

  datatype Result = More | Done | Fail

  /** The parser's own fields and the message it fills. */
  datatype Machine = Machine(state: State, name: string, value: string, msg: Message)

  const CONTENT_LENGTH := "Content-Length"
  const CONTENT_TYPE := "Content-Type"

  // ---- Character classes ----

  predicate IsChar(c: char) { c as int <= 127 }

  predicate IsCtl(c: char) { c as int <= 31 || c as int == 127 }

  predicate IsSpecial(c: char)
  {
    c in "()<>@,;:\\\"/[]?={} \t"
  }

  predicate IsToken(c: char) { IsChar(c) && !IsCtl(c) && !IsSpecial(c) }

  // ---- Numbers ----

  const LONG_MAX: int := 0x7fff_ffff_ffff_ffff
  const SIZE_LIMIT: int := 0x1_0000_0000_0000_0000

  predicate IsDigit(c: char) { '0' <= c <= '9' }

  function Digits(s: string, acc: nat): (n: nat)
  {
    if s == "" || !IsDigit(s[0]) then acc else Digits(s[1..], 10 * acc + (s[0] as int - '0' as int))
  }

  function SkipBlanks(s: string): (r: string)
    ensures |r| <= |s|
  {
    if s != "" && (s[0] == ' ' || 9 <= s[0] as int <= 13) then SkipBlanks(s[1..]) else s
  }

  /** `strtol(s, &end, 10)`: blanks, a sign, digits; clamped to the range of a 64-bit long. */
  function Strtol(s: string): (n: int)
  {
    Number(SkipBlanks(s))
  }

  function Number(t: string): (n: int)
  {
    var negative := t != "" && t[0] == '-';
    var d: int := Digits(if t != "" && (t[0] == '-' || t[0] == '+') then t[1..] else t, 0);
    if negative then (if d > LONG_MAX + 1 then -LONG_MAX - 1 else -d) else (if d > LONG_MAX then LONG_MAX else d)
  }

  /** What `operator<<` writes for a `size_t`. */
  function Decimal(n: nat): (s: string)
  {
    if n < 10 then [('0' as int + n) as char] else Decimal(n / 10) + [('0' as int + n % 10) as char]
  }

  // ---- The parser, one character at a time ----

  /** A header line is complete. */
  function Stored(msg: Message, name: string, value: string): Message
  {
    var length := if name == CONTENT_LENGTH then Strtol(value) % SIZE_LIMIT else msg.contentLength;
    var kind := if name == CONTENT_TYPE then value else msg.contentType;
    msg.(contentLength := length, contentType := kind, headers := msg.headers[name := value])
  }

  /** `consume`, for a request. */
  function Step(m: Machine, c: char): (Machine, Result)
  {
    match m.state
    case Start =>
      if !IsToken(c) then (m, Fail)
      else (m.(state := Method, msg := m.msg.(method_ := m.msg.method_ + [c])), More)
    case Method =>
      if c == ' ' then (m.(state := Uri), More)
      else if !IsToken(c) then (m, Fail)
      else (m.(msg := m.msg.(method_ := m.msg.method_ + [c])), More)
    case Uri =>
      if c == ' ' then (m.(state := Scheme), More)
      else if !IsChar(c) || IsCtl(c) then (m, Fail)
      else (m.(msg := m.msg.(uri := m.msg.uri + [c])), More)
    case Scheme =>
      if c == '\r' then (m.(state := NewLine), More)
      else if !IsChar(c) then (m, Fail)
      else (m.(msg := m.msg.(scheme := m.msg.scheme + [c])), More)
    case NewLine =>
      if c == '\n' then (m.(state := HeaderLineStart, name := ""), More) else (m, Fail)
    case HeaderLineStart =>
      if c == '\r' then (m.(state := LastLine), More)
      else if !IsToken(c) then (m, Fail)
      else (m.(state := HeaderName, name := m.name + [c]), More)
    case HeaderName =>
      if c == ':' then (m.(state := SpaceBeforeValue, value := ""), More)
      else if !IsToken(c) then (m, Fail)
      else (m.(name := m.name + [c]), More)
    case SpaceBeforeValue =>
      if c == ' ' then (m.(state := HeaderValue), More) else (m, Fail)
    case HeaderValue =>
      if c == '\r' then (m.(state := NewLine, msg := Stored(m.msg, m.name, m.value)), More)
      else if IsCtl(c) then (m, Fail)
      else (m.(value := m.value + [c]), More)
    case LastLine =>
      (m, if c == '\n' then Done else Fail)
  }

  /** The loop of `parse`: a result other than "more" resets the state, and a failure ends the loop. */
  function ParseFrom(m: Machine, data: string): (Machine, bool)
    decreases |data|
  {
    if data == "" then (m, true)
    else
      var (n, r) := Step(m, data[0]);
      var k := if r != More then n.(state := Start) else n;
      if r == Fail then (k, false) else ParseFrom(k, data[1..])
  }

  // ---- The serializer ----

  function HeaderLine(name: string, value: string): string
  {
    name + ": " + value + "\r\n"
  }

  /** The header lines, in some order of the names. */
  function HeaderLines(headers: map<string, string>, names: seq<string>): (s: string)
    requires forall n | n in names :: n in headers
  {
    if names == [] then "" else HeaderLine(names[0], headers[names[0]]) + HeaderLines(headers, names[1..])
  }

  /** Everything up to and including the empty line. */
  function Head(r: Message, names: seq<string>): (s: string)
    requires r.contentLength >= 0 && forall n | n in names :: n in r.headers
  {
    r.method_ + " " + r.uri + " " + r.scheme + "\r\n" + HeaderLines(r.headers, names)
    + HeaderLine(CONTENT_LENGTH, Decimal(r.contentLength))
    + (if r.contentType != "" then HeaderLine(CONTENT_TYPE, r.contentType) else "") + "\r\n"
  }

  /** Every header name, once. */
  ghost predicate Lists(names: seq<string>, headers: map<string, string>)
  {
    (forall n :: n in names <==> n in headers) && forall i, j | 0 <= i < j < |names| :: names[i] != names[j]
  }

  /** s prints r, with the headers in some order. */
  ghost predicate IsHead(r: Message, s: string)
    requires r.contentLength >= 0
  {
    exists names :: Lists(names, r.headers) && s == Head(r, names)
  }

  // ---- Well-formed requests ----

  ghost predicate AllTokens(s: string) { forall i | 0 <= i < |s| :: IsToken(s[i]) }

  ghost predicate NoCtl(s: string) { forall i | 0 <= i < |s| :: !IsCtl(s[i]) }

  ghost predicate WellFormed(r: Message)
  {
    && r.method_ != "" && AllTokens(r.method_)
    && (forall i | 0 <= i < |r.uri| :: IsChar(r.uri[i]) && !IsCtl(r.uri[i]) && r.uri[i] != ' ')
    && (forall i | 0 <= i < |r.scheme| :: IsChar(r.scheme[i]) && r.scheme[i] != '\r')
    && 0 <= r.contentLength <= LONG_MAX && NoCtl(r.contentType)
    && (forall n | n in r.headers :: n != "" && AllTokens(n) && NoCtl(r.headers[n]))
  }

  // ---- Consuming a piece of input ----

  /** The characters of s are all accepted, and lead from m to n. */
  ghost predicate Consumes(m: Machine, s: string, n: Machine)
    decreases |s|
  {
    if s == "" then n == m else Step(m, s[0]).1 == More && Consumes(Step(m, s[0]).0, s[1..], n)
  }

  lemma {:induction false} ConsumesThen(m: Machine, a: string, n: Machine, b: string)
    requires Consumes(m, a, n)
    ensures ParseFrom(m, a + b) == ParseFrom(n, b)
    decreases |a|
  {
    hide Step;
    if a == "" {
      assert a + b == b;
    } else {
      assert (a + b)[1..] == a[1..] + b;
      ConsumesThen(Step(m, a[0]).0, a[1..], n, b);
    }
  }

  lemma {:induction false} ConsumesBoth(m: Machine, a: string, n: Machine, b: string, k: Machine)
    requires Consumes(m, a, n) && Consumes(n, b, k)
    ensures Consumes(m, a + b, k)
    decreases |a|
  {
    hide Step;
    if a == "" {
      assert a + b == b;
    } else {
      assert (a + b)[1..] == a[1..] + b;
      ConsumesBoth(Step(m, a[0]).0, a[1..], n, b, k);
    }
  }

  lemma ConsumesOne(m: Machine, c: char)
    requires Step(m, c).1 == More
    ensures Consumes(m, [c], Step(m, c).0)
  {
    hide Step;
    assert [c][1..] == "";
  }

  lemma {:induction false} MethodConsumed(m: Machine, s: string)
    requires m.state == Method && AllTokens(s)
    ensures Consumes(m, s, m.(msg := m.msg.(method_ := m.msg.method_ + s)))
    decreases |s|
  {
    if s == "" {
      assert m.msg.method_ + s == m.msg.method_;
    } else {
      var n := Step(m, s[0]).0;
      MethodConsumed(n, s[1..]);
      assert m.msg.method_ + s == n.msg.method_ + s[1..];
    }
  }

  lemma {:induction false} UriConsumed(m: Machine, s: string)
    requires m.state == Uri && forall i | 0 <= i < |s| :: IsChar(s[i]) && !IsCtl(s[i]) && s[i] != ' '
    ensures Consumes(m, s, m.(msg := m.msg.(uri := m.msg.uri + s)))
    decreases |s|
  {
    if s == "" {
      assert m.msg.uri + s == m.msg.uri;
    } else {
      var n := Step(m, s[0]).0;
      UriConsumed(n, s[1..]);
      assert m.msg.uri + s == n.msg.uri + s[1..];
    }
  }

  lemma {:induction false} SchemeConsumed(m: Machine, s: string)
    requires m.state == Scheme && forall i | 0 <= i < |s| :: IsChar(s[i]) && s[i] != '\r'
    ensures Consumes(m, s, m.(msg := m.msg.(scheme := m.msg.scheme + s)))
    decreases |s|
  {
    if s == "" {
      assert m.msg.scheme + s == m.msg.scheme;
    } else {
      var n := Step(m, s[0]).0;
      SchemeConsumed(n, s[1..]);
      assert m.msg.scheme + s == n.msg.scheme + s[1..];
    }
  }

  lemma {:induction false} NameConsumed(m: Machine, s: string)
    requires m.state == HeaderName && AllTokens(s)
    ensures Consumes(m, s, m.(name := m.name + s))
    decreases |s|
  {
    if s == "" {
      assert m.name + s == m.name;
    } else {
      var n := Step(m, s[0]).0;
      NameConsumed(n, s[1..]);
      assert m.name + s == n.name + s[1..];
    }
  }

  lemma {:induction false} ValueConsumed(m: Machine, s: string)
    requires m.state == HeaderValue && NoCtl(s)
    ensures Consumes(m, s, m.(value := m.value + s))
    decreases |s|
  {
    if s == "" {
      assert m.value + s == m.value;
    } else {
      var n := Step(m, s[0]).0;
      ValueConsumed(n, s[1..]);
      assert m.value + s == n.value + s[1..];
    }
  }

  // ---- Numbers come back ----

  /** The power of ten with as many zeros as n has digits. */
  ghost function Tens(n: nat): nat
  {
    if n < 10 then 10 else 10 * Tens(n / 10)
  }

  /** Reading on after the digits of n. */
  lemma {:induction false} DecimalPrefix(n: nat, tail: string, acc: nat)
    ensures Digits(Decimal(n) + tail, acc) == Digits(tail, acc * Tens(n) + n)
    ensures Decimal(n) != "" && forall i | 0 <= i < |Decimal(n)| :: IsDigit(Decimal(n)[i])
    decreases n
  {
    var last := [('0' as int + n % 10) as char];
    OneDigit(n % 10, tail, if n < 10 then acc else acc * Tens(n / 10) + n / 10);
    if n >= 10 {
      DecimalPrefix(n / 10, last + tail, acc);
      assert Decimal(n) + tail == Decimal(n / 10) + (last + tail);
      NextDigit(acc, Tens(n / 10), n / 10, n % 10);
    }
  }

  lemma OneDigit(d: nat, tail: string, acc: nat)
    requires d < 10
    ensures Digits([('0' as int + d) as char] + tail, acc) == Digits(tail, 10 * acc + d)
  {
    assert ([('0' as int + d) as char] + tail)[1..] == tail;
  }

  lemma NextDigit(acc: int, t: int, q: int, d: int)
    ensures 10 * (acc * t + q) + d == acc * (10 * t) + (10 * q + d)
  {
  }

  lemma NumberComesBack(n: nat)
    requires n <= LONG_MAX
    ensures Strtol(Decimal(n)) == n && NoCtl(Decimal(n))
  {
    DecimalPrefix(n, "", 0);
    assert Decimal(n) + "" == Decimal(n);
    assert IsDigit(Decimal(n)[0]);
  }

  // ---- Lines ----

  lemma HeaderLineConsumed(m: Machine, name: string, value: string)
    requires m.state == HeaderLineStart && m.name == "" && name != "" && AllTokens(name) && NoCtl(value)
    ensures Consumes(m, HeaderLine(name, value), m.(value := value, msg := Stored(m.msg, name, value)))
  {
    var m1 := Step(m, name[0]).0;
    ConsumesOne(m, name[0]);
    NameConsumed(m1, name[1..]);
    var m2 := m1.(name := m1.name + name[1..]);
    assert m2.name == name && name == [name[0]] + name[1..];
    ConsumesBoth(m, [name[0]], m1, name[1..], m2);
    var m3 := m2.(state := HeaderValue, value := "");
    Colon(m2);
    ConsumesBoth(m, name, m2, ": ", m3);
    ValueConsumed(m3, value);
    assert "" + value == value;
    var m4 := m3.(value := value);
    ConsumesBoth(m, name + ": ", m3, value, m4);
    LineEnd(m4);
    var m5 := m4.(state := HeaderLineStart, name := "", msg := Stored(m4.msg, name, value));
    ConsumesBoth(m, name + ": " + value, m4, "\r\n", m5);
  }

  lemma Colon(m: Machine)
    requires m.state == HeaderName
    ensures Consumes(m, ": ", m.(state := HeaderValue, value := ""))
  {
    var n := Step(m, ':').0;
    ConsumesOne(m, ':');
    ConsumesOne(n, ' ');
    ConsumesBoth(m, ":", n, " ", n.(state := HeaderValue));
    assert ":" + " " == ": ";
  }

  lemma LineEnd(m: Machine)
    requires m.state == HeaderValue
    ensures Consumes(m, "\r\n", m.(state := HeaderLineStart, name := "", msg := Stored(m.msg, m.name, m.value)))
  {
    var n := Step(m, '\r').0;
    ConsumesOne(m, '\r');
    ConsumesOne(n, '\n');
    ConsumesBoth(m, "\r", n, "\n", n.(state := HeaderLineStart, name := ""));
    assert "\r" + "\n" == "\r\n";
  }

  /** The message after the header lines of the given names. */
  ghost function AllStored(msg: Message, headers: map<string, string>, names: seq<string>): Message
    requires forall n | n in names :: n in headers
    decreases |names|
  {
    if names == [] then msg else AllStored(Stored(msg, names[0], headers[names[0]]), headers, names[1..])
  }

  lemma {:induction false} HeaderLinesConsumed(m: Machine, headers: map<string, string>,
      names: seq<string>) returns (n: Machine)
    requires m.state == HeaderLineStart && m.name == ""
    requires forall k | k in names :: k in headers
    requires forall k | k in headers :: k != "" && AllTokens(k) && NoCtl(headers[k])
    ensures Consumes(m, HeaderLines(headers, names), n)
    ensures n.state == HeaderLineStart && n.name == "" && n.msg == AllStored(m.msg, headers, names)
    decreases |names|
  {
    hide Step, Stored, HeaderLine;
    if names == [] {
      n := m;
    } else {
      var k, v := names[0], headers[names[0]];
      HeaderLineConsumed(m, k, v);
      var m1 := m.(value := v, msg := Stored(m.msg, k, v));
      n := HeaderLinesConsumed(m1, headers, names[1..]);
      ConsumesBoth(m, HeaderLine(k, v), m1, HeaderLines(headers, names[1..]), n);
    }
  }

  /** The effect of the header lines on the message, whatever their order. */
  lemma {:induction false} StoredEffect(msg: Message, headers: map<string, string>, names: seq<string>)
    requires forall n | n in names :: n in headers
    ensures var r := AllStored(msg, headers, names);
      && r.method_ == msg.method_ && r.uri == msg.uri && r.scheme == msg.scheme
      && r.contentType == (if CONTENT_TYPE in names then headers[CONTENT_TYPE] else msg.contentType)
      && (forall n | n in names :: n in r.headers && r.headers[n] == headers[n])
      && (forall n | n !in names :: n in r.headers <==> n in msg.headers)
      && (forall n | n !in names && n in msg.headers :: n in r.headers && r.headers[n] == msg.headers[n])
    decreases |names|
  {
    hide Strtol;
    if names != [] {
      StoredEffect(Stored(msg, names[0], headers[names[0]]), headers, names[1..]);
    }
  }

  /** The method and the blank after it. */
  lemma MethodWordConsumed(m: Machine, method_: string)
    requires m.state == Start && m.msg.method_ == "" && method_ != "" && AllTokens(method_)
    ensures Consumes(m, method_ + " ", m.(state := Uri, msg := m.msg.(method_ := method_)))
  {
    var m1 := Step(m, method_[0]).0;
    ConsumesOne(m, method_[0]);
    MethodConsumed(m1, method_[1..]);
    assert method_ == [method_[0]] + method_[1..] && m1.msg.method_ == [method_[0]];
    var m2 := m1.(msg := m1.msg.(method_ := method_));
    ConsumesBoth(m, [method_[0]], m1, method_[1..], m2);
    ConsumesOne(m2, ' ');
    ConsumesBoth(m, method_, m2, " ", m2.(state := Uri));
  }

  /** The request line. */
  lemma RequestLineConsumed(m: Machine, r: Message) returns (n: Machine)
    requires m.state == Start && m.msg.method_ == m.msg.uri == m.msg.scheme == "" && WellFormed(r)
    ensures Consumes(m, r.method_ + " " + r.uri + " " + r.scheme + "\r\n", n)
    ensures n.state == HeaderLineStart && n.name == ""
    ensures n.msg == m.msg.(method_ := r.method_, uri := r.uri, scheme := r.scheme)
  {
    hide Step, Consumes, IsToken, IsCtl, IsChar;
    MethodWordConsumed(m, r.method_);
    var m3 := m.(state := Uri, msg := m.msg.(method_ := r.method_));
    UriConsumed(m3, r.uri);
    assert "" + r.uri == r.uri;
    var m4 := m3.(msg := m3.msg.(uri := r.uri));
    ConsumesBoth(m, r.method_ + " ", m3, r.uri, m4);
    n := SchemeLineConsumed(m4, r.scheme);
    ConsumesBoth(m, r.method_ + " " + r.uri, m4, " " + r.scheme + "\r\n", n);
    assert r.method_ + " " + r.uri + (" " + r.scheme + "\r\n") == r.method_ + " " + r.uri + " " + r.scheme + "\r\n";
  }

  lemma SchemeLineConsumed(m: Machine, scheme: string) returns (n: Machine)
    requires m.state == Uri && m.msg.scheme == ""
    requires forall i | 0 <= i < |scheme| :: IsChar(scheme[i]) && scheme[i] != '\r'
    ensures Consumes(m, " " + scheme + "\r\n", n)
    ensures n.state == HeaderLineStart && n.name == "" && n.msg == m.msg.(scheme := scheme)
  {
    var m1 := m.(state := Scheme);
    ConsumesOne(m, ' ');
    SchemeConsumed(m1, scheme);
    assert "" + scheme == scheme;
    var m2 := m1.(msg := m1.msg.(scheme := scheme));
    ConsumesBoth(m, " ", m1, scheme, m2);
    var m3 := Step(m2, '\r').0;
    ConsumesOne(m2, '\r');
    ConsumesOne(m3, '\n');
    n := m3.(state := HeaderLineStart, name := "");
    ConsumesBoth(m2, "\r", m3, "\n", n);
    assert "\r" + "\n" == "\r\n";
    ConsumesBoth(m, " " + scheme, m2, "\r\n", n);
  }

  /** The empty line ends the head. */
  lemma EmptyLine(m: Machine)
    requires m.state == HeaderLineStart
    ensures ParseFrom(m, "\r\n") == (m.(state := Start), true)
  {
    assert "\r\n"[1..] == "\n" && "\n"[1..] == "";
    var n := Step(m, '\r').0;
    assert ParseFrom(n, "\n") == (n.(state := Start), true);
  }

  // ---- The round trip ----

  /** What a parse of a serialized head returns: the headers gain the content length and, if there is
      one, the content type. An empty content type leaves that of the headers or, failing that, the one
      the object had before, which `parse` does not clear. */
  ghost function Returned(r: Message, before: string): Message
    requires r.contentLength >= 0
  {
    var h := r.headers[CONTENT_LENGTH := Decimal(r.contentLength)];
    if r.contentType != "" then r.(headers := h[CONTENT_TYPE := r.contentType])
    else r.(headers := h, contentType := if CONTENT_TYPE in r.headers then r.headers[CONTENT_TYPE] else before)
  }

  /** The message after the header lines and the two lines that the serializer adds. */
  ghost function Collected(msg: Message, r: Message, names: seq<string>): Message
    requires r.contentLength >= 0 && forall n | n in names :: n in r.headers
  {
    var a := AllStored(msg.(method_ := r.method_, uri := r.uri, scheme := r.scheme), r.headers, names);
    var b := Stored(a, CONTENT_LENGTH, Decimal(r.contentLength));
    if r.contentType != "" then Stored(b, CONTENT_TYPE, r.contentType) else b
  }

  lemma CollectedIsReturned(msg: Message, r: Message, names: seq<string>)
    requires WellFormed(r) && (forall n :: n in names <==> n in r.headers) && msg.headers == map[]
    ensures Collected(msg, r, names) == Returned(r, msg.contentType)
  {
    hide Strtol, AllStored, Decimal;
    var base := msg.(method_ := r.method_, uri := r.uri, scheme := r.scheme);
    StoredEffect(base, r.headers, names);
    assert AllStored(base, r.headers, names).headers == r.headers;
    NumberComesBack(r.contentLength);
    NamesDiffer();
  }

  lemma NamesDiffer()
    ensures CONTENT_LENGTH != CONTENT_TYPE
  {
    assert |CONTENT_LENGTH| == 14 && |CONTENT_TYPE| == 12;
  }

  /** Everything before the empty line. */
  lemma LinesConsumed(r: Message, names: seq<string>, m: Machine) returns (n: Machine)
    requires WellFormed(r) && forall k | k in names :: k in r.headers
    requires m.state == Start && m.msg.method_ == m.msg.uri == m.msg.scheme == ""
    ensures var first := r.method_ + " " + r.uri + " " + r.scheme + "\r\n";
      Consumes(m, first + HeaderLines(r.headers, names) + HeaderLine(CONTENT_LENGTH, Decimal(r.contentLength)), n)
    ensures n.state == HeaderLineStart && n.name == ""
    ensures var a := AllStored(m.msg.(method_ := r.method_, uri := r.uri, scheme := r.scheme), r.headers, names);
      n.msg == Stored(a, CONTENT_LENGTH, Decimal(r.contentLength))
  {
    hide Step, Strtol, HeaderLine, HeaderLines, Consumes, IsToken, Decimal, Stored, AllStored;
    var m1 := RequestLineConsumed(m, r);
    var m2 := HeaderLinesConsumed(m1, r.headers, names);
    var d := Decimal(r.contentLength);
    NumberComesBack(r.contentLength);
    Constants();
    HeaderLineConsumed(m2, CONTENT_LENGTH, d);
    n := m2.(value := d, msg := Stored(m2.msg, CONTENT_LENGTH, d));
    var first := r.method_ + " " + r.uri + " " + r.scheme + "\r\n";
    ConsumesBoth(m, first, m1, HeaderLines(r.headers, names), m2);
    ConsumesBoth(m, first + HeaderLines(r.headers, names), m2, HeaderLine(CONTENT_LENGTH, d), n);
  }

  /** Parsing the head of a serialized well-formed request succeeds and returns the request. */
  lemma HeadComesBack(r: Message, names: seq<string>, m: Machine)
    requires WellFormed(r) && forall n :: n in names <==> n in r.headers
    requires m.state == Start && m.msg.method_ == m.msg.uri == m.msg.scheme == "" && m.msg.headers == map[]
    ensures var (k, ok) := ParseFrom(m, Head(r, names)); ok && k.state == Start && k.msg == Returned(r, m.msg.contentType)
  {
    hide Step, Strtol, HeaderLine, HeaderLines, ParseFrom, Consumes, IsToken, Decimal, Stored, AllStored, Returned;
    var n := LinesConsumed(r, names, m);
    var upto := r.method_ + " " + r.uri + " " + r.scheme + "\r\n" + HeaderLines(r.headers, names)
      + HeaderLine(CONTENT_LENGTH, Decimal(r.contentLength));
    CollectedIsReturned(m.msg, r, names);
    if r.contentType != "" {
      Constants();
      HeaderLineConsumed(n, CONTENT_TYPE, r.contentType);
      var k := n.(value := r.contentType, msg := Stored(n.msg, CONTENT_TYPE, r.contentType));
      ConsumesBoth(m, upto, n, HeaderLine(CONTENT_TYPE, r.contentType), k);
      ConsumesThen(m, upto + HeaderLine(CONTENT_TYPE, r.contentType), k, "\r\n");
      EmptyLine(k);
    } else {
      assert upto + "" == upto;
      ConsumesThen(m, upto, n, "\r\n");
      EmptyLine(n);
    }
  }

  lemma Constants()
    ensures CONTENT_LENGTH != "" && AllTokens(CONTENT_LENGTH) && CONTENT_TYPE != "" && AllTokens(CONTENT_TYPE)
  {
    assert |CONTENT_LENGTH| == 14 && |CONTENT_TYPE| == 12;
  }

  // ---- When a head is complete ----

  /** h ends in CR, in CR LF, in CR LF CR, in CR LF CR LF. */
  ghost predicate EndsCr(h: string) { |h| >= 1 && h[|h| - 1] == '\r' }

  ghost predicate EndsCrLf(h: string) { |h| >= 2 && h[|h| - 1] == '\n' && h[|h| - 2] == '\r' }

  ghost predicate EndsCrLfCr(h: string) { |h| >= 3 && EndsCr(h) && EndsCrLf(h[..|h| - 1]) }

  ghost predicate EndsHead(h: string) { |h| >= 4 && EndsCrLf(h) && EndsCrLf(h[..|h| - 2]) }

  /** The first empty line ends the input: what `async_read_until` hands over. */
  ghost predicate OnlyAtEnd(data: string)
  {
    EndsHead(data) && forall i | 0 <= i < |data| :: !EndsHead(data[..i])
  }

  /** What the last characters were, seen from the state. */
  ghost predicate Tracks(s: State, h: string)
  {
    && (s == NewLine ==> EndsCr(h)) && (s == HeaderLineStart ==> EndsCrLf(h)) && (s == LastLine ==> EndsCrLfCr(h))
    && (EndsCr(h) ==> s == NewLine || s == LastLine) && (EndsCrLf(h) ==> s == HeaderLineStart)
    && (EndsCrLfCr(h) ==> s == LastLine)
  }

  /** How one more character ends a string. */
  lemma Endings(h: string, c: char)
    ensures var g := h + [c];
      && (EndsCr(g) <==> c == '\r') && (EndsCrLf(g) <==> c == '\n' && EndsCr(h))
      && (EndsCrLfCr(g) <==> c == '\r' && EndsCrLf(h)) && (EndsHead(g) <==> c == '\n' && EndsCrLfCr(h))
  {
    var g := h + [c];
    assert g[..|g| - 1] == h;
    if |h| >= 1 {
      assert g[..|g| - 2] == h[..|h| - 1];
    }
  }

  lemma TracksNext(m: Machine, h: string, c: char)
    requires Tracks(m.state, h)
    ensures Step(m, c).1 == More ==> Tracks(Step(m, c).0.state, h + [c])
    ensures Step(m, c).1 == Done ==> EndsHead(h + [c])
    ensures EndsHead(h + [c]) ==> Step(m, c).1 == Done
  {
    hide EndsCr, EndsCrLf, EndsCrLfCr, EndsHead, Stored;
    Endings(h, c);
  }

  /** The result of the last character, if the ones before are accepted. */
  ghost function LastResult(m: Machine, data: string): Result
    requires data != ""
    decreases |data|
  {
    var (n, r) := Step(m, data[0]);
    if |data| == 1 || r == Fail then r else LastResult(if r == Done then n.(state := Start) else n, data[1..])
  }

  lemma {:induction false} ParseTracks(m: Machine, data: string, i: nat)
    requires OnlyAtEnd(data) && i < |data| && Tracks(m.state, data[..i])
    ensures ParseFrom(m, data[i..]).1 <==> LastResult(m, data[i..]) == Done
    ensures ParseFrom(m, data[i..]).0.state == Start
    decreases |data| - i
  {
    hide Step, EndsHead, Tracks;
    var rest := data[i..];
    var (n, r) := Step(m, data[i]);
    TracksNext(m, data[..i], data[i]);
    assert data[..i] + [data[i]] == data[..i + 1];
    assert rest[0] == data[i] && rest[1..] == data[i + 1..];
    if i + 1 == |data| {
      assert data[..i + 1] == data;
      assert rest[1..] == "";
    } else if r == More {
      ParseTracks(n, data, i + 1);
    }
  }

  /** On a head with one empty line, at its end, `parse` says yes exactly when the last character
      completes the message, and it is ready for the next message either way. */
  lemma CompleteAtEnd(m: Machine, data: string)
    requires OnlyAtEnd(data) && m.state == Start
    ensures ParseFrom(m, data).1 <==> LastResult(m, data) == Done
    ensures ParseFrom(m, data).0.state == Start
  {
    assert data[0..] == data && data[..0] == "";
    ParseTracks(m, data, 0);
  }

  // ---- The classes ----

  class Request {
    var method_: string
    var uri: string
    var scheme: string
    var contentLength: int
    var contentType: string
    var headers: map<string, string>
    var content: seq<bv8>

    constructor ()
      ensures Value() == Message("", "", "", 0, "", map[]) && content == []
    {
      method_, uri, scheme, contentLength, contentType, headers, content := "", "", "", 0, "", map[], [];
    }

    ghost function Value(): Message
      reads this
    {
      Message(method_, uri, scheme, contentLength, contentType, headers)
    }

    /** `request::serialize`, without the content. The map is walked in the order of its names, of
        which nothing is used. */
    method SerializeHead() returns (s: string, ghost names: seq<string>)
      requires contentLength >= 0
      ensures Lists(names, headers)
      ensures s == Head(Value(), names) && IsHead(Value(), s)
    {
      s := method_ + " " + uri + " " + scheme + "\r\n";
      ghost var first := s;
      names := [];
      var left := headers.Keys;
      while left != {}
        invariant left <= headers.Keys && forall n :: n in names <==> n in headers && n !in left
        invariant forall i, j | 0 <= i < j < |names| :: names[i] != names[j]
        invariant s == first + HeaderLines(headers, names)
        decreases |left|
      {
        var n :| n in left;
        HeaderLinesAppend(headers, names, n);
        s := s + (n + ": " + headers[n] + "\r\n");
        assert first + HeaderLines(headers, names) + HeaderLine(n, headers[n])
            == first + (HeaderLines(headers, names) + HeaderLine(n, headers[n]));
        names := names + [n];
        left := left - {n};
      }
      ghost var lines := s;
      s := s + HeaderLine(CONTENT_LENGTH, Decimal(contentLength));
      if contentType != "" {
        s := s + HeaderLine(CONTENT_TYPE, contentType);
      } else {
        assert s + "" == s;
      }
      s := s + "\r\n";
    }
  }

  lemma {:induction false} HeaderLinesAppend(headers: map<string, string>, names: seq<string>, n: string)
    requires n in headers && forall k | k in names :: k in headers
    ensures HeaderLines(headers, names + [n]) == HeaderLines(headers, names) + HeaderLine(n, headers[n])
    decreases |names|
  {
    hide HeaderLine;
    if names == [] {
      assert [n][1..] == [];
      assert HeaderLine(n, headers[n]) + "" == "" + HeaderLine(n, headers[n]);
    } else {
      HeaderLinesAppend(headers, names[1..], n);
      assert (names + [n])[1..] == names[1..] + [n];
      var a, b, c := HeaderLine(names[0], headers[names[0]]), HeaderLines(headers, names[1..]), HeaderLine(n, headers[n]);
      assert a + (b + c) == a + b + c;
    }
  }

  class HttpMessageParser {
    var state: State
    var name: string
    var value: string

    constructor ()
      ensures state == Start
    {
      state, name, value := Start, "", "";
    }

    /** The parser and the request as a machine. */
    ghost function Abstract(req: Request): Machine
      reads this, req
    {
      Machine(state, name, value, req.Value())
    }

    /** `consume`. */
    method Consume(req: Request, c: char) returns (r: Result)
      modifies this, req
      ensures (Abstract(req), r) == old(Step(Abstract(req), c))
      ensures req.content == old(req.content)
    {
      match state {
        case Start =>
          if !IsToken(c) { return Fail; }
          state := Method;
          req.method_ := req.method_ + [c];
        case Method =>
          if c == ' ' {
            state := Uri;
          } else if !IsToken(c) {
            return Fail;
          } else {
            req.method_ := req.method_ + [c];
          }
        case Uri =>
          if c == ' ' {
            state := Scheme;
          } else if !IsChar(c) || IsCtl(c) {
            return Fail;
          } else {
            req.uri := req.uri + [c];
          }
        case Scheme =>
          if c == '\r' {
            state := NewLine;
          } else if !IsChar(c) {
            return Fail;
          } else {
            req.scheme := req.scheme + [c];
          }
        case NewLine =>
          if c != '\n' { return Fail; }
          name := "";
          state := HeaderLineStart;
        case _ =>
          r := ConsumeHeader(req, c);
          return;
      }
      return More;
    }

    /** `consume`, in the states of the header lines. */
    method ConsumeHeader(req: Request, c: char) returns (r: Result)
      requires state in {HeaderLineStart, HeaderName, SpaceBeforeValue, HeaderValue, LastLine}
      modifies this, req
      ensures (Abstract(req), r) == old(Step(Abstract(req), c))
      ensures req.content == old(req.content)
    {
      match state {
        case HeaderLineStart =>
          if c == '\r' {
            state := LastLine;
          } else if !IsToken(c) {
            return Fail;
          } else {
            name := name + [c];
            state := HeaderName;
          }
        case HeaderName =>
          if c == ':' {
            value := "";
            state := SpaceBeforeValue;
          } else if !IsToken(c) {
            return Fail;
          } else {
            name := name + [c];
          }
        case SpaceBeforeValue =>
          if c != ' ' { return Fail; }
          state := HeaderValue;
        case HeaderValue =>
          if c == '\r' {
            if name == CONTENT_LENGTH {
              req.contentLength := Strtol(value) % SIZE_LIMIT;
            }
            if name == CONTENT_TYPE {
              req.contentType := value;
            }
            req.headers := req.headers[name := value];
            state := NewLine;
          } else if IsCtl(c) {
            return Fail;
          } else {
            value := value + [c];
          }
        case LastLine =>
          return if c == '\n' then Done else Fail;
      }
      return More;
    }

    /** `parse`, for a request: everything but the content type is cleared first. */
    method Parse(req: Request, data: string) returns (ok: bool)
      modifies this, req
      ensures (Abstract(req), ok)
              == old(ParseFrom(Machine(state, name, value, Message("", "", "", 0, req.contentType, map[])), data))
      ensures req.content == []
    {
      req.method_, req.uri, req.scheme, req.headers, req.content, req.contentLength := "", "", "", map[], [], 0;
      ghost var start := Abstract(req);
      for i := 0 to |data|
        invariant ParseFrom(start, data) == ParseFrom(Abstract(req), data[i..]) && req.content == []
      {
        hide Step;
        ghost var before := Abstract(req);
        var r := Consume(req, data[i]);
        assert data[i..][0] == data[i] && data[i..][1..] == data[i + 1..];
        if r != More {
          state := Start;
        }
        if r == Fail {
          return false;
        }
      }
      return true;
    }
  }

  /** Serializing a request and parsing the head into another object. */
  method SerializeAndParse(r: Request, parser: HttpMessageParser, into: Request) returns (ok: bool)
    requires WellFormed(r.Value()) && parser.state == Start && into != r
    modifies parser, into
    ensures ok && parser.state == Start && into.Value() == Returned(r.Value(), old(into.contentType))
    // the content type is the same exactly when it was not empty, or nothing else can take its place
    ensures into.contentType == r.contentType
            <==> r.contentType != ""
                 || (if CONTENT_TYPE in r.headers then r.headers[CONTENT_TYPE] == "" else old(into.contentType) == "")
  {
    hide WellFormed, Head, ParseFrom;
    Nonnegative(r.Value());
    var s, names := r.SerializeHead();
    ghost var empty := Message("", "", "", 0, into.contentType, map[]);
    HeadComesBack(r.Value(), names, Machine(parser.state, parser.name, parser.value, empty));
    ok := parser.Parse(into, s);
  }

  lemma Nonnegative(m: Message)
    requires WellFormed(m)
    ensures m.contentLength >= 0
  {
  }
}
