/** The HTTP/1.1 request parser, and the request printer of the reverse proxy
    that it reads back. */
module Http1 {
  import opened Bits
  import opened Fields

  const NUL: byte := 0
  const LF: byte := 10
  const CR: byte := 13
  const SP: byte := 32
  const COLON: byte := 58

  const MAX_LINE: nat := 4096
  const MAX_HEADERS: nat := 64

  // ---- C strings ----

  /** The index of the first `c`, or the length. */
  function Find(s: Bytes, c: byte): (i: nat)
    ensures i <= |s| && c !in s[..i] && (i < |s| ==> s[i] == c)
  {
    if s == [] || s[0] == c then 0 else
      var i := 1 + Find(s[1..], c);
      assert s[..i] == [s[0]] + s[1..][..i - 1];
      i
  }

  /** What comes before the first NUL. */
  function CString(line: Bytes): Bytes {
    line[..Find(line, NUL)]
  }

  function SkipSpaces(s: Bytes): Bytes {
    if s != [] && s[0] == SP then SkipSpaces(s[1..]) else s
  }

  function ToLower(c: byte): byte {
    if 65 <= c <= 90 then c + 32 else c
  }

  function Lower(s: Bytes): (r: Bytes)
    ensures |r| == |s|
  {
    seq(|s|, i requires 0 <= i < |s| => ToLower(s[i]))
  }

  predicate IsVerb(s: Bytes) {
    s == Ascii("GET") || s == Ascii("POST") || s == Ascii("PUT") || s == Ascii("DELETE")
    || s == Ascii("HEAD") || s == Ascii("OPTIONS")
  }

  // ---- Lines ----

  datatype Phase = RequestLine | Headers | Body | Done | Failed

  /** `line` is a line begun in an earlier chunk, `body` the buffer for the
      request's body, of which `written` bytes are there. */
  datatype Parser = Parser(phase: Phase, line: Bytes, verb: Bytes, version: Bytes, path: Bytes, headers: seq<Header>,
                           contentLength: nat, body: Bytes, written: nat, h2: bool)

  const NEW_PARSER := Parser(RequestLine, [], [], [], [], [], 0, [], 0, false)

  datatype Processed = Processed(ok: bool, p: Parser)

  function RequestLineStep(p: Parser, s: Bytes): Processed {
    var i := Find(s, SP);
    if i == |s| || !IsVerb(s[..i]) then Processed(false, p) else
      var rest := s[i + 1..];
      var j := Find(rest, SP);
      if j == |rest| then Processed(false, p.(verb := s[..i])) else
        var version := if rest[j + 1..] == Ascii("HTTP/1.0") then Ascii("HTTP/1.0") else Ascii("HTTP/1.1");
        Processed(true, p.(verb := s[..i], path := rest[..j], version := version, phase := Headers))
  }

  /** A header field goes into the list, up to a limit. */
  function Store(p: Parser, h: Header): Parser {
    if |p.headers| >= MAX_HEADERS then p
    else p.(headers := p.headers + [h],
            contentLength := if h.name == Ascii("content-length") then Digits(0, h.value) else p.contentLength)
  }

  function HeaderLineStep(p: Parser, s: Bytes): Processed {
    var i := Find(s, COLON);
    if i == |s| then Processed(false, p)
    else Processed(true, Store(p, Header(Lower(s[..i]), SkipSpaces(s[i + 1..]))))
  }

  /** The empty line: a body follows, or the request is complete. `fits`:
      whether the region gives a place for the body, whose length is then cut to
      32 bits. */
  function EndOfHeaders(p: Parser, fits: bool): Parser {
    if p.contentLength == 0 then p.(phase := Done)
    else p.(phase := Body, body := if fits then seq(p.contentLength % TWO32, _ => NUL) else p.body)
  }

  function ProcessLine(p: Parser, line: Bytes, fits: bool): Processed {
    var s := CString(line);
    if p.phase == RequestLine then RequestLineStep(p, s)
    else if p.phase != Headers then Processed(false, p)
    else if s == [] then Processed(true, EndOfHeaders(p, fits))
    else HeaderLineStep(p, s)
  }

  /** A whole line: processed, or the parser gives up. */
  function TakeLine(p: Parser, line: Bytes, fits: bool): Parser {
    var r := ProcessLine(p, line, fits);
    if r.ok then r.p.(line := []) else r.p.(phase := Failed)
  }

  // ---- Chunks ----

  function Least(a: int, b: int): int {
    if a < b then a else b
  }

  /** A chunk of the body goes into the buffer, as far as there is one. */
  function WriteBody(p: Parser, data: Bytes): (r: Parser)
    ensures r.phase == p.phase
  {
    if |p.body| <= p.written then p else
      var n := Least(|data|, |p.body| - p.written);
      p.(body := p.body[..p.written] + data[..n] + p.body[p.written + n..], written := p.written + n)
  }

  predicate Reading(p: Parser) {
    p.phase == RequestLine || p.phase == Headers
  }

  /** The line break found from the front of `d`, if a whole one is there. */
  predicate HasLine(d: Bytes) {
    Find(d, CR) + 1 < |d| && d[Find(d, CR) + 1] == LF
  }

  /** The line feed of a line break whose carriage return came earlier. */
  predicate SplitBreak(p: Parser, d: Bytes) {
    p.line != [] && p.line[|p.line| - 1] == CR && d != [] && d[0] == LF
  }

  /** What a chunk does to the parser. */
  function Loop(p: Parser, d: Bytes, fits: bool): Parser
    decreases |d|
  {
    if d == [] then p
    else if Reading(p) then
      if HasLine(d) then
        var n := Find(d, CR);
        if |p.line| + n >= MAX_LINE - 1 then p.(phase := Failed) else
          var q := TakeLine(p, p.line + d[..n], fits);
          if Reading(q) then Loop(q, d[n + 2..], fits) else q
      else if SplitBreak(p, d) then
        var q := TakeLine(p, p.line[..|p.line| - 1], fits);
        if Reading(q) then Loop(q, d[1..], fits) else q
      else if |p.line| >= MAX_LINE - 1 then p.(phase := Failed)
      else p.(line := p.line + d[..Least(MAX_LINE - 1 - |p.line|, |d|)])
    else if p.phase == Body then BodyStep(p, d)
    else p
  }

  /** Body bytes are counted up to the announced length; the rest is dropped. */
  function BodyStep(p: Parser, d: Bytes): Parser
    decreases |d|
  {
    if d == [] then p
    else if p.contentLength <= p.written then p.(phase := Done)
    else
      var n := Least(p.contentLength - p.written, |d|);
      var q := WriteBody(p, d[..n]);
      if q.written >= p.contentLength then q.(phase := Done) else BodyStep(q, d[n..])
  }

  /** A parser that is done, or gave up, starts over with the next chunk. */
  function Restarted(p: Parser): Parser {
    if p.phase == Done || p.phase == Failed
    then p.(phase := RequestLine, headers := [], line := [], contentLength := 0, written := 0)
    else p
  }

  const PREFACE_START := Ascii("PRI * HTTP/2.0\r")

  predicate IsPreface(p: Parser, d: Bytes) {
    p.phase == RequestLine && p.line == [] && |d| >= 15 && d[..15] == PREFACE_START
  }

  function Fed(p: Parser, d: Bytes, fits: bool): Parser {
    if IsPreface(p, d) then p.(h2 := true) else Loop(Restarted(p), d, fits)
  }

  // ---- The printer ----

  const CRLF: Bytes := [CR, LF]

  function HeaderLine(h: Header): Bytes {
    h.name + ([COLON, SP] + h.value)
  }

  function HeaderText(hs: seq<Header>): Bytes {
    if hs == [] then [] else HeaderLine(hs[0]) + (CRLF + HeaderText(hs[1..]))
  }

  function FirstLine(verb: Bytes, path: Bytes): Bytes {
    verb + ([SP] + (path + ([SP] + Ascii("HTTP/1.1"))))
  }

  function Print(verb: Bytes, path: Bytes, hs: seq<Header>): Bytes {
    FirstLine(verb, path) + (CRLF + (HeaderText(hs) + CRLF))
  }

  /** Headers that are not for the upstream server. */
  predicate HopByHop(name: Bytes) {
    name == Ascii("host") || name == Ascii("connection") || name == Ascii("transfer-encoding")
    || name == Ascii("proxy-connection") || name == Ascii("keep-alive") || name == Ascii("upgrade")
  }

  function Forwarded(hs: seq<Header>, n: nat): seq<Header>
    requires n <= |hs|
  {
    if n == 0 then []
    else Forwarded(hs, n - 1) + (if HopByHop(hs[n - 1].name) then [] else [hs[n - 1]])
  }

  lemma {:induction false} ForwardedPrefix(a: seq<Header>, b: seq<Header>, n: nat)
    requires n <= |a|
    ensures Forwarded(a + b, n) == Forwarded(a, n)
  {
    hide HopByHop;
    if n > 0 {
      ForwardedPrefix(a, b, n - 1);
    }
  }

  /** Each field is forwarded or not by itself, and their order is kept. */
  lemma {:induction false} ForwardedJoins(a: seq<Header>, b: seq<Header>, n: nat)
    requires n <= |b|
    ensures Forwarded(a + b, |a| + n) == Forwarded(a, |a|) + Forwarded(b, n)
  {
    hide HopByHop;
    if n == 0 {
      ForwardedPrefix(a, b, |a|);
    } else {
      ForwardedJoins(a, b, n - 1);
      assert (a + b)[|a| + n - 1] == b[n - 1];
    }
  }

  /** A field is dropped exactly if it has one of six names. */
  lemma ForwardedOne(h: Header)
    ensures var dropped := h.name == Ascii("host") || h.name == Ascii("connection")
                           || h.name == Ascii("transfer-encoding") || h.name == Ascii("proxy-connection")
                           || h.name == Ascii("keep-alive") || h.name == Ascii("upgrade");
            Forwarded([h], 1) == if dropped then [] else [h]
  {
    hide Ascii;
    assert Forwarded([h], 0) == [];
  }

  lemma HopNames(name: Bytes)
    ensures HopByHop(name) <==> name in {Ascii("host"), Ascii("connection"), Ascii("transfer-encoding"),
                                         Ascii("proxy-connection"), Ascii("keep-alive"), Ascii("upgrade")}
  {
    hide Ascii;
  }

  lemma {:induction false} FilteredValues(hs: seq<Header>, n: nat, name: Bytes)
    requires n <= |hs|
    ensures Values(Forwarded(hs, n), name) == if HopByHop(name) then [] else Values(hs[..n], name)
  {
    hide HopByHop, Values;
    NoValues(name);
    if n > 0 {
      FilteredValues(hs, n - 1, name);
      assert hs[..n] == hs[..n - 1] + [hs[n - 1]];
      ValuesJoin(hs[..n - 1], [hs[n - 1]], name);
      ValuesJoin(Forwarded(hs, n - 1), if HopByHop(hs[n - 1].name) then [] else [hs[n - 1]], name);
      ValuesOne(hs[n - 1], name);
    }
  }

  /** Of the six names nothing is forwarded; under every other name the same
      values in the same order. */
  lemma ForwardedValues(hs: seq<Header>, name: Bytes)
    ensures Values(Forwarded(hs, |hs|), name)
         == if name in {Ascii("host"), Ascii("connection"), Ascii("transfer-encoding"),
                        Ascii("proxy-connection"), Ascii("keep-alive"), Ascii("upgrade")} then []
            else Values(hs, name)
  {
    hide HopByHop, Ascii, Values, Forwarded;
    HopNames(name);
    FilteredValues(hs, |hs|, name);
    assert hs[..|hs|] == hs;
  }

  // ---- Round trip ----

  predicate Without(s: Bytes, cs: set<byte>) {
    forall i :: 0 <= i < |s| ==> s[i] !in cs
  }

  predicate PrintableHeader(h: Header) {
    && Without(h.name, {NUL, CR, COLON}) && Without(h.value, {NUL, CR})
    && |HeaderLine(h)| < MAX_LINE - 1
  }

  predicate Printable(verb: Bytes, path: Bytes, hs: seq<Header>) {
    && IsVerb(verb) && Without(path, {NUL, CR, SP}) && |FirstLine(verb, path)| < MAX_LINE - 1
    && (forall i :: 0 <= i < |hs| ==> PrintableHeader(hs[i]))
  }

  /** How a header comes back: its name in lower case, its value without
      leading spaces. */
  function Received(h: Header): Header {
    Header(Lower(h.name), SkipSpaces(h.value))
  }

  function StoreAll(p: Parser, hs: seq<Header>): Parser
    decreases |hs|
  {
    if hs == [] then p else StoreAll(Store(p, Received(hs[0])), hs[1..])
  }

  lemma {:induction false} FindExact(s: Bytes, c: byte, rest: Bytes)
    requires c !in s
    ensures Find(s + ([c] + rest), c) == |s|
    decreases |s|
  {
    var d := s + ([c] + rest);
    if s != [] {
      assert d[0] == s[0] && s[0] in s;
      assert d[1..] == s[1..] + ([c] + rest);
      FindExact(s[1..], c, rest);
    }
  }

  /** `c` splits `a` from `b`. */
  lemma SplitAt(a: Bytes, c: byte, b: Bytes)
    requires c !in a
    ensures var s := a + ([c] + b); Find(s, c) == |a| && |a| < |s| && s[..|a|] == a && s[|a| + 1..] == b
  {
    hide Find;
    FindExact(a, c, b);
  }

  lemma {:induction false} FindNone(s: Bytes, c: byte)
    requires c !in s
    ensures Find(s, c) == |s|
  {
    if s != [] {
      assert s[0] in s;
      FindNone(s[1..], c);
    }
  }

  lemma NotIn(s: Bytes, cs: set<byte>, c: byte)
    requires Without(s, cs) && c in cs
    ensures c !in s
  {
  }

  lemma WholeCString(s: Bytes)
    requires NUL !in s
    ensures CString(s) == s
  {
    FindNone(s, NUL);
  }

  /** A line without a carriage return, and its break: taken as a whole. */
  lemma LineTaken(p: Parser, line: Bytes, tail: Bytes, fits: bool)
    requires Reading(p) && p.line == [] && CR !in line && |line| < MAX_LINE - 1
    ensures var q := TakeLine(p, line, fits);
            Loop(p, line + (CRLF + tail), fits) == if Reading(q) then Loop(q, tail, fits) else q
  {
    hide Loop, TakeLine;
    LineBehind(p, line, tail, fits);
    assert p.line + line == line;
  }

  lemma VerbBytes(s: Bytes)
    requires IsVerb(s)
    ensures |s| >= 3 && s[1] != 0x52 && Without(s, {NUL, CR, SP})
  {
    hide Ascii, Without;
    if s == Ascii("GET") {
      Capitals("GET");
    } else if s == Ascii("POST") {
      Capitals("POST");
    } else if s == Ascii("PUT") {
      Capitals("PUT");
    } else if s == Ascii("DELETE") {
      Capitals("DELETE");
    } else if s == Ascii("HEAD") {
      Capitals("HEAD");
    } else {
      Capitals("OPTIONS");
    }
  }

  lemma Capitals(s: string)
    requires |s| >= 3 && s[1] != 'R' && forall c :: c in s ==> 'A' <= c <= 'Z'
    ensures Ascii(s)[1] != 0x52 && Without(Ascii(s), {NUL, CR, SP})
  {
    forall i | 0 <= i < |s| ensures 65 <= Ascii(s)[i] <= 90 {
      assert s[i] in s;
    }
    assert s[1] in s;
  }

  lemma VersionBytes()
    ensures Without(Ascii("HTTP/1.1"), {NUL, CR})
  {
  }

  lemma FirstLineBytes(verb: Bytes, path: Bytes)
    requires IsVerb(verb) && Without(path, {NUL, CR, SP})
    ensures Without(FirstLine(verb, path), {NUL, CR})
  {
    VerbBytes(verb);
    VersionBytes();
    hide IsVerb, Ascii;
  }

  lemma FirstLineRead(p: Parser, verb: Bytes, path: Bytes, fits: bool)
    requires p.phase == RequestLine && p.line == [] && IsVerb(verb) && Without(path, {NUL, CR, SP})
    ensures TakeLine(p, FirstLine(verb, path), fits)
         == p.(verb := verb, path := path, version := Ascii("HTTP/1.1"), phase := Headers)
  {
    VersionBytes();
    VersionsDiffer();
    hide Ascii, TakeLine;
    NotIn(Ascii("HTTP/1.1"), {NUL, CR}, NUL);
    RequestLineRead(p, verb, path, Ascii("HTTP/1.1"), fits);
  }

  lemma VersionsDiffer()
    ensures Ascii("HTTP/1.1") != Ascii("HTTP/1.0")
  {
    assert Ascii("HTTP/1.1")[7] == 49 && Ascii("HTTP/1.0")[7] == 48;
  }

  lemma VerbNames(verb: Bytes)
    ensures IsVerb(verb) <==>
            verb in {Ascii("GET"), Ascii("POST"), Ascii("PUT"), Ascii("DELETE"), Ascii("HEAD"), Ascii("OPTIONS")}
  {
    hide Ascii;
  }

  /** A request line: method, path, and version 1.0 if the last word says so,
      else 1.1. */
  lemma RequestLineRead(p: Parser, verb: Bytes, path: Bytes, text: Bytes, fits: bool)
    requires p.phase == RequestLine && Without(path, {NUL, CR, SP}) && NUL !in text
    requires verb in {Ascii("GET"), Ascii("POST"), Ascii("PUT"), Ascii("DELETE"), Ascii("HEAD"), Ascii("OPTIONS")}
    ensures TakeLine(p, verb + ([SP] + (path + ([SP] + text))), fits)
         == p.(line := [], verb := verb, path := path, phase := Headers,
               version := if text == Ascii("HTTP/1.0") then Ascii("HTTP/1.0") else Ascii("HTTP/1.1"))
  {
    VerbNames(verb);
    VerbBytes(verb);
    hide IsVerb, Ascii, Find;
    var s := verb + ([SP] + (path + ([SP] + text)));
    NotIn(verb, {NUL, CR, SP}, NUL);
    NotIn(path, {NUL, CR, SP}, NUL);
    NotIn(verb, {NUL, CR, SP}, SP);
    NotIn(path, {NUL, CR, SP}, SP);
    hide Without;
    WholeCString(s);
    hide CString;
    SplitAt(verb, SP, path + ([SP] + text));
    SplitAt(path, SP, text);
  }

  /** A request line without two spaces, or whose first word is none of the six
      methods, makes the parser give up. */
  lemma RequestLineRefused(p: Parser, line: Bytes, fits: bool)
    requires p.phase == RequestLine && NUL !in line
    requires var i := Find(line, SP);
             || i == |line| || SP !in line[i + 1..]
             || line[..i] !in {Ascii("GET"), Ascii("POST"), Ascii("PUT"), Ascii("DELETE"), Ascii("HEAD"),
                               Ascii("OPTIONS")}
    ensures TakeLine(p, line, fits).phase == Failed
  {
    hide Ascii, IsVerb;
    WholeCString(line);
    var i := Find(line, SP);
    VerbNames(line[..i]);
    hide CString;
    if i < |line| && SP !in line[i + 1..] {
      FindNone(line[i + 1..], SP);
    }
    hide Find;
  }

  /** A header line without a colon makes the parser give up. */
  lemma HeaderLineRefused(p: Parser, line: Bytes, fits: bool)
    requires p.phase == Headers && NUL !in line && line != [] && COLON !in line
    ensures TakeLine(p, line, fits).phase == Failed
  {
    WholeCString(line);
    FindNone(line, COLON);
    hide Find;
  }

  lemma HeaderLineRead(p: Parser, h: Header, fits: bool)
    requires p.phase == Headers && p.line == [] && PrintableHeader(h)
    ensures TakeLine(p, HeaderLine(h), fits) == Store(p, Received(h))
  {
    hide Find, Store, Lower;
    var s := HeaderLine(h);
    assert Without(s, {NUL, CR});
    NotIn(s, {NUL, CR}, NUL);
    WholeCString(s);
    NotIn(h.name, {NUL, CR, COLON}, COLON);
    assert s == h.name + ([COLON] + ([SP] + h.value));
    SplitAt(h.name, COLON, [SP] + h.value);
    assert ([SP] + h.value)[1..] == h.value;
    StoreKeeps(p, Received(h));
  }

  lemma StoreKeeps(p: Parser, h: Header)
    ensures Store(p, h).phase == p.phase && Store(p, h).line == p.line
  {
  }

  lemma EmptyLineRead(p: Parser, fits: bool)
    requires p.phase == Headers && p.line == []
    ensures TakeLine(p, [], fits) == EndOfHeaders(p, fits)
  {
  }

  /** The header lines and the empty line; what comes behind is not looked at. */
  lemma {:induction false} HeadersRead(p: Parser, hs: seq<Header>, more: Bytes, fits: bool)
    requires p.phase == Headers && p.line == [] && forall i :: 0 <= i < |hs| ==> PrintableHeader(hs[i])
    ensures Loop(p, HeaderText(hs) + (CRLF + more), fits) == EndOfHeaders(StoreAll(p, hs), fits)
    decreases |hs|
  {
    hide Loop, TakeLine, Store;
    if hs == [] {
      assert HeaderText(hs) + (CRLF + more) == [] + (CRLF + more);
      LineTaken(p, [], more, fits);
      EmptyLineRead(p, fits);
    } else {
      var tail := HeaderText(hs[1..]) + (CRLF + more);
      var line := HeaderLine(hs[0]);
      assert HeaderText(hs) + (CRLF + more) == line + (CRLF + tail);
      assert PrintableHeader(hs[0]);
      HeaderLineClean(hs[0]);
      hide HeaderLine, PrintableHeader;
      LineTaken(p, line, tail, fits);
      HeaderLineRead(p, hs[0], fits);
      StoreKeeps(p, Received(hs[0]));
      HeadersRead(Store(p, Received(hs[0])), hs[1..], more, fits);
    }
  }

  lemma HeaderLineClean(h: Header)
    requires PrintableHeader(h)
    ensures CR !in HeaderLine(h) && |HeaderLine(h)| < MAX_LINE - 1
  {
    assert Without(HeaderLine(h), {NUL, CR});
    NotIn(HeaderLine(h), {NUL, CR}, CR);
  }

  /** Ready for a new request. */
  predicate Ready(p: Parser) {
    p.phase == Done || p.phase == Failed
    || (p.phase == RequestLine && p.line == [] && p.headers == [] && p.contentLength == 0 && p.written == 0)
  }

  lemma NoPreface(p: Parser, verb: Bytes, rest: Bytes)
    requires IsVerb(verb)
    ensures !IsPreface(p, verb + rest)
  {
    VerbBytes(verb);
    assert PREFACE_START[1] == 0x52;
    assert |verb + rest| >= 15 ==> (verb + rest)[..15][1] == verb[1];
  }

  /** A printed request at the front of one chunk: every line is processed. */
  lemma PrintedIsRead(p: Parser, verb: Bytes, path: Bytes, hs: seq<Header>, more: Bytes, fits: bool)
    requires Ready(p) && Printable(verb, path, hs)
    ensures var q := Restarted(p).(verb := verb, path := path, version := Ascii("HTTP/1.1"), phase := Headers);
            Fed(p, Print(verb, path, hs) + more, fits) == EndOfHeaders(StoreAll(q, hs), fits)
  {
    var line, tail := FirstLine(verb, path), HeaderText(hs) + (CRLF + more);
    FirstLineBytes(verb, path);
    NotIn(line, {NUL, CR}, CR);
    var d := line + (CRLF + tail);
    assert Print(verb, path, hs) + more == d;
    assert d == verb + d[|verb|..];
    NoPreface(p, verb, d[|verb|..]);
    hide IsVerb, Ascii, Loop, TakeLine, FirstLine, IsPreface;
    var q := Restarted(p);
    LineTaken(q, line, tail, fits);
    FirstLineRead(q, verb, path, fits);
    HeadersRead(q.(verb := verb, path := path, version := Ascii("HTTP/1.1"), phase := Headers), hs, more, fits);
  }

  /** The length announced by the last such header among the first `n`. */
  function Announced(headers: seq<Header>, n: nat): nat
    requires n <= |headers|
  {
    if n == 0 then 0
    else if headers[n - 1].name == Ascii("content-length") then Digits(0, headers[n - 1].value)
    else Announced(headers, n - 1)
  }

  function AllReceived(hs: seq<Header>): seq<Header> {
    seq(|hs|, i requires 0 <= i < |hs| => Received(hs[i]))
  }

  /** The headers a parser keeps of `hs` on top of `kept`. */
  function Kept(kept: seq<Header>, hs: seq<Header>): seq<Header> {
    var all := kept + AllReceived(hs);
    if |all| <= MAX_HEADERS then all else all[..MAX_HEADERS]
  }

  lemma {:induction false} AnnouncedPrefix(headers: seq<Header>, h: Header, n: nat)
    requires n <= |headers|
    ensures Announced(headers + [h], n) == Announced(headers, n)
  {
    if n > 0 {
      AnnouncedPrefix(headers, h, n - 1);
    }
  }

  lemma StoreOne(p: Parser, h: Header)
    requires |p.headers| <= MAX_HEADERS && p.contentLength == Announced(p.headers, |p.headers|)
    ensures var q := Store(p, h); |q.headers| <= MAX_HEADERS && q.contentLength == Announced(q.headers, |q.headers|)
  {
    AnnouncedPrefix(p.headers, h, |p.headers|);
  }

  lemma KeptOne(p: Parser, hs: seq<Header>)
    requires |p.headers| <= MAX_HEADERS && hs != []
    ensures Kept(p.headers, hs) == Kept(Store(p, Received(hs[0])).headers, hs[1..])
  {
    var all := seq(|hs|, i requires 0 <= i < |hs| => Received(hs[i]));
    var others := seq(|hs[1..]|, i requires 0 <= i < |hs[1..]| => Received(hs[1..][i]));
    hide Received;
    assert all == [Received(hs[0])] + others;
    assert p.headers + all == (p.headers + [Received(hs[0])]) + others;
  }

  lemma {:induction false} StoredAll(p: Parser, hs: seq<Header>)
    requires |p.headers| <= MAX_HEADERS && p.contentLength == Announced(p.headers, |p.headers|)
    ensures var q := StoreAll(p, hs);
            && q == p.(headers := q.headers, contentLength := q.contentLength)
            && q.headers == Kept(p.headers, hs) && q.contentLength == Announced(q.headers, |q.headers|)
            && |q.headers| <= 64 && (|p.headers| + |hs| <= 64 ==> |q.headers| == |p.headers| + |hs|)
    decreases |hs|
  {
    hide Announced, Received;
    if hs == [] {
      assert Kept(p.headers, hs) == p.headers;
    } else {
      var q := Store(p, Received(hs[0]));
      StoreOne(p, Received(hs[0]));
      KeptOne(p, hs);
      assert q == p.(headers := q.headers, contentLength := q.contentLength);
      hide Store, Kept;
      StoredAll(q, hs[1..]);
    }
  }

  /** A printed request is read back: verb, path and header fields, up to the
      limit, names in lower case. It is complete exactly when no body is
      announced. What is behind it in the chunk, a body too, is dropped. */
  lemma RequestRoundTrip(p: Parser, verb: Bytes, path: Bytes, hs: seq<Header>, more: Bytes, fits: bool)
    requires Ready(p) && Printable(verb, path, hs)
    ensures var q := Fed(p, Print(verb, path, hs) + more, fits);
            && q.verb == verb && q.path == path && q.version == Ascii("HTTP/1.1") && q.headers == Kept([], hs)
            && q.line == [] && q.written == 0
            && q.phase == (if Announced(q.headers, |q.headers|) == 0 then Done else Body)
            && q.contentLength == Announced(q.headers, |q.headers|)
            && (fits && q.phase == Body ==> |q.body| == q.contentLength % TWO32)
  {
    PrintedIsRead(p, verb, path, hs, more, fits);
    hide Fed, Print, Printable, Ascii, Kept, StoreAll, Announced;
    var q := Restarted(p).(verb := verb, path := path, version := Ascii("HTTP/1.1"), phase := Headers);
    assert Announced(q.headers, |q.headers|) == 0 by { NoneAnnounced(); }
    StoredAll(q, hs);
  }

  lemma NoneAnnounced()
    ensures Announced([], 0) == 0
  {
  }

  // ---- Bytes and limits ----

  /** The printer's bytes, as text; a C string ends before a zero byte. */
  lemma PrintedText(verb: Bytes, path: Bytes, h: Header)
    ensures FirstLine(verb, path) == verb + Ascii(" ") + path + Ascii(" HTTP/1.1")
    ensures HeaderLine(h) == h.name + Ascii(": ") + h.value && CRLF == Ascii("\r\n") && NUL == 0
  {
    assert Ascii(" HTTP/1.1") == [SP] + Ascii("HTTP/1.1");
    assert Ascii(" ") == [SP] && Ascii(": ") == [COLON, SP];
    hide Ascii;
  }

  /** A new chunk that begins with the HTTP/2 preface is taken for it. */
  lemma PrefaceSeen(p: Parser, rest: Bytes)
    requires p.phase == RequestLine && p.line == []
    ensures IsPreface(p, Ascii("PRI * HTTP/2.0\r\n\r\nSM\r\n\r\n") + rest)
  {
    var d := Ascii("PRI * HTTP/2.0\r\n\r\nSM\r\n\r\n");
    assert |d| == 24 && (d + rest)[..15] == d[..15];
  }

  lemma {:induction false} LoopKeepsH2(p: Parser, d: Bytes, fits: bool)
    ensures Loop(p, d, fits).h2 == p.h2
    decreases |d|
  {
    hide Find, Ascii, CString, IsVerb, Lower, SkipSpaces, Fields.Digits, WriteBody;
    if d != [] && Reading(p) {
      if HasLine(d) {
        var n := Find(d, CR);
        LoopKeepsH2(TakeLine(p, p.line + d[..n], fits), d[n + 2..], fits);
      } else if SplitBreak(p, d) {
        LoopKeepsH2(TakeLine(p, p.line[..|p.line| - 1], fits), d[1..], fits);
      }
    } else if p.phase == Body {
      BodyKeepsH2(p, d);
    }
  }

  lemma {:induction false} BodyKeepsH2(p: Parser, d: Bytes)
    ensures BodyStep(p, d).h2 == p.h2
    decreases |d|
  {
    if d != [] && p.contentLength > p.written {
      var n := Least(p.contentLength - p.written, |d|);
      BodyKeepsH2(WriteBody(p, d[..n]), d[n..]);
    }
  }

  /** HTTP/2 is detected exactly by such a chunk. */
  lemma PrefaceDetected(p: Parser, d: Bytes, fits: bool)
    ensures Fed(p, d, fits).h2 <==> p.h2 || IsPreface(p, d)
  {
    hide Loop, IsPreface;
    LoopKeepsH2(Restarted(p), d, fits);
  }

  /** A line of 4095 bytes or more, whole or begun, makes the parser give up. */
  lemma LineTooLong(p: Parser, line: Bytes, rest: Bytes, fits: bool)
    requires Reading(p) && CR !in line && |p.line| + |line| >= 4095
    ensures Loop(p, line + (CRLF + rest), fits).phase == Failed
  {
    var d := line + (CRLF + rest);
    SplitAt(line, CR, [LF] + rest);
    assert d == line + ([CR] + ([LF] + rest));
    hide Find, TakeLine;
  }

  lemma LineBegunTooLong(p: Parser, d: Bytes, fits: bool)
    requires Reading(p) && d != [] && !HasLine(d) && !SplitBreak(p, d) && |p.line| >= 4095
    ensures Loop(p, d, fits).phase == Failed
  {
    hide HasLine, SplitBreak, TakeLine;
  }

  // ---- A line in two chunks ----

  /** In the middle of a line: the bytes are kept for later. */
  lemma KeptForLater(p: Parser, part: Bytes, fits: bool)
    requires Reading(p) && CR !in part && CR !in p.line && |p.line| + |part| < MAX_LINE - 1
    ensures Loop(p, part, fits) == p.(line := p.line + part)
  {
    FindNone(part, CR);
    if part == [] {
      assert p.line + part == p.line;
    } else {
      assert part[..|part|] == part;
    }
  }

  /** A line cut once, anywhere before its line break, is read as if it came
      whole; a parser that gave up differs in the bytes it kept, which the next
      chunk discards. */
  lemma CutLine(p: Parser, line: Bytes, k: nat, rest: Bytes, fits: bool)
    requires Reading(p) && CR !in line && CR !in p.line && |p.line| + |line| < MAX_LINE - 1 && k <= |line|
    ensures var a := Loop(Loop(p, line[..k], fits), line[k..] + (CRLF + rest), fits);
            var b := Loop(p, line + (CRLF + rest), fits);
            Restarted(a) == Restarted(b) && (a.phase != Failed ==> a == b)
  {
    hide Loop, TakeLine;
    KeptForLater(p, line[..k], fits);
    var q := p.(line := p.line + line[..k]);
    LineBehind(p, line, rest, fits);
    LineBehind(q, line[k..], rest, fits);
    assert q.line + line[k..] == p.line + line by { assert line == line[..k] + line[k..]; }
    TakesAlike(p, q, p.line + line, fits);
  }

  lemma TakesAlike(p: Parser, q: Parser, line: Bytes, fits: bool)
    requires Reading(p) && q == p.(line := q.line)
    ensures var a, b := TakeLine(p, line, fits), TakeLine(q, line, fits);
            a.(line := []) == b.(line := []) && (a.phase != Failed ==> a == b)
  {
    hide RequestLineStep, HeaderLineStep, EndOfHeaders, CString;
    var s := CString(line);
    RequestLineAlike(p, q, s);
    HeaderLineAlike(p, q, s);
    EndAlike(p, q, fits);
  }

  lemma RequestLineAlike(p: Parser, q: Parser, s: Bytes)
    requires q == p.(line := q.line)
    ensures var a, b := RequestLineStep(p, s), RequestLineStep(q, s); a.ok == b.ok && b.p == a.p.(line := q.line)
  {
    hide Ascii, Find, IsVerb;
  }

  lemma HeaderLineAlike(p: Parser, q: Parser, s: Bytes)
    requires q == p.(line := q.line)
    ensures var a, b := HeaderLineStep(p, s), HeaderLineStep(q, s); a.ok == b.ok && b.p == a.p.(line := q.line)
  {
    hide Ascii, Find, Lower, SkipSpaces, Fields.Digits;
  }

  lemma EndAlike(p: Parser, q: Parser, fits: bool)
    requires q == p.(line := q.line)
    ensures EndOfHeaders(q, fits) == EndOfHeaders(p, fits).(line := q.line)
  {
  }

  /** The end of a line whose beginning was kept. */
  lemma LineBehind(p: Parser, line: Bytes, rest: Bytes, fits: bool)
    requires Reading(p) && CR !in line && |p.line| + |line| < MAX_LINE - 1
    ensures var q := TakeLine(p, p.line + line, fits);
            Loop(p, line + (CRLF + rest), fits) == if Reading(q) then Loop(q, rest, fits) else q
  {
    hide TakeLine;
    var d := line + (CRLF + rest);
    FindExact(line, CR, [LF] + rest);
    assert d == line + ([CR] + ([LF] + rest));
    assert d[..|line|] == line && d[|line| + 2..] == rest;
  }

  /** Cut inside its line break, a line is read so if the next chunk has no whole
      line break of its own. */
  lemma CutInBreak(p: Parser, line: Bytes, rest: Bytes, fits: bool)
    requires Reading(p) && CR !in line && CR !in p.line && |p.line| + |line| + 1 < MAX_LINE - 1
    requires !HasLine([LF] + rest)
    ensures var a, b := Loop(Loop(p, line + [CR], fits), [LF] + rest, fits), Loop(p, line + (CRLF + rest), fits);
            Restarted(a) == Restarted(b) && (a.phase != Failed ==> a == b)
  {
    hide Loop, TakeLine, HasLine;
    LineBehind(p, line, rest, fits);
    ReturnKept(p, line, fits);
    var q := p.(line := p.line + (line + [CR]));
    assert q.line[..|q.line| - 1] == p.line + line;
    BreakEnds(q, rest, fits);
    TakesAlike(p, q, p.line + line, fits);
  }

  /** A carriage return at the end of a chunk is kept with its line. */
  lemma ReturnKept(p: Parser, line: Bytes, fits: bool)
    requires Reading(p) && CR !in line && CR !in p.line && |p.line| + |line| + 1 < MAX_LINE - 1
    ensures Loop(p, line + [CR], fits) == p.(line := p.line + (line + [CR]))
  {
    hide TakeLine;
    var d := line + [CR];
    FindExact(line, CR, []);
    assert d == line + ([CR] + []);
    assert d[..|d|] == d;
    hide Find;
    assert !SplitBreak(p, d);
  }

  lemma BreakEnds(q: Parser, rest: Bytes, fits: bool)
    requires Reading(q) && q.line != [] && q.line[|q.line| - 1] == CR && !HasLine([LF] + rest)
    ensures var t := TakeLine(q, q.line[..|q.line| - 1], fits);
            Loop(q, [LF] + rest, fits) == if Reading(t) then Loop(t, rest, fits) else t
  {
    hide TakeLine, HasLine;
    assert ([LF] + rest)[1..] == rest;
  }

  /** If it has one, two lines are read as one. After a request line cut so, the
      first header field is lost. */
  lemma CutBreakLosesHeader(p: Parser, verb: Bytes, path: Bytes, h: Header, fits: bool)
    requires p.phase == RequestLine && p.line == [] && p.headers == [] && Printable(verb, path, [h])
    requires |FirstLine(verb, path)| + |HeaderLine(h)| + 2 < MAX_LINE - 1
    ensures var first := FirstLine(verb, path);
            var cut := Loop(Loop(p, first + [CR], fits), ([LF] + HeaderLine(h)) + (CRLF + []), fits);
            var whole := Loop(p, first + (CRLF + (HeaderLine(h) + (CRLF + []))), fits);
            cut.phase == whole.phase == Headers && cut.headers == [] && whole.headers == [Received(h)]
  {
    var first := FirstLine(verb, path);
    assert PrintableHeader([h][0]);
    FirstLineBytes(verb, path);
    NotIn(first, {NUL, CR}, CR);
    HeaderLineClean(h);
    hide IsVerb, Ascii, FirstLine, HeaderLine, Loop, TakeLine, Received;
    WholeReads(p, verb, path, h, fits);
    ReturnKept(p, first, fits);
    var q := p.(line := p.line + (first + [CR]));
    assert q.line == first + [CR];
    LineBehind(q, [LF] + HeaderLine(h), [], fits);
    MergedLine(q, verb, path, h, fits);
    NothingLeft(TakeLine(q, q.line + ([LF] + HeaderLine(h)), fits), fits);
  }

  lemma NothingLeft(p: Parser, fits: bool)
    ensures Loop(p, [], fits) == p
  {
  }

  lemma WholeReads(p: Parser, verb: Bytes, path: Bytes, h: Header, fits: bool)
    requires p.phase == RequestLine && p.line == [] && p.headers == [] && Printable(verb, path, [h])
    ensures var whole := Loop(p, FirstLine(verb, path) + (CRLF + (HeaderLine(h) + (CRLF + []))), fits);
            whole.phase == Headers && whole.headers == [Received(h)]
  {
    var first := FirstLine(verb, path);
    assert PrintableHeader([h][0]);
    FirstLineBytes(verb, path);
    NotIn(first, {NUL, CR}, CR);
    HeaderLineClean(h);
    hide IsVerb, Ascii, FirstLine, HeaderLine, Loop, TakeLine, Received;
    LineTaken(p, first, HeaderLine(h) + (CRLF + []), fits);
    FirstLineRead(p, verb, path, fits);
    var q := TakeLine(p, first, fits);
    LineTaken(q, HeaderLine(h), [], fits);
    HeaderLineRead(q, h, fits);
    NothingLeft(TakeLine(q, HeaderLine(h), fits), fits);
    StoreKeeps(q, Received(h));
  }

  /** A request line with a header line behind it is read as a request line. */
  lemma MergedLine(q: Parser, verb: Bytes, path: Bytes, h: Header, fits: bool)
    requires q.phase == RequestLine && q.line == FirstLine(verb, path) + [CR] && Printable(verb, path, [h])
    ensures TakeLine(q, q.line + ([LF] + HeaderLine(h)), fits).phase == Headers
    ensures TakeLine(q, q.line + ([LF] + HeaderLine(h)), fits).headers == q.headers
  {
    assert PrintableHeader([h][0]);
    assert Without(HeaderLine(h), {NUL, CR});
    NotIn(HeaderLine(h), {NUL, CR}, NUL);
    VersionBytes();
    NotIn(Ascii("HTTP/1.1"), {NUL, CR}, NUL);
    hide Ascii, HeaderLine, TakeLine, IsVerb, Without;
    var text := Ascii("HTTP/1.1") + ([CR] + ([LF] + HeaderLine(h)));
    Regrouped(verb, path, Ascii("HTTP/1.1"), [LF] + HeaderLine(h));
    RequestLineRead(q, verb, path, text, fits);
  }

  lemma Regrouped(verb: Bytes, path: Bytes, version: Bytes, more: Bytes)
    ensures ((verb + ([SP] + (path + ([SP] + version)))) + [CR]) + more
         == verb + ([SP] + (path + ([SP] + (version + ([CR] + more)))))
  {
  }

  // ---- A body in any number of chunks ----

  /** How much of the body the buffer takes. */
  function Capacity(p: Parser): nat {
    if |p.body| < p.contentLength then |p.body| else p.contentLength
  }

  /** Bytes in their order, up to what the buffer takes; the request is
      complete exactly when all announced bytes are in it. */
  predicate Took(p: Parser, d: Bytes, q: Parser) {
    && q == p.(body := q.body, written := q.written, phase := q.phase)
    && q.written == Least(Capacity(p), p.written + |d|) && q.written <= |q.body| == |p.body|
    && p.written <= q.written && p.written <= |p.body|
    && q.body[..q.written] == p.body[..p.written] + d[..q.written - p.written]
    && q.phase == (if q.written == p.contentLength then Done else Body)
  }

  lemma {:induction false} BodyTaken(p: Parser, d: Bytes)
    requires p.phase == Body && p.written <= |p.body| && p.written < p.contentLength
    ensures Took(p, d, BodyStep(p, d))
    decreases |d|
  {
    if d == [] {
      assert p.body[..p.written] + [] == p.body[..p.written];
    } else {
      var n := Least(p.contentLength - p.written, |d|);
      var q := WriteBody(p, d[..n]);
      ChunkTaken(p, d, n);
      if q.written < p.contentLength {
        hide WriteBody;
        BodyTaken(q, d[n..]);
        TakenOn(p, d, n, q, BodyStep(q, d[n..]));
      }
    }
  }

  lemma ChunkTaken(p: Parser, d: Bytes, n: nat)
    requires p.phase == Body && p.written <= |p.body| && p.written < p.contentLength
    requires n == Least(p.contentLength - p.written, |d|)
    ensures var q := WriteBody(p, d[..n]);
            && q == p.(body := q.body, written := q.written) && |q.body| == |p.body|
            && p.written <= q.written == Least(|p.body|, p.written + n)
            && q.body[..q.written] == p.body[..p.written] + d[..q.written - p.written]
  {
    assert d[..0] == [] && p.body[..p.written] + [] == p.body[..p.written];
    var k := Least(n, |p.body| - p.written);
    assert d[..n][..k] == d[..k];
    if |p.body| > p.written {
      var q := WriteBody(p, d[..n]);
      assert q.body == p.body[..p.written] + d[..k] + p.body[p.written + k..];
      assert q.body[..q.written] == p.body[..p.written] + d[..k];
    }
  }

  lemma TakenOn(p: Parser, d: Bytes, n: nat, q: Parser, r: Parser)
    requires p.phase == Body && n <= |d| && n == Least(p.contentLength - p.written, |d|)
    requires q == p.(body := q.body, written := q.written) && |q.body| == |p.body| && q.written < p.contentLength
    requires p.written <= q.written == Least(|p.body|, p.written + n)
    requires q.body[..q.written] == p.body[..p.written] + d[..q.written - p.written]
    requires Took(q, d[n..], r)
    ensures Took(p, d, r)
  {
    if q.written < p.written + n {
      assert r.written == q.written;
      assert d[n..][..0] == [];
      assert r.body[..r.written] == q.body[..q.written] + [];
    } else {
      assert d[..n] + d[n..][..r.written - q.written] == d[..r.written - p.written];
    }
  }

  /** The first `n` chunks, joined. */
  function Joined(chunks: seq<Bytes>, n: nat): Bytes
    requires n <= |chunks|
  {
    if n == 0 then [] else Joined(chunks, n - 1) + chunks[n - 1]
  }

  /** The parser after the first `n` chunks. */
  function AfterChunks(p: Parser, chunks: seq<Bytes>, n: nat): Parser
    requires n <= |chunks|
  {
    if n == 0 then p else Fed(AfterChunks(p, chunks, n - 1), chunks[n - 1], true)
  }

  /** However the body is cut into chunks, the buffer holds its bytes in order,
      and the request is complete exactly when the whole body has come and the
      buffer was large enough for it. */
  lemma {:induction false} BodyArrives(p: Parser, chunks: seq<Bytes>, n: nat)
    requires p.phase == Body && p.written == 0 && p.contentLength > 0
    requires n <= |chunks| && (n > 0 ==> |Joined(chunks, n - 1)| < p.contentLength)
    ensures Took(p, Joined(chunks, n), AfterChunks(p, chunks, n))
    ensures AfterChunks(p, chunks, n).phase == Done
       <==> p.contentLength <= |p.body| && p.contentLength <= |Joined(chunks, n)|
  {
    hide Fed, BodyStep;
    if n == 0 {
      assert p.body[..0] == [];
    } else {
      JoinedGrows(chunks, n - 1);
      BodyArrives(p, chunks, n - 1);
      var q, d := AfterChunks(p, chunks, n - 1), chunks[n - 1];
      FedBody(q, d);
      BodyTaken(q, d);
      TookTwice(p, Joined(chunks, n - 1), q, d, Fed(q, d, true));
    }
  }

  lemma FedBody(q: Parser, d: Bytes)
    requires q.phase == Body
    ensures Fed(q, d, true) == BodyStep(q, d)
  {
  }

  lemma JoinedGrows(chunks: seq<Bytes>, n: nat)
    requires n <= |chunks|
    ensures n > 0 ==> |Joined(chunks, n - 1)| <= |Joined(chunks, n)|
  {
  }

  lemma TookTwice(p: Parser, a: Bytes, q: Parser, b: Bytes, r: Parser)
    requires p.phase == Body && Took(p, a, q) && q.phase == Body && Took(q, b, r)
    ensures Took(p, a + b, r)
  {
    if q.written < p.written + |a| {
      assert b[..0] == [];
      assert r.body[..r.written] == q.body[..q.written] + [];
      assert (a + b)[..q.written - p.written] == a[..q.written - p.written];
    } else {
      assert a[..|a|] == a;
      assert (a + b)[..r.written - p.written] == a + b[..r.written - q.written];
    }
  }

  /** A whole request, its body in any chunks behind the header section, if the
      region gave a place: the bytes come in order up to the announced length cut
      to 32 bits; complete exactly when it needs no cut and all bytes have come,
      and then the body is those bytes. */
  lemma RequestArrives(p: Parser, verb: Bytes, path: Bytes, hs: seq<Header>, chunks: seq<Bytes>, n: nat)
    requires Ready(p) && Printable(verb, path, hs) && Announced(Kept([], hs), |Kept([], hs)|) > 0
    requires n <= |chunks| && (n > 0 ==> |Joined(chunks, n - 1)| < Announced(Kept([], hs), |Kept([], hs)|))
    ensures var length := Announced(Kept([], hs), |Kept([], hs)|);
            var q := AfterChunks(Fed(p, Print(verb, path, hs), true), chunks, n);
            && q.verb == verb && q.path == path && q.headers == Kept([], hs)
            && q.written == Least(length % TWO32, |Joined(chunks, n)|) <= |q.body|
            && q.body[..q.written] == Joined(chunks, n)[..q.written]
            && (q.phase == Done <==> length < TWO32 && length <= |Joined(chunks, n)|)
            && (q.phase == Done ==> q.body == Joined(chunks, n)[..length])
  {
    RequestRoundTrip(p, verb, path, hs, [], true);
    assert Print(verb, path, hs) + [] == Print(verb, path, hs);
    var q := Fed(p, Print(verb, path, hs), true);
    hide Fed, Print, Printable, Kept, Announced, Ready;
    BodyArrives(q, chunks, n);
    CutShorter(q.contentLength);
    hide AfterChunks, Joined;
    var r := AfterChunks(q, chunks, n);
    assert r.body[..|r.body|] == r.body && q.body[..0] == [];
    assert [] + Joined(chunks, n)[..r.written] == Joined(chunks, n)[..r.written];
  }

  lemma CutShorter(n: nat)
    ensures n % TWO32 <= n && (n % TWO32 == n <==> n < TWO32)
  {
  }

  // ---- The parser object ----

  datatype ParseResult = Complete | Incomplete | Error

  function ResultOf(p: Parser): ParseResult {
    if p.phase == Done then Complete else if p.phase == Failed then Error else Incomplete
  }

  /** memchr and strchr. */
  method FindByte(s: Bytes, c: byte) returns (i: nat)
    ensures i == Find(s, c)
  {
    i := 0;
    assert s[0..] == s;
    while i < |s| && s[i] != c
      invariant i <= |s| && i + Find(s[i..], c) == Find(s, c)
    {
      assert s[i..][1..] == s[i + 1..];
      i := i + 1;
    }
  }

  method LowerCase(s: Bytes) returns (r: Bytes)
    ensures r == Lower(s)
  {
    r := [];
    for i := 0 to |s|
      invariant |r| == i && forall k :: 0 <= k < i ==> r[k] == ToLower(s[k])
    {
      r := r + [ToLower(s[i])];
    }
  }

  method DropSpaces(s: Bytes) returns (r: Bytes)
    ensures r == SkipSpaces(s)
  {
    r := s;
    while r != [] && r[0] == SP
      invariant SkipSpaces(r) == SkipSpaces(s)
      decreases |r|
    {
      r := r[1..];
    }
  }

  method ReadDigits(v: Bytes) returns (n: nat)
    ensures n == Digits(0, v)
  {
    n := 0;
    var i := 0;
    assert v[0..] == v;
    while i < |v| && 0x30 <= v[i] <= 0x39
      invariant i <= |v| && Digits(n, v[i..]) == Digits(0, v)
    {
      assert v[i..][1..] == v[i + 1..];
      n := (n * 10 + (v[i] - 0x30)) % TWO64;
      i := i + 1;
    }
  }

  class H1Parser {
    var phase: Phase
    var line: Bytes
    var verb: Bytes
    var version: Bytes
    var path: Bytes
    var headers: seq<Header>
    var contentLength: nat
    var body: Bytes
    var written: nat
    var h2: bool

    function State(): Parser
      reads this
    {
      Parser(phase, line, verb, version, path, headers, contentLength, body, written, h2)
    }

    constructor ()
      ensures State() == NEW_PARSER
    {
      phase, line, verb, version, path, headers := RequestLine, [], [], [], [], [];
      contentLength, body, written, h2 := 0, [], 0, false;
    }

    method ParseRequestLine(s: Bytes) returns (ok: bool)
      requires phase == RequestLine
      modifies `verb, `path, `version, `phase
      ensures Processed(ok, State()) == RequestLineStep(old(State()), s)
    {
      hide Find, IsVerb, Ascii;
      var i := FindByte(s, SP);
      if i == |s| {
        return false;
      }
      if !IsVerb(s[..i]) {
        return false;
      }
      verb := s[..i];
      var rest := s[i + 1..];
      var j := FindByte(rest, SP);
      if j == |rest| {
        return false;
      }
      path := rest[..j];
      version := if rest[j + 1..] == Ascii("HTTP/1.0") then Ascii("HTTP/1.0") else Ascii("HTTP/1.1");
      phase := Headers;
      return true;
    }

    method ParseHeaderLine(s: Bytes) returns (ok: bool)
      modifies `headers, `contentLength
      ensures Processed(ok, State()) == HeaderLineStep(old(State()), s)
    {
      hide Find, Lower, SkipSpaces, Digits, Ascii;
      var i := FindByte(s, COLON);
      if i == |s| {
        return false;
      }
      var value := DropSpaces(s[i + 1..]);
      if |headers| >= MAX_HEADERS {
        return true;
      }
      var name := LowerCase(s[..i]);
      headers := headers + [Header(name, value)];
      if name == Ascii("content-length") {
        contentLength := ReadDigits(value);
      }
      return true;
    }

    /** A whole line; an unusable one makes the parser give up. */
    method UseLine(text: Bytes, fits: bool)
      requires Reading(State())
      modifies this
      ensures State() == TakeLine(old(State()), text, fits)
    {
      hide RequestLineStep, HeaderLineStep, Find;
      var n := FindByte(text, NUL);
      var s := text[..n];
      var ok := true;
      if phase == RequestLine {
        ok := ParseRequestLine(s);
      } else if s == [] {
        if contentLength > 0 && fits {
          body := seq(contentLength % TWO32, _ => NUL);
        }
        phase := if contentLength > 0 then Body else Done;
      } else {
        ok := ParseHeaderLine(s);
      }
      if ok {
        line := [];
      } else {
        phase := Failed;
      }
    }

    method PutBody(data: Bytes)
      modifies `body, `written
      ensures State() == WriteBody(old(State()), data)
    {
      if |body| <= written {
        return;
      }
      var n := Least(|data|, |body| - written);
      body := body[..written] + data[..n] + body[written + n..];
      written := written + n;
    }

    /** The loop over body bytes. */
    method ReadBody(data: Bytes)
      requires phase == Body
      modifies `body, `written, `phase
      ensures State() == BodyStep(old(State()), data)
    {
      hide WriteBody;
      var pos := 0;
      assert data[0..] == data;
      while pos < |data| && phase == Body
        invariant pos <= |data| && (phase == Body || phase == Done)
        invariant contentLength == old(contentLength)
        invariant (if phase == Body then BodyStep(State(), data[pos..]) else State()) == BodyStep(old(State()), data)
        decreases |data| - pos, if phase == Body then 1 else 0
      {
        if contentLength <= written {
          phase := Done;
        } else {
          var n := Least(contentLength - written, |data| - pos);
          assert data[pos..][..n] == data[pos..pos + n] && data[pos..][n..] == data[pos + n..];
          PutBody(data[pos..pos + n]);
          pos := pos + n;
          if written >= contentLength {
            phase := Done;
          }
        }
      }
    }

    method Feed(data: Bytes, fits: bool) returns (r: ParseResult)
      modifies this
      ensures State() == Fed(old(State()), data, fits)
      ensures r == Complete <==> phase == Done && !IsPreface(old(State()), data)
      ensures r == Error <==> phase == Failed || IsPreface(old(State()), data)
    {
      if IsPreface(State(), data) {
        h2 := true;
        return Error;
      }
      if phase == Done || phase == Failed {
        phase, headers, line, contentLength, written := RequestLine, [], [], 0, 0;
      }
      LoopBody(State(), data, fits);
      hide Loop;
      if phase == Body {
        ReadBody(data);
      } else {
        FeedLines(data, fits);
      }
      return ResultOf(State());
    }

    /** One turn of the loop over lines: a line is used, or the rest is kept. */
    method Turn(d: Bytes, fits: bool) returns (used: nat, more: bool)
      requires d != [] && Reading(State())
      modifies this
      ensures used <= |d| && (more ==> used > 0 && Reading(State()))
      ensures Loop(old(State()), d, fits) == if more then Loop(State(), d[used..], fits) else State()
    {
      hide TakeLine, Find;
      var cr := FindByte(d, CR);
      if cr + 1 < |d| && d[cr + 1] == LF {
        if |line| + cr >= MAX_LINE - 1 {
          phase := Failed;
          return 0, false;
        }
        UseLine(line + d[..cr], fits);
        return cr + 2, Reading(State());
      }
      if line != [] && line[|line| - 1] == CR && d[0] == LF {
        UseLine(line[..|line| - 1], fits);
        return 1, Reading(State());
      }
      if |line| >= MAX_LINE - 1 {
        phase := Failed;
        return 0, false;
      }
      var copy := Least(MAX_LINE - 1 - |line|, |d|);
      line := line + d[..copy];
      return copy, false;
    }

    method FeedLines(data: Bytes, fits: bool)
      requires phase != Body
      modifies this
      ensures State() == Loop(old(State()), data, fits)
    {
      hide Loop;
      LoopStops(State(), data, fits);
      var pos, more := 0, data != [] && Reading(State());
      assert data[0..] == data;
      while more
        invariant pos <= |data| && (more ==> pos < |data| && Reading(State()))
        invariant Loop(old(State()), data, fits) == if more then Loop(State(), data[pos..], fits) else State()
        decreases |data| - pos, more
      {
        var used;
        used, more := Turn(data[pos..], fits);
        assert data[pos..][used..] == data[pos + used..];
        pos := pos + used;
        LoopStops(State(), data[pos..], fits);
        if pos == |data| {
          more := false;
        }
      }
    }
  }

  lemma LoopStops(p: Parser, d: Bytes, fits: bool)
    ensures d == [] || p.phase == Done || p.phase == Failed ==> Loop(p, d, fits) == p
  {
  }

  lemma LoopBody(p: Parser, d: Bytes, fits: bool)
    ensures p.phase == Body ==> Loop(p, d, fits) == BodyStep(p, d)
  {
  }

  // ---- The proxy's printer ----

  /** The header fields the proxy sends: its own, and what it forwards. */
  function ProxyHeaders(host: Bytes, hs: seq<Header>, bodyLength: Bytes): seq<Header> {
    [Header(Ascii("Host"), host)] + Forwarded(hs, |hs|) + [Header(Ascii("Connection"), Ascii("keep-alive"))]
    + (if bodyLength == [] then [] else [Header(Ascii("Content-Length"), bodyLength)])
  }

  lemma {:induction false} HeaderTextJoin(a: seq<Header>, b: seq<Header>)
    ensures HeaderText(a + b) == HeaderText(a) + HeaderText(b)
    decreases |a|
  {
    hide HeaderLine;
    if a == [] {
      assert a + b == b;
    } else {
      assert (a + b)[1..] == a[1..] + b;
      HeaderTextJoin(a[1..], b);
    }
  }

  lemma HeaderTextOne(h: Header)
    ensures HeaderText([h]) == HeaderLine(h) + CRLF
  {
    hide HeaderLine;
    assert HeaderText([h][1..]) == [];
  }

  method WriteHeader(req: Bytes, name: Bytes, value: Bytes) returns (r: Bytes)
    ensures r == req + HeaderText([Header(name, value)])
  {
    HeaderTextOne(Header(name, value));
    r := req + name;
    r := r + [COLON, SP];
    r := r + value;
    r := r + CRLF;
  }

  /** The client's headers, without those meant for this hop. */
  method WriteForwarded(req: Bytes, hs: seq<Header>) returns (r: Bytes)
    ensures r == req + HeaderText(Forwarded(hs, |hs|))
  {
    hide HopByHop, HeaderText;
    r := req;
    NoText();
    for i := 0 to |hs|
      invariant r == req + HeaderText(Forwarded(hs, i))
    {
      assert hs[i] == Header(hs[i].name, hs[i].value);
      if !HopByHop(hs[i].name) {
        r := WriteHeader(r, hs[i].name, hs[i].value);
        HeaderTextJoin(Forwarded(hs, i), [hs[i]]);
      } else {
        assert Forwarded(hs, i + 1) == Forwarded(hs, i);
      }
    }
  }

  lemma NoText()
    ensures HeaderText([]) == []
  {
  }

  /** The upstream request; `host` names the server with its port where that
      is needed, `bodyLength` is empty for a request without a body. */
  method BuildRequest(verb: Bytes, path: Bytes, host: Bytes, hs: seq<Header>, bodyLength: Bytes) returns (req: Bytes)
    ensures req == Print(verb, path, ProxyHeaders(host, hs, bodyLength))
  {
    hide HeaderText, Ascii;
    req := verb + [SP];
    req := req + path;
    req := req + [SP] + Ascii("HTTP/1.1") + CRLF;
    ghost var start := req;
    assert start == FirstLine(verb, path) + CRLF;
    req := WriteHeader(req, Ascii("Host"), host);
    req := WriteForwarded(req, hs);
    req := WriteHeader(req, Ascii("Connection"), Ascii("keep-alive"));
    if bodyLength != [] {
      req := WriteHeader(req, Ascii("Content-Length"), bodyLength);
    }
    ProxyText(host, hs, bodyLength);
    req := req + CRLF;
    assert req == start + (HeaderText(ProxyHeaders(host, hs, bodyLength)) + CRLF);
  }

  /** A field as a parser delivers it: lower-case name, no leading spaces. */
  predicate Parsed(h: Header) {
    h == Received(h)
  }

  /** The proxied fields as the upstream server gets them. */
  function Upstreamed(host: Bytes, hs: seq<Header>, bodyLength: Bytes): seq<Header> {
    [Header(Ascii("host"), host)] + Forwarded(hs, |hs|) + [Header(Ascii("connection"), Ascii("keep-alive"))]
    + (if bodyLength == [] then [] else [Header(Ascii("content-length"), bodyLength)])
  }

  lemma {:induction false} ForwardedOf(hs: seq<Header>, n: nat, h: Header)
    requires n <= |hs| && h in Forwarded(hs, n)
    ensures h in hs && !HopByHop(h.name)
  {
    hide HopByHop;
    if h in Forwarded(hs, n - 1) {
      ForwardedOf(hs, n - 1, h);
    }
  }

  lemma OwnNames()
    ensures Lower(Ascii("Host")) == Ascii("host") && Lower(Ascii("Connection")) == Ascii("connection")
    ensures Lower(Ascii("Content-Length")) == Ascii("content-length")
    ensures SkipSpaces(Ascii("keep-alive")) == Ascii("keep-alive")
  {
    LowerText("Host", "host");
    LowerText("Connection", "connection");
    LowerText("Content-Length", "content-length");
  }

  lemma LowerText(a: string, b: string)
    requires |a| == |b| && forall i :: 0 <= i < |a| ==>
               a[i] < 128 as char && b[i] == (if 'A' <= a[i] <= 'Z' then (a[i] as int + 32) as char else a[i])
    ensures Lower(Ascii(a)) == Ascii(b)
  {
  }

  lemma ReceivedJoin(a: seq<Header>, b: seq<Header>)
    ensures AllReceived(a + b) == AllReceived(a) + AllReceived(b)
  {
    hide Received;
  }

  /** Proxy fields received: the client's, unchanged, between the proxy's own. */
  lemma ProxyReceived(host: Bytes, hs: seq<Header>, bodyLength: Bytes)
    requires (forall h :: h in hs ==> Parsed(h)) && SkipSpaces(host) == host && SkipSpaces(bodyLength) == bodyLength
    ensures AllReceived(ProxyHeaders(host, hs, bodyLength)) == Upstreamed(host, hs, bodyLength)
  {
    OwnNames();
    hide Ascii, Lower, SkipSpaces;
    var a, b := [Header(Ascii("Host"), host)], Forwarded(hs, |hs|);
    var c := [Header(Ascii("Connection"), Ascii("keep-alive"))];
    var d := if bodyLength == [] then [] else [Header(Ascii("Content-Length"), bodyLength)];
    ReceivedJoin(a, b);
    ReceivedJoin(a + b, c);
    ReceivedJoin(a + b + c, d);
    assert AllReceived(b) == b by {
      forall i | 0 <= i < |b| ensures Received(b[i]) == b[i] {
        ForwardedOf(hs, |hs|, b[i]);
      }
    }
  }

  /** What the proxy sends on is read upstream as the client's request: verb,
      path and fields, without those of this hop, between the proxy's own. */
  lemma ProxyRoundTrip(p: Parser, verb: Bytes, path: Bytes, host: Bytes, hs: seq<Header>, bodyLength: Bytes,
                       more: Bytes, fits: bool)
    requires Ready(p) && Printable(verb, path, ProxyHeaders(host, hs, bodyLength))
    requires (forall h :: h in hs ==> Parsed(h)) && SkipSpaces(host) == host && SkipSpaces(bodyLength) == bodyLength
    ensures var q := Fed(p, Print(verb, path, ProxyHeaders(host, hs, bodyLength)) + more, fits);
            var all := Upstreamed(host, hs, bodyLength);
            && q.verb == verb && q.path == path && q.version == Ascii("HTTP/1.1")
            && q.headers == (if |all| <= 64 then all else all[..64])
            && q.phase == (if Announced(q.headers, |q.headers|) == 0 then Done else Body)
  {
    RequestRoundTrip(p, verb, path, ProxyHeaders(host, hs, bodyLength), more, fits);
    ProxyReceived(host, hs, bodyLength);
    hide Fed, Print, Printable, Ascii, Announced, SkipSpaces, ProxyHeaders, Upstreamed, Received;
    var all := AllReceived(ProxyHeaders(host, hs, bodyLength));
    assert [] + all == all;
  }

  /** Name by name: what the upstream server gets. The proxy's own host and
      connection fields, nothing of the hop, the client's values of every other
      name, and behind the client's the proxy's content length. */
  lemma ProxyValues(host: Bytes, hs: seq<Header>, bodyLength: Bytes, name: Bytes)
    ensures var own := if name == Ascii("host") then [host]
                       else if name == Ascii("connection") then [Ascii("keep-alive")] else [];
            var hop := name in {Ascii("host"), Ascii("connection"), Ascii("transfer-encoding"),
                                Ascii("proxy-connection"), Ascii("keep-alive"), Ascii("upgrade")};
            var length := if bodyLength != [] && name == Ascii("content-length") then [bodyLength] else [];
            Values(Upstreamed(host, hs, bodyLength), name) == (if hop then own else Values(hs, name)) + length
  {
    hide Ascii, Forwarded, Values;
    OwnNamesDiffer();
    var a, b := Header(Ascii("host"), host), Forwarded(hs, |hs|);
    var c, d := Header(Ascii("connection"), Ascii("keep-alive")), Header(Ascii("content-length"), bodyLength);
    ForwardedValues(hs, name);
    ValuesAround(a, b, c, d, bodyLength != [], name);
  }

  lemma OwnNamesDiffer()
    ensures Ascii("host") != Ascii("connection")
    ensures Ascii("content-length") !in {Ascii("host"), Ascii("connection"), Ascii("transfer-encoding"),
                                         Ascii("proxy-connection"), Ascii("keep-alive"), Ascii("upgrade")}
  {
  }

  lemma ValuesAround(a: Header, b: seq<Header>, c: Header, d: Header, with: bool, name: Bytes)
    requires a.name != c.name && d.name != a.name && d.name != c.name
    ensures var all := [a] + b + [c] + (if with then [d] else []);
            Values(all, name) ==
            (if name == a.name then [a.value] else []) + Values(b, name)
            + (if name == c.name then [c.value] else []) + (if with && name == d.name then [d.value] else [])
  {
    ValuesJoin([a], b, name);
    ValuesJoin([a] + b, [c], name);
    ValuesJoin([a] + b + [c], if with then [d] else [], name);
    ValuesOne(a, name);
    ValuesOne(c, name);
    ValuesOne(d, name);
  }

  lemma ProxyText(host: Bytes, hs: seq<Header>, bodyLength: Bytes)
    ensures HeaderText(ProxyHeaders(host, hs, bodyLength))
         == HeaderText([Header(Ascii("Host"), host)]) + HeaderText(Forwarded(hs, |hs|))
            + HeaderText([Header(Ascii("Connection"), Ascii("keep-alive"))])
            + (if bodyLength == [] then [] else HeaderText([Header(Ascii("Content-Length"), bodyLength)]))
  {
    hide HeaderText, Ascii, Forwarded;
    NoText();
    var a, b := [Header(Ascii("Host"), host)], Forwarded(hs, |hs|);
    var c := [Header(Ascii("Connection"), Ascii("keep-alive"))];
    var d := if bodyLength == [] then [] else [Header(Ascii("Content-Length"), bodyLength)];
    HeaderTextJoin(a, b);
    HeaderTextJoin(a + b, c);
    HeaderTextJoin(a + b + c, d);
  }
}
