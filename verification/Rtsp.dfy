/** Printing and parsing of RTSP requests and replies on both sides. */
module Rtsp {
  import opened Text

  const INIT := 0
  const READY := 1
  const PLAYING := 2
  const SETUP := 3
  const PLAY := 4
  const PAUSE := 5
  const TEARDOWN := 6

  // ---------------------------------------------------------------- what is printed

  function RequestLine(name: string): string {
    name + " RTSP/1.0\r"
  }

  function CSeqLine(seqNb: int): string {
    "CSeq: " + Itoa(seqNb) + "\r"
  }

  /** Third line of a request. */
  function DetailLine(name: string, id: int, udpPort: int): string {
    if name == "SETUP" then "Transport: RTP/UDP; client_port= " + Itoa(udpPort) + "\r" else "Session: " + Itoa(id)
  }

  function Lines(a: string, b: string, c: string): string {
    a + "\n" + b + "\n" + c + "\n"
  }

  function RequestText(name: string, seqNb: int, id: int, udpPort: int): string {
    Lines(RequestLine(name), CSeqLine(seqNb), DetailLine(name, id, udpPort))
  }

  const STATUS_LINE := "RTSP/1.0 200 OK\r"

  function SessionLine(id: int): string {
    "Session: " + Itoa(id) + "\r"
  }

  function ReplyText(seqNb: int, id: int): string {
    Lines(STATUS_LINE, CSeqLine(seqNb), SessionLine(id))
  }

  /** Sent when a message is none of SETUP, PLAY and TEARDOWN. */
  const SIGNAL_REPLY := "Signal Recieved"

  // ---------------------------------------------------------------- what is read

  /** Outcome of parse_RTSP_request. `Undefined` means that a vector is indexed out of range. */
  datatype Reading = Undefined | Signal | Request(kind: int, seqNb: int)

  function KindOf(name: string): int {
    if name == "SETUP" then SETUP
    else if name == "PLAY" then PLAY
    else if name == "PAUSE" then PAUSE
    else if name == "TEARDOWN" then TEARDOWN
    else -1
  }

  function ReadRequest(message: string): Reading {
    var lines := Pieces(message, '\n');
    if lines == [] then Undefined
    else
      var tokens := Pieces(lines[0], ' ');
      if tokens == [] then Undefined
      else if KindOf(tokens[0]) == -1 then Signal
      else if |lines| < 3 || |tokens| < 2 then Undefined
      else Request(KindOf(tokens[0]), Atoi(tokens[1]))
  }

  /** Outcome of parse_server_response. */
  datatype ReplyReading = NoReading | Refused(code: int) | Accepted(seqNb: int, id: int)

  function ReadReply(message: string): ReplyReading {
    var lines := Pieces(message, '\n');
    if lines == [] || |Pieces(lines[0], ' ')| < 2 then NoReading
    else
      var code := Atoi(Pieces(lines[0], ' ')[1]);
      if code != 200 then Refused(code)
      else if |lines| < 3 || |Pieces(lines[2], ' ')| < 2 then NoReading
      else Accepted(code, Atoi(Pieces(lines[2], ' ')[1]))
  }

  // ---------------------------------------------------------------- reference: what a line says

  /** Line `line` of the message has `name` as its word `at`, and the number `n` as the next and last. */
  predicate Says(message: string, line: nat, at: nat, name: string, n: int) {
    var lines := Pieces(message, '\n');
    line < |lines| &&
    var words := Pieces(lines[line], ' ');
    |words| == at + 2 && words[at] == name && Atoi(words[at + 1]) == n
  }

  /** The second line is "CSeq: n": both parsers split that line but do not use it. */
  predicate HasCSeq(message: string, n: int) {
    Says(message, 1, 0, "CSeq:", n)
  }

  /** The third line names the session. */
  predicate HasSession(message: string, id: int) {
    Says(message, 2, 0, "Session:", id)
  }

  /** The third line, "Transport: RTP/UDP; client_port= n", advertises the client's port. */
  predicate HasPort(message: string, port: int) {
    Says(message, 2, 2, "client_port=", port)
  }

  /** Line `line` has `word` as its word `at`. */
  predicate WordAt(message: string, line: nat, at: nat, word: string) {
    var lines := Pieces(message, '\n');
    line < |lines| && at < |Pieces(lines[line], ' ')| && Pieces(lines[line], ' ')[at] == word
  }

  /** The first line has `word` as its word `at`. */
  predicate Opens(message: string, at: nat, word: string) {
    WordAt(message, 0, at, word)
  }

  // ---------------------------------------------------------------- lines and tokens

  /** Second token of a request line. */
  const VERSION := "RTSP/1.0\r"

  lemma ThreeLines(a: string, b: string, c: string)
    requires '\n' !in a && '\n' !in b && '\n' !in c
    ensures Pieces(Lines(a, b, c), '\n') == [a, b, c]
  {
    TwoLines(b, c);
    PiecesCons(a, '\n', b + "\n" + c + "\n");
    LinesParts(a, b, c);
  }

  lemma LinesParts(a: string, b: string, c: string)
    ensures Lines(a, b, c) == a + ['\n'] + (b + "\n" + c + "\n")
  {}

  lemma TwoLines(b: string, c: string)
    requires '\n' !in b && '\n' !in c
    ensures Pieces(b + "\n" + c + "\n", '\n') == [b, c]
  {
    var tail := c + "\n";
    LastLine(c);
    PiecesCons(b, '\n', tail);
    assert b + "\n" + c + "\n" == b + ['\n'] + tail;
  }

  lemma LastLine(c: string)
    requires '\n' !in c
    ensures Pieces(c + "\n", '\n') == [c]
  {
    assert c + "\n" == c + ['\n'] + "";
    PiecesCons(c, '\n', "");
  }

  lemma TwoTokens(a: string, b: string)
    requires ' ' !in a && ' ' !in b && b != ""
    ensures Pieces(a + " " + b, ' ') == [a, b]
  {
    PiecesCons(a, ' ', b);
    PiecesLast(b, ' ');
  }

  lemma NumberLine(name: string, n: int)
    requires ' ' !in name && '\n' !in name
    ensures var text := name + " " + Itoa(n) + "\r";
      '\n' !in text && Pieces(text, ' ') == [name, Itoa(n) + "\r"]
    ensures Atoi(Itoa(n) + "\r") == n
  {
    ItoaIsOneToken(n);
    AtoiOfItoa(n, "\r");
    TwoTokens(name, Itoa(n) + "\r");
    assert name + " " + Itoa(n) + "\r" == name + " " + (Itoa(n) + "\r");
  }

  lemma CSeqTokens(seqNb: int)
    ensures '\n' !in CSeqLine(seqNb)
    ensures Pieces(CSeqLine(seqNb), ' ') == ["CSeq:", Itoa(seqNb) + "\r"] && Atoi(Itoa(seqNb) + "\r") == seqNb
  {
    NumberLine("CSeq:", seqNb);
    assert CSeqLine(seqNb) == "CSeq:" + " " + Itoa(seqNb) + "\r";
  }

  lemma DetailIsOneLine(name: string, id: int, udpPort: int)
    ensures '\n' !in DetailLine(name, id, udpPort)
  {
    var n := if name == "SETUP" then udpPort else id;
    ItoaIsOneToken(n);
    if name == "SETUP" {
      NoLineEnd("Transport: RTP/UDP; client_port= ", Itoa(n), "\r");
    } else {
      NoLineEnd("Session: ", Itoa(n), "");
    }
  }

  lemma NoLineEnd(a: string, b: string, c: string)
    requires '\n' !in a && '\n' !in b && '\n' !in c
    ensures '\n' !in a + b + c
  {}

  lemma NameIsToken(name: string)
    requires KindOf(name) != -1
    ensures ' ' !in name && '\n' !in name
  {}

  lemma RequestLineTokens(name: string)
    requires ' ' !in name
    ensures Pieces(RequestLine(name), ' ') == [name, VERSION]
  {
    VersionIsToken();
    RequestLineParts(name);
    TwoTokens(name, VERSION);
  }

  lemma RequestLineParts(name: string)
    ensures RequestLine(name) == name + " " + VERSION
  {}

  lemma VersionIsToken()
    ensures ' ' !in VERSION && VERSION != ""
  {}

  lemma RequestLineIsOneLine(name: string)
    requires '\n' !in name
    ensures '\n' !in RequestLine(name)
  {
    assert '\n' !in " RTSP/1.0\r";
  }

  lemma VersionIsNoNumber()
    ensures Atoi(VERSION) == 0
  {}

  lemma ThreeTokens(a: string, b: string, c: string)
    requires ' ' !in a && ' ' !in b && ' ' !in c && c != ""
    ensures Pieces(a + " " + b + " " + c, ' ') == [a, b, c]
  {
    TwoTokens(b, c);
    PiecesCons(a, ' ', b + " " + c);
    assert a + " " + b + " " + c == a + [' '] + (b + " " + c);
  }

  lemma FourTokens(a: string, b: string, c: string, d: string)
    requires ' ' !in a && ' ' !in b && ' ' !in c && ' ' !in d && d != ""
    ensures Pieces(a + " " + b + " " + c + " " + d, ' ') == [a, b, c, d]
  {
    ThreeTokens(b, c, d);
    PiecesCons(a, ' ', b + " " + c + " " + d);
    assert a + " " + b + " " + c + " " + d == a + [' '] + (b + " " + c + " " + d);
  }

  lemma PortTokens(udpPort: int)
    ensures Pieces(DetailLine("SETUP", 0, udpPort), ' ') ==
      ["Transport:", "RTP/UDP;", "client_port=", Itoa(udpPort) + "\r"]
    ensures Atoi(Itoa(udpPort) + "\r") == udpPort
  {
    ItoaIsOneToken(udpPort);
    AtoiOfItoa(udpPort, "\r");
    TransportWords();
    TransportParts();
    FourTokens("Transport:", "RTP/UDP;", "client_port=", Itoa(udpPort) + "\r");
    assert DetailLine("SETUP", 0, udpPort) ==
      "Transport:" + " " + "RTP/UDP;" + " " + "client_port=" + " " + (Itoa(udpPort) + "\r");
  }

  lemma TransportWords()
    ensures ' ' !in "Transport:" && ' ' !in "RTP/UDP;" && ' ' !in "client_port="
  {}

  lemma TransportParts()
    ensures "Transport: RTP/UDP; client_port= " ==
      "Transport:" + " " + "RTP/UDP;" + " " + "client_port=" + " "
  {}

  lemma IdTokens(name: string, id: int, udpPort: int)
    requires name != "SETUP"
    ensures Pieces(DetailLine(name, id, udpPort), ' ') == ["Session:", Itoa(id)] && Atoi(Itoa(id)) == id
  {
    ItoaIsOneToken(id);
    AtoiOfItoa(id, "");
    assert Itoa(id) + "" == Itoa(id);
    TwoTokens("Session:", Itoa(id));
    assert DetailLine(name, id, udpPort) == "Session:" + " " + Itoa(id);
  }

  lemma StatusTokens()
    ensures Pieces(STATUS_LINE, ' ') == ["RTSP/1.0", "200", "OK\r"]
  {
    StatusParts();
    ThreeTokens("RTSP/1.0", "200", "OK\r");
  }

  lemma StatusParts()
    ensures STATUS_LINE == "RTSP/1.0" + " " + "200" + " " + "OK\r"
    ensures ' ' !in "RTSP/1.0" && ' ' !in "200" && ' ' !in "OK\r"
  {}

  lemma CodeIs200()
    ensures Atoi("200") == 200
  {
    assert "200"[1..] == "00" && "00"[1..] == "0" && "0"[1..] == "";
    assert Digits("0", 20) == 200;
    assert Digits("00", 2) == 200;
  }

  // ---------------------------------------------------------------- round trips

  /** For every counter, session and port, a printed request is read by the server without any
      index out of range, as a request of its own kind. The sequence number the server takes from
      it is always 0, because it is read from the request line. */
  lemma RequestRoundTrip(name: string, seqNb: int, id: int, udpPort: int)
    requires KindOf(name) != -1
    ensures ReadRequest(RequestText(name, seqNb, id, udpPort)) == Request(KindOf(name), 0)
    ensures HasCSeq(RequestText(name, seqNb, id, udpPort), seqNb)
    ensures Opens(RequestText(name, seqNb, id, udpPort), 0, name)
  {
    CSeqTokens(seqNb);
    DetailIsOneLine(name, id, udpPort);
    NameIsToken(name);
    RequestLineIsOneLine(name);
    RequestLineTokens(name);
    VersionIsNoNumber();
    ThreeLines(RequestLine(name), CSeqLine(seqNb), DetailLine(name, id, udpPort));
  }

  /** The third line of a printed request advertises the port for SETUP and names the session
      otherwise. */
  lemma RequestDetail(name: string, seqNb: int, id: int, udpPort: int)
    requires KindOf(name) != -1
    ensures name == "SETUP" ==> HasPort(RequestText(name, seqNb, id, udpPort), udpPort)
    ensures name != "SETUP" ==> HasSession(RequestText(name, seqNb, id, udpPort), id)
  {
    CSeqTokens(seqNb);
    DetailIsOneLine(name, id, udpPort);
    NameIsToken(name);
    RequestLineIsOneLine(name);
    ThreeLines(RequestLine(name), CSeqLine(seqNb), DetailLine(name, id, udpPort));
    if name == "SETUP" {
      PortTokens(udpPort);
      assert DetailLine(name, id, udpPort) == DetailLine("SETUP", 0, udpPort);
    } else {
      IdTokens(name, id, udpPort);
    }
  }

  /** The four methods and their numbers; any other first word is a signal. */
  lemma KindsExactly(message: string)
    ensures KindOf("SETUP") == 3 && KindOf("PLAY") == 4 && KindOf("PAUSE") == 5 && KindOf("TEARDOWN") == 6
    ensures forall word :: Opens(message, 0, word) && word !in ["SETUP", "PLAY", "PAUSE", "TEARDOWN"] ==>
      ReadRequest(message) == Signal
  {}

  /** A printed reply is read by the client without any index out of range, as code 200 with the
      server's session number; the counter becomes 200, whatever was printed in the CSeq line. */
  lemma ReplyRoundTrip(seqNb: int, id: int)
    ensures ReadReply(ReplyText(seqNb, id)) == Accepted(200, id)
    ensures HasCSeq(ReplyText(seqNb, id), seqNb) && HasSession(ReplyText(seqNb, id), id)
    ensures Opens(ReplyText(seqNb, id), 0, "RTSP/1.0") && Opens(ReplyText(seqNb, id), 1, "200")
  {
    StatusIsOneLine();
    ReplyLines(STATUS_LINE, seqNb, id);
    CSeqTokens(seqNb);
    SessionTokens(id);
    StatusTokens();
    CodeIs200();
  }

  lemma SessionTokens(id: int)
    ensures '\n' !in SessionLine(id)
    ensures Pieces(SessionLine(id), ' ') == ["Session:", Itoa(id) + "\r"] && Atoi(Itoa(id) + "\r") == id
  {
    NumberLine("Session:", id);
    assert SessionLine(id) == "Session:" + " " + Itoa(id) + "\r";
  }

  lemma StatusIsOneLine()
    ensures '\n' !in STATUS_LINE
  {}

  lemma ReplyLines(status: string, seqNb: int, id: int)
    requires '\n' !in status
    ensures Pieces(Lines(status, CSeqLine(seqNb), SessionLine(id)), '\n') == [status, CSeqLine(seqNb), SessionLine(id)]
  {
    CSeqTokens(seqNb);
    SessionTokens(id);
    ThreeLines(status, CSeqLine(seqNb), SessionLine(id));
  }

  lemma SignalTokens()
    ensures Pieces("Signal Recieved", ' ') == ["Signal", "Recieved"]
  {
    TwoTokens("Signal", "Recieved");
    assert "Signal Recieved" == "Signal" + " " + "Recieved";
  }

  lemma SignalLine()
    ensures Pieces("Signal Recieved", '\n') == ["Signal Recieved"]
  {
    PiecesLast("Signal Recieved", '\n');
  }

  lemma NoCode()
    ensures Atoi("Recieved") == 0
  {}

  /** The reply to anything else is read without harm: no code, no change. */
  lemma SignalReply()
    ensures ReadReply(SIGNAL_REPLY) == Refused(0)
  {
    SignalLine();
    SignalTokens();
    NoCode();
  }

  /** A reply with any other status code is read as that code, whatever follows it. */
  lemma OtherCode(code: int, reason: string, rest: string)
    requires code != 200 && '\n' !in reason
    ensures ReadReply("RTSP/1.0 " + Itoa(code) + " " + reason + "\n" + rest) == Refused(code)
  {
    ItoaIsOneToken(code);
    var status := "RTSP/1.0 " + Itoa(code) + " " + reason;
    CodeToken(Itoa(code), reason);
    PiecesCons(status, '\n', rest);
    assert status + "\n" + rest == status + ['\n'] + rest;
    AtoiOfItoa(code, "");
    assert Itoa(code) + "" == Itoa(code);
  }

  lemma CodeToken(code: string, reason: string)
    requires ' ' !in code && '\n' !in code && '\n' !in reason
    ensures var status := "RTSP/1.0 " + code + " " + reason;
      '\n' !in status && |Pieces(status, ' ')| >= 2 && Pieces(status, ' ')[1] == code
  {
    PiecesCons(code, ' ', reason);
    PiecesCons("RTSP/1.0", ' ', code + " " + reason);
    assert "RTSP/1.0 " + code + " " + reason == "RTSP/1.0" + [' '] + (code + [' '] + reason);
  }

  // ---------------------------------------------------------------- the texts, written out

  lemma RequestWritten(name: string, seqNb: int, id: int, udpPort: int)
    ensures RequestText(name, seqNb, id, udpPort) ==
      name + " RTSP/1.0\r\n" + ("CSeq: " + Itoa(seqNb) + "\r\n") +
      (if name == "SETUP" then "Transport: RTP/UDP; client_port= " + Itoa(udpPort) + "\r\n"
       else "Session: " + Itoa(id) + "\n")
  {
    LineEnd(name, " RTSP/1.0");
    LineEnd("CSeq: ", Itoa(seqNb));
    LineEnd("Transport: RTP/UDP; client_port= ", Itoa(udpPort));
    Grouped(RequestLine(name), CSeqLine(seqNb), DetailLine(name, id, udpPort));
  }

  lemma ReplyWritten(seqNb: int, id: int)
    ensures ReplyText(seqNb, id) ==
      "RTSP/1.0 200 OK\r\n" + ("CSeq: " + Itoa(seqNb) + "\r\n") + ("Session: " + Itoa(id) + "\r\n")
  {
    StatusEnd();
    LineEnd("CSeq: ", Itoa(seqNb));
    LineEnd("Session: ", Itoa(id));
    Grouped(STATUS_LINE, CSeqLine(seqNb), SessionLine(id));
  }

  lemma StatusEnd()
    ensures STATUS_LINE + "\n" == "RTSP/1.0 200 OK\r\n"
  {}

  lemma LineEnd(a: string, b: string)
    ensures (a + b + "\r") + "\n" == a + b + "\r\n"
    ensures (a + (b + "\r")) + "\n" == a + (b + "\r\n")
  {}

  lemma Grouped(a: string, b: string, c: string)
    ensures Lines(a, b, c) == (a + "\n") + (b + "\n") + (c + "\n")
  {}

  // ---------------------------------------------------------------- indices out of range

  /** How many lines getline yields, counted on the text itself. */
  function LineCount(message: string): nat {
    Count(message, '\n') + if message == "" || EndsWith(message, '\n') then 0 else 1
  }

  /** Exactly the messages for which parse_RTSP_request indexes past the end of a vector: nothing before
      the first line end, or one of the four methods without a second word or a third line. */
  lemma RequestOutOfRange(message: string)
    ensures ReadRequest(message) == Undefined <==>
      || message == "" || message[0] == '\n'
      || exists name :: name in ["SETUP", "PLAY", "PAUSE", "TEARDOWN"] && Opens(message, 0, name)
           && (LineCount(message) < 3 || forall word :: !Opens(message, 1, word))
  {
    SplitJoin(message, '\n');
    var lines := Pieces(message, '\n');
    assert |lines| == LineCount(message);
    if lines != [] {
      FirstLine(message);
      var words := Pieces(lines[0], ' ');
      if words != [] {
        assert Opens(message, 0, words[0]);
        assert |words| >= 2 ==> Opens(message, 1, words[1]);
      }
    }
  }

  lemma FirstLine(message: string)
    requires message != ""
    ensures Pieces(message, '\n') != []
    ensures Pieces(message, '\n')[0] == "" <==> message[0] == '\n'
    ensures Pieces(Pieces(message, '\n')[0], ' ') == [] <==> message[0] == '\n'
  {}

  /** The same for parse_server_response: no second word in the first line, or code 200 without a third
      line that has a second word. */
  lemma ReplyOutOfRange(message: string)
    ensures ReadReply(message) == NoReading <==>
      || (forall word :: !Opens(message, 1, word))
      || (exists word :: Opens(message, 1, word) && Atoi(word) == 200
            && (LineCount(message) < 3 || forall detail :: !WordAt(message, 2, 1, detail)))
  {
    SplitJoin(message, '\n');
    var lines := Pieces(message, '\n');
    assert |lines| == LineCount(message);
    if lines != [] && |Pieces(lines[0], ' ')| >= 2 {
      assert Opens(message, 1, Pieces(lines[0], ' ')[1]);
    }
    if |lines| >= 3 && |Pieces(lines[2], ' ')| >= 2 {
      assert WordAt(message, 2, 1, Pieces(lines[2], ' ')[1]);
    }
  }
}
