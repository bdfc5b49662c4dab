/** The two ends of the RTSP connection: their globals, their printers and parsers, and whole
    sessions of requests and replies. */
module RtspSessions {
  import opened Text
  import opened Rtsp
  import opened Sequences

  /** The server's globals that a message can change. */
  datatype Globals = Globals(seqNb: int, state: int, slp: bool)

  /** What the receive loop does with one message that is read without an index out of range. */
  function React(g: Globals, reading: Reading): Globals {
    match reading
    case Undefined => g
    case Signal => g
    case Request(kind, seqNb) =>
      if kind == SETUP then Globals(seqNb + 1, READY, g.slp)
      else if kind == PLAY then Globals(seqNb + 1, PLAYING, false)
      else if kind == TEARDOWN then g.(seqNb := seqNb + 1)
      else g.(seqNb := seqNb)
  }

  /** SETUP, PLAY and TEARDOWN are answered with code 200; PAUSE is not. */
  predicate Answers(reading: Reading) {
    reading.Request? && reading.kind != PAUSE
  }

  class RtspServer {
    var seqNb: int                  // RTSPSeqNb
    var state: int                  // iRTSP_State
    var slp: bool
    const id: int                   // RTSP_ID, never assigned

    ghost function View(): Globals
      reads this
    {
      Globals(seqNb, state, slp)
    }

    constructor ()
      ensures View() == Globals(0, INIT, true) && id == 123456
    {
      seqNb, state, slp, id := 0, INIT, true, 123456;
    }

    /** prepare_RTSP_response. */
    method PrepareResponse() returns (reply: string)
      modifies this`seqNb
      ensures seqNb == old(seqNb) + 1 && reply == ReplyText(seqNb, id)
    {
      seqNb := seqNb + 1;
      reply := STATUS_LINE + "\n" + CSeqLine(seqNb) + "\n" + SessionLine(id) + "\n";
    }

    /** parse_RTSP_request; `defined` is false where the code indexes past a vector's end. */
    method ParseRequest(message: string) returns (requestType: int, defined: bool)
      modifies this`seqNb
      ensures match ReadRequest(message)
              case Undefined => !defined
              case Signal => defined && requestType == -1 && seqNb == old(seqNb)
              case Request(kind, n) => defined && requestType == kind && seqNb == n
    {
      requestType, defined := -1, false;
      var lines := new StringVector();
      lines.Split(message, '\n');
      if |lines.elems| == 0 { return; }
      var tokens := new StringVector();
      tokens.Split(lines.elems[0], ' ');
      if |tokens.elems| == 0 { return; }
      var name := tokens.elems[0];
      requestType := KindOf(name);
      if requestType == -1 { return requestType, true; }
      if |lines.elems| < 2 || |tokens.elems| < 2 { return; }
      seqNb := Atoi(tokens.elems[1]);
      defined := |lines.elems| >= 3;
    }

    /** One pass of the receive loop. */
    method Handle(message: string) returns (reply: string, defined: bool)
      modifies this
      ensures defined <==> ReadRequest(message) != Undefined
      ensures defined ==> View() == React(old(View()), ReadRequest(message))
      ensures defined ==> reply == (if Answers(ReadRequest(message)) then ReplyText(seqNb, id) else SIGNAL_REPLY)
    {
      var newState;
      newState, defined := ParseRequest(message);
      reply := SIGNAL_REPLY;
      if !defined {
        return;
      } else if newState == SETUP {
        reply := PrepareResponse();
        state := READY;
      } else if newState == PLAY {
        reply := PrepareResponse();
        state := PLAYING;
        slp := false;
      } else if newState == TEARDOWN {
        reply := PrepareResponse();
      }
    }
  }

  class RtspClient {
    var seqNb: int                  // RTSPSeqNb
    var id: int                     // RTSP_ID
    var state: int                  // iRTSP_State
    const udpPort: int

    constructor (udpPort: int)
      ensures seqNb == 0 && id == 123456 && state == INIT && this.udpPort == udpPort
    {
      seqNb, id, state := 0, 123456, INIT;
      this.udpPort := udpPort;
    }

    /** prepare_RTSP_request. */
    method PrepareRequest(name: string) returns (request: string)
      modifies this`seqNb
      ensures seqNb == old(seqNb) + 1 && request == RequestText(name, seqNb, id, udpPort)
    {
      seqNb := seqNb + 1;
      request := RequestLine(name) + "\n" + CSeqLine(seqNb) + "\n" + DetailLine(name, id, udpPort) + "\n";
    }

    /** parse_server_response; `defined` is false where the code indexes past a vector's end. */
    method ParseResponse(reply: string) returns (code: int, defined: bool)
      modifies this`seqNb, this`id
      ensures match ReadReply(reply)
              case NoReading => !defined
              case Refused(c) => defined && code == c && seqNb == old(seqNb) && id == old(id)
              case Accepted(n, i) => defined && code == 200 && seqNb == n && id == i
    {
      code, defined := 0, false;
      var lines := new StringVector();
      lines.Split(reply, '\n');
      if |lines.elems| == 0 { return; }
      var tokens := new StringVector();
      tokens.Split(lines.elems[0], ' ');
      if |tokens.elems| < 2 { return; }
      code := Atoi(tokens.elems[1]);
      if code != 200 { return code, true; }
      if |lines.elems| < 2 { return; }
      seqNb := Atoi(tokens.elems[1]);
      if |lines.elems| < 3 { return; }
      var sessionTokens := new StringVector();
      sessionTokens.Split(lines.elems[2], ' ');
      if |sessionTokens.elems| < 2 { return; }
      id := Atoi(sessionTokens.elems[1]);
      defined := true;
    }
  }

  /** A printed PAUSE changes nothing but the counter and is answered like an unknown message. */
  lemma PauseIsIgnored(g: Globals, seqNb: int, id: int, udpPort: int)
    ensures var reading := ReadRequest(RequestText("PAUSE", seqNb, id, udpPort));
      reading == Request(5, 0) && React(g, reading) == Globals(0, g.state, g.slp) && !Answers(reading)
  {
    KindsExactly("");
    RequestRoundTrip("PAUSE", seqNb, id, udpPort);
  }

  /** Typed commands, and the request each is sent as. */
  datatype Command = Setup | Play | Quit {
    function Name(): string {
      match this case Setup => "SETUP" case Play => "PLAY" case Quit => "TEARDOWN"
    }

    function Kind(): int {
      match this case Setup => SETUP case Play => PLAY case Quit => TEARDOWN
    }
  }

  lemma CommandKind(c: Command)
    ensures KindOf(c.Name()) == c.Kind() != -1 && (c.Name() == "SETUP" <==> c == Setup)
  {}

  /** RTSP state after a command has been carried out; QUIT changes nothing. */
  function StateAfter(c: Command, state: int): int {
    match c case Setup => READY case Play => PLAYING case Quit => state
  }

  /** The server's side of one command. */
  method Serve(server: RtspServer, c: Command, request: string)
      returns (reply: string)
    requires ReadRequest(request) == Request(c.Kind(), 0)
    modifies server
    ensures reply == ReplyText(1, server.id) && server.seqNb == 1
    ensures server.state == StateAfter(c, old(server.state))
    ensures server.slp == (old(server.slp) && c != Play)
  {
    var defined;
    reply, defined := server.Handle(request);
  }

  /** One command of startClientRTSP: request, reply, and the client's own state. */
  method Exchange(client: RtspClient, server: RtspServer, c: Command) returns (request: string, reply: string)
    modifies client, server
    ensures request == RequestText(c.Name(), old(client.seqNb) + 1, old(client.id), client.udpPort)
    ensures reply == ReplyText(1, server.id)
    ensures client.seqNb == 200 && client.id == server.id
    ensures client.state == StateAfter(c, old(client.state)) && server.state == StateAfter(c, old(server.state))
    ensures server.slp == (old(server.slp) && c != Play)
  {
    CommandKind(c);
    request := client.PrepareRequest(c.Name());
    RequestRoundTrip(c.Name(), client.seqNb, client.id, client.udpPort);
    reply := Serve(server, c, request);
    ReplyRoundTrip(1, server.id);
    var code, defined := client.ParseResponse(reply);
    if c == Setup {
      client.state := READY;
    } else if c == Play {
      client.state := PLAYING;
    }
  }

  /** The reply carries the CSeq number of its request, as section 12.17 of RFC 2326 asks. */
  ghost predicate Echoes(request: string, reply: string) {
    exists n :: HasCSeq(request, n) && HasCSeq(reply, n)
  }

  lemma NotEchoed(request: string, reply: string, n: int, m: int)
    requires HasCSeq(request, n) && HasCSeq(reply, m)
    ensures Echoes(request, reply) <==> n == m
  {}

  /** The CSeq number of request `i` of a session. */
  function CSeqAt(i: nat): int {
    if i == 0 then 1 else 201
  }

  /** The request sent for the command typed as number `i` of a session. */
  function Sent(c: Command, i: nat, udpPort: int): string {
    RequestText(c.Name(), CSeqAt(i), 123456, udpPort)
  }

  /** What a session of typed commands sends, oldest first. */
  function SentAll(commands: seq<Command>, udpPort: int): seq<string> {
    if commands == [] then []
    else SentAll(Front(commands), udpPort) + [Sent(Last(commands), |commands| - 1, udpPort)]
  }

  function Answered(n: nat): seq<string> {
    if n == 0 then [] else Answered(n - 1) + [ReplyText(1, 123456)]
  }

  /** `slp` after a session. */
  predicate StillAsleep(commands: seq<Command>) {
    commands == [] || (StillAsleep(Front(commands)) && Last(commands) != Play)
  }

  lemma {:induction false} AsleepExactly(commands: seq<Command>)
    ensures StillAsleep(commands) <==> Play !in commands
    decreases |commands|
  {
    if commands != [] {
      AsleepExactly(Front(commands));
      assert commands == Front(commands) + [Last(commands)];
    }
  }

  /** A whole session from start-up, whatever is typed: the texts exchanged are fixed, both ends
      agree on the RTSP state, and `slp` is cleared exactly if a PLAY was typed. */
  method RunSession(commands: seq<Command>, udpPort: int)
      returns (requests: seq<string>, replies: seq<string>, clientState: int, serverState: int, slp: bool)
    ensures requests == SentAll(commands, udpPort) && replies == Answered(|commands|)
    ensures clientState == serverState && (slp <==> Play !in commands)
  {
    var client := new RtspClient(udpPort);
    var server := new RtspServer();
    requests, replies := Converse(client, server, commands);
    clientState, serverState, slp := client.state, server.state, server.slp;
  }

  /** Both ends after the first `k` commands of a session. */
  ghost predicate InStep(client: RtspClient, server: RtspServer, commands: seq<Command>, k: nat)
    requires k <= |commands|
    reads client, server
  {
    && client.seqNb + 1 == CSeqAt(k) && client.id == server.id == 123456
    && client.state == server.state && server.slp == StillAsleep(commands[..k])
  }

  /** The keyboard loop of startClientRTSP against the receive loop of the server. */
  method Converse(client: RtspClient, server: RtspServer, commands: seq<Command>)
      returns (requests: seq<string>, replies: seq<string>)
    requires client.seqNb == 0 && client.id == server.id == 123456 && client.state == server.state && server.slp
    modifies client, server
    ensures requests == SentAll(commands, client.udpPort) && replies == Answered(|commands|)
    ensures client.state == server.state && (server.slp <==> Play !in commands)
  {
    requests, replies := [], [];
    var k := 0;
    while k < |commands|
      invariant 0 <= k <= |commands| && InStep(client, server, commands, k)
      invariant requests == SentAll(commands[..k], client.udpPort) && replies == Answered(k)
    {
      var request, reply := ExchangeNumber(client, server, commands, k);
      requests, replies := requests + [request], replies + [reply];
      k := k + 1;
    }
    assert commands[..k] == commands;
    AsleepExactly(commands);
  }

  /** One command as part of a session. */
  method ExchangeNumber(client: RtspClient, server: RtspServer, commands: seq<Command>, k: nat)
      returns (request: string, reply: string)
    requires k < |commands| && InStep(client, server, commands, k)
    modifies client, server
    ensures InStep(client, server, commands, k + 1)
    ensures SentAll(commands[..k + 1], client.udpPort) == SentAll(commands[..k], client.udpPort) + [request]
    ensures Answered(k + 1) == Answered(k) + [reply]
  {
    SentStep(commands, client.udpPort, k);
    request, reply := Exchange(client, server, commands[k]);
  }

  lemma SentStep(commands: seq<Command>, udpPort: int, k: nat)
    requires k < |commands|
    ensures SentAll(commands[..k + 1], udpPort) ==
      SentAll(commands[..k], udpPort) + [RequestText(commands[k].Name(), CSeqAt(k), 123456, udpPort)]
    ensures Answered(k + 1) == Answered(k) + [ReplyText(1, 123456)]
    ensures StillAsleep(commands[..k + 1]) <==> StillAsleep(commands[..k]) && commands[k] != Play
  {
    assert Front(commands[..k + 1]) == commands[..k];
  }

  lemma {:induction false} SentAt(commands: seq<Command>, udpPort: int, i: nat)
    requires i < |commands|
    ensures |SentAll(commands, udpPort)| == |commands|
    ensures SentAll(commands, udpPort)[i] == Sent(commands[i], i, udpPort)
    decreases |commands|
  {
    var before, last := SentAll(Front(commands), udpPort), Sent(Last(commands), |commands| - 1, udpPort);
    if |commands| > 1 {
      SentAt(Front(commands), udpPort, if i < |commands| - 1 then i else 0);
    }
    assert SentAll(commands, udpPort) == before + [last];
    assert |before| == |commands| - 1;
  }

  lemma {:induction false} AnsweredAt(n: nat, i: nat)
    requires i < n
    ensures |Answered(n)| == n && Answered(n)[i] == ReplyText(1, 123456)
  {
    if n > 1 {
      AnsweredAt(n - 1, if i < n - 1 then i else 0);
    }
  }

  /** In any session every reply carries CSeq 1 and every request after the first carries CSeq 201,
      so only the first reply echoes its request; each reply is read as code 200 with the same
      session number, SETUP advertises the port, and every other message names that session. */
  lemma OnlyFirstIsEchoed(commands: seq<Command>, udpPort: int, i: nat)
    requires i < |commands|
    ensures |SentAll(commands, udpPort)| == |Answered(|commands|)| == |commands|
    ensures var request, reply := SentAll(commands, udpPort)[i], Answered(|commands|)[i];
      && HasCSeq(request, if i == 0 then 1 else 201) && HasCSeq(reply, 1)
      && Opens(request, 0, commands[i].Name()) && HasSession(reply, 123456)
      && (if commands[i] == Setup then HasPort(request, udpPort) else HasSession(request, 123456))
      && ReadRequest(request) == Request(commands[i].Kind(), 0) && ReadReply(reply) == Accepted(200, 123456)
      && (Echoes(request, reply) <==> i == 0)
  {
    SentAt(commands, udpPort, i);
    AnsweredAt(|commands|, i);
    CommandKind(commands[i]);
    RequestRoundTrip(commands[i].Name(), CSeqAt(i), 123456, udpPort);
    RequestDetail(commands[i].Name(), CSeqAt(i), 123456, udpPort);
    ReplyRoundTrip(1, 123456);
    NotEchoed(Sent(commands[i], i, udpPort), ReplyText(1, 123456), CSeqAt(i), 1);
  }
}
