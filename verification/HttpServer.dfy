/** Http/httpServer.cc: the callbacks of the server, and the server's side of a connection.

    Every method says that the machines of HttpServing.dfy and IdleReaper.dfy take the corresponding steps. How
    what is sent reaches the kernel is in Session.dfy. */
module HttpServer {
  import opened Options
  import opened OutputStream
  import opened HttpRequest
  import opened HttpContent
  import opened HttpResponse
  import opened HttpServing
  import opened Buffer
  import TimerMachine
  import IdleReaper

  type Time = TimerMachine.Time

  /** The server's side of a `TcpConnection`. */
  class HttpConnection {
    var state: State
    var timestamp: Time
    const content: HttpContent
    const inputBuffer: Buffer<char>
    /** The expiration of the timer bound to the connection, while one is pending. */
    var idleTimer: Option<Time>

    /** What was given to `send`, in order. */
    var sent: seq<string>

    ghost var replies: seq<Reply>
    ghost var end: End
    ghost var idle: IdleReaper.Client

    ghost function View(): Serving
      requires inputBuffer.WellFormed()
      reads this, content, content.request, inputBuffer, inputBuffer.store
    {
      Serving(state, content.View(), inputBuffer.Contents(), replies, end)
    }

    ghost predicate SentIsReplies()
      reads this
    {
      |sent| == |replies| && forall i | 0 <= i < |sent| :: sent[i] == ReplyText(replies[i])
    }

    ghost predicate Valid()
      reads this, content, inputBuffer
    {
      && inputBuffer.Valid() && Assigned(content.parseState) && content.parseState != GotCompleteRequest
      && IdleReaper.Reachable(idle, idle.autoClose, idle.created)
      && SentIsReplies()
      && idle.state == state && idle.timestamp == timestamp && idle.pending == idleTimer
    }

    constructor (now: Time, autoClose: bool, m: Method, v: Version)
      ensures Valid() && View() == Fresh(Request(m, v, "", "", map[])).(state := Connecting)
      ensures idle == IdleReaper.Initial(autoClose, now)
      ensures fresh(content) && fresh(content.request) && fresh(inputBuffer) && fresh(inputBuffer.store)
    {
      state, timestamp, idleTimer := Connecting, now, None;
      var request := new HttpRequest(m, v);
      content := new HttpContent(request);
      inputBuffer := new Buffer<char>(K_INITIAL_SIZE);
      sent, replies, end, idle := [], [], Open, IdleReaper.Initial(autoClose, now);
      assert IdleReaper.Run(autoClose, now, []) == IdleReaper.Initial(autoClose, now);
    }

    /** A step of the reaper's machine. */
    ghost method Advance(e: IdleReaper.Event)
      requires IdleReaper.Reachable(idle, idle.autoClose, idle.created)
      modifies this`idle
      ensures idle == IdleReaper.Step(old(idle), e) && IdleReaper.Reachable(idle, idle.autoClose, idle.created)
    {
      IdleReaper.ReachableStep(idle, idle.autoClose, idle.created, e);
      idle := IdleReaper.Step(idle, e);
    }

    /** Time passes. */
    ghost method Pass(elapsed: nat)
      requires Valid()
      modifies this`idle
      ensures Valid() && idle == IdleReaper.Step(old(idle), IdleReaper.Tick(elapsed))
    {
      Advance(IdleReaper.Tick(elapsed));
    }

    /** The other end closes. */
    method Close()
      requires Valid() && state != Connecting
      modifies this`state, this`idle
      ensures Valid() && idle == IdleReaper.Step(old(idle), IdleReaper.Close) && state == Disconnected
    {
      state := Disconnected;
      Advance(IdleReaper.Close);
    }

    /** The last owner lets go. */
    ghost method Release()
      requires Valid() && state == Disconnected
      modifies this`idle
      ensures Valid() && idle == IdleReaper.Step(old(idle), IdleReaper.Destroy)
    {
      Advance(IdleReaper.Destroy);
    }

    /** The answer to a malformed line. */
    method Refuse()
      requires SentIsReplies()
      modifies this`state, this`sent, this`replies, this`end
      ensures SentIsReplies() && replies == old(replies) + [BadRequest] && end == Refused
      ensures sent == old(sent) + ["HTTP/1.1 400 Bad Request\r\n\r\n"]
      ensures state == if old(state) == Connected then Disconnecting else old(state)
    {
      sent := sent + [BAD_REQUEST];
      replies, end := replies + [BadRequest], Refused;
      Shutdown();
    }

    /** `shutdown`, up to what it does to the socket. */
    method Shutdown()
      modifies this`state
      ensures state == if old(state) == Connected then Disconnecting else old(state)
    {
      if state == Connected {
        state := Disconnecting;
      }
    }
  }

  class HttpServer {
    const autoCloseIdleConnection: bool

    constructor (closeIdleConn: bool)
      ensures autoCloseIdleConnection == closeIdleConn
    {
      autoCloseIdleConnection := closeIdleConn;
    }

    /** `RunAfter` with `HandleIdleConnection`; the connection is held by a weak pointer only. */
    method StartTimer(conn: HttpConnection, now: Time)
      modifies conn`idleTimer
      ensures conn.idleTimer == Some(now + 10_000_000)
      ensures conn.idleTimer == Some(TimerMachine.AddTime(now, IdleReaper.K_IDLE_CONNECTION_TIME_OUT))
    {
      IdleReaper.TenSeconds(now);
      conn.idleTimer := Some(TimerMachine.AddTime(now, IdleReaper.K_IDLE_CONNECTION_TIME_OUT));
    }

    /** `connectEstablished` with `ConnectionCallback`. */
    method ConnectionUp(conn: HttpConnection, now: Time)
      requires conn.Valid() && conn.state == Connecting
      requires conn.idle.autoClose == autoCloseIdleConnection && now == conn.idle.now
      modifies conn
      ensures conn.Valid() && conn.idle == IdleReaper.Step(old(conn.idle), IdleReaper.Up)
      ensures conn.View() == old(conn.View()).(state := Connected)
      ensures conn.idleTimer == if autoCloseIdleConnection then Some(now + 10_000_000) else old(conn.idleTimer)
    {
      conn.state := Connected;
      if autoCloseIdleConnection {
        StartTimer(conn, now);
      }
      conn.Advance(IdleReaper.Up);
    }

    /** `MessageCallback`, with the new bytes already in the buffer. */
    method MessageCallback(conn: HttpConnection, callback: Callback, now: Time)
      requires conn.Valid() && (conn.state == Connected || conn.state == Disconnecting) && conn.end != Crashed
      requires conn.idle.autoClose == autoCloseIdleConnection && now == conn.idle.now
      modifies conn, conn.content, conn.content.request, conn.inputBuffer`readIdx, conn.inputBuffer`peak
      ensures conn.Valid()
      ensures conn.View() == ServeStep(old(conn.View()), callback)
      ensures conn.idle == IdleReaper.Step(old(conn.idle), IdleReaper.Message(conn.state != old(conn.state)))
      ensures conn.timestamp == (if autoCloseIdleConnection then now else old(conn.timestamp))
      ensures conn.idleTimer == old(conn.idleTimer)
    {
      ghost var before := conn.View();
      if autoCloseIdleConnection {
        conn.timestamp := now;
      }
      if conn.state != Disconnecting {
        Respond(conn, callback);
      }
      conn.Advance(IdleReaper.Message(conn.state != before.state));
    }

    /** The rest of `MessageCallback`: a malformed line is answered with 400 and a shutdown. */
    method Respond(conn: HttpConnection, callback: Callback)
      requires conn.inputBuffer.Valid() && Assigned(conn.content.parseState) && conn.SentIsReplies()
      requires conn.content.parseState != GotCompleteRequest && conn.state == Connected && conn.end != Crashed
      modifies conn`state, conn`sent, conn`replies, conn`end
      modifies conn.content, conn.content.request, conn.inputBuffer`readIdx, conn.inputBuffer`peak
      ensures conn.inputBuffer.Valid() && Assigned(conn.content.parseState) && conn.SentIsReplies()
      ensures conn.content.parseState != GotCompleteRequest && conn.state != Connecting && conn.state != Disconnected
      ensures conn.View() == ServeStep(old(conn.View()), callback)
    {
      hide Feed;
      var content := conn.content;
      IncompleteUnlessFine(content.View(), conn.inputBuffer.Contents());
      var outcome := content.ParseContent(conn.inputBuffer);
      if outcome == Thrown {
        conn.end := Crashed;
        return;
      }
      if outcome == Failed {
        conn.Refuse();
      }
      if content.parseState == GotCompleteRequest {
        DealWithRequest(conn, callback);
        content.ResetContentState();
      }
    }

    /** The buffer that is sent for a response. */
    method Printed(response: Response) returns (text: string)
      ensures text == ResponseText(response)
    {
      var buffer := new Buffer<char>(K_INITIAL_SIZE);
      AppendToBuffer(response, buffer);
      text := buffer.Peek();
      assert [] + ResponseText(response) == ResponseText(response);
    }

    /** `dealWithRequest`. */
    method DealWithRequest(conn: HttpConnection, callback: Callback)
      requires conn.SentIsReplies()
      modifies conn`state, conn`sent, conn`replies
      ensures conn.SentIsReplies()
      ensures var r := conn.content.request.View();
              var response := callback(r, CloseAsked(r));
              && conn.replies == old(conn.replies) + [Answer(r, response)]
              && conn.sent == old(conn.sent) + [ResponseText(response)]
              && conn.state == if response.close && old(conn.state) == Connected then Disconnecting else old(conn.state)
    {
      hide ResponseText;
      var request := conn.content.request.View();
      var connectionState := GetHeader(request, "Connection");
      var close := connectionState == "Close" || (request.version == Http10 && connectionState != "Keep-Alive");
      var response := callback(request, close);
      var text := Printed(response);
      conn.sent := conn.sent + [text];
      conn.replies := conn.replies + [Answer(request, response)];
      if response.close {
        conn.Shutdown();
      }
    }

    /** `HandleIdleConnection`, dispatched when the timer has expired; null when the weak pointer does not lock. */
    method HandleIdleConnection(conn: HttpConnection?, now: Time)
      requires conn != null ==> conn.Valid() && conn.idle.alive && conn.idle.pending.Some?
                                && conn.idle.pending.value <= conn.idle.now == now
      modifies conn
      ensures conn != null ==> conn.Valid() && conn.idle == IdleReaper.Step(old(conn.idle), IdleReaper.Fire)
      ensures conn != null ==>
                if conn.timestamp + 10_000_000 < now then
                  && conn.idleTimer == None
                  && conn.state == if old(conn.state) == Connected then Disconnecting else old(conn.state)
                else conn.idleTimer == Some(now + 10_000_000) && conn.state == old(conn.state)
      ensures conn != null ==> conn.timestamp == old(conn.timestamp)
    {
      if conn != null {
        IdleReaper.TenSeconds(conn.timestamp);
        conn.idleTimer := None;
        if TimerMachine.AddTime(conn.timestamp, IdleReaper.K_IDLE_CONNECTION_TIME_OUT) < now {
          conn.Shutdown();
        } else {
          StartTimer(conn, now);
        }
        conn.Advance(IdleReaper.Fire);
      }
    }
  }
}
