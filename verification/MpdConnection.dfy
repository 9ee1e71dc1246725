/**
 The connection object of libmpdclient.c: a byte buffer with a read window, the
 protocol flags, and the methods that move them.  Each method is proved against
 the buffer-free meaning in MpdWire.
 */
module MpdConnection {
  import opened Common
  import opened MpdWire
  import opened MpdProtocol
  import opened MpdEntities
  import opened MpdOutputs

  /** The peer: what it will send, and what has been sent to it. */
  class Socket {
    var script: seq<Event>
    var sends: seq<SendEvent>
    var wire: string

    constructor (script: seq<Event>, sends: seq<SendEvent>)
      ensures this.script == script && this.sends == sends && wire == ""
    {
      this.script, this.sends, this.wire := script, sends, "";
    }

    /** `select` for reading; true when it returns 1. */
    method SelectRead() returns (ready: bool)
      modifies this`script
      ensures ready == (old(script) != [] && !old(script)[0].NotReady?)
      ensures script == if old(script) != [] && old(script)[0].NotReady? then old(script)[1..] else old(script)
    {
      ready := script != [] && !script[0].NotReady?;
      if script != [] && script[0].NotReady? {
        script := script[1..];
      }
    }

    /** `recv` into `buf[at..at+room]`: -1 for EAGAIN, 0 for a closed connection. */
    method Recv(buf: array<char>, at: nat, room: nat) returns (n: int)
      requires 0 < room && at + room <= buf.Length
      requires script != [] && !script[0].NotReady?
      modifies this`script, buf
      ensures -1 <= n <= room
      ensures n == -1 ==> old(script)[0].Again? && script == old(script)[1..]
      ensures n == 0 ==> old(script)[0].Closed? && script == old(script)[1..]
      ensures n > 0 ==> old(script)[0].Data?
      ensures n > 0 ==> NUL !in buf[at..at + n]
      ensures n > 0 ==> buf[at..at + n] + Flow(script) == Flow(old(script)) && Stop(script) == Stop(old(script))
      ensures forall i | 0 <= i < buf.Length && !(at <= i < at + n) :: buf[i] == old(buf[i])
      ensures Weight(script) < Weight(old(script))
    {
      match script[0]
      case Again => n := -1; script := script[1..];
      case Closed => n := 0; script := script[1..];
      case Data(bytes) =>
        n := if |bytes| <= room then |bytes| else room;
        forall i | 0 <= i < n {
          buf[at + i] := bytes[i];
        }
        assert buf[at..at + n] == bytes[..n];
        TakesPart(script, bytes, n);
        script := if n == |bytes| then script[1..] else [Data(bytes[n..])] + script[1..];
    }

    /** `select` for writing; true when it returns 1. */
    method SelectWrite() returns (ready: bool)
      modifies this`sends
      ensures ready == (old(sends) != [] && !old(sends)[0].Stuck?)
      ensures sends == if old(sends) != [] && old(sends)[0].Stuck? then old(sends)[1..] else old(sends)
    {
      ready := sends != [] && !sends[0].Stuck?;
      if sends != [] && sends[0].Stuck? {
        sends := sends[1..];
      }
    }

    /** `send`: how many of the bytes went out, 0 for a hard failure, -1 for EAGAIN. */
    method Send(bytes: string) returns (n: int)
      requires bytes != ""
      requires sends != [] && !sends[0].Stuck?
      modifies this`sends, this`wire
      ensures n == match old(sends)[0]
                   case Accept(m) => (if m <= |bytes| then m else |bytes|)
                   case Retry => -1
                   case _ => 0
      ensures wire == old(wire) + if n > 0 then bytes[..n] else ""
      ensures sends == old(sends)[1..]
    {
      match sends[0] {
        case Accept(m) =>
          n := if m <= |bytes| then m else |bytes|;
          wire := wire + bytes[..n];
        case Retry => n := -1;
        case Broken => n := 0;
      }
      sends := sends[1..];
    }
  }

  /** What the network still delivers when `n` of the bytes of its first event have been taken. */
  lemma TakesPart(script: seq<Event>, bytes: Chunk, n: nat)
    requires script != [] && script[0] == Data(bytes) && 0 < n <= |bytes|
    ensures NUL !in bytes[..n] && NUL !in bytes[n..]
    ensures var rest := if n == |bytes| then script[1..] else [Data(bytes[n..])] + script[1..];
            bytes[..n] + Flow(rest) == Flow(script) && Stop(rest) == Stop(script) && Weight(rest) < Weight(script)
  {
    assert bytes[..n] + bytes[n..] == bytes;
    assert forall c | c in bytes[..n] || c in bytes[n..] :: c in bytes;
    if n < |bytes| {
      var rest := [Data(bytes[n..])] + script[1..];
      assert rest[1..] == script[1..];
      Associative(bytes[..n], bytes[n..], Flow(script[1..]));
    } else {
      assert bytes[..n] == bytes;
    }
  }

  type Pos = n: nat | 0 < n witness 1

  datatype SendEvent = Accept(count: Pos) | Retry | Broken | Stuck

  /** How sending `left` bytes ends, and how many of them go out. */
  function Sending(sends: seq<SendEvent>, left: nat): (r: (SendOutcome, nat))
    requires 0 < left
    ensures r.1 <= left && (r.0.Sent? <==> r.1 == left)
    decreases |sends|
  {
    if sends == [] then (SendTimedOut, 0)
    else match sends[0]
      case Stuck => (SendTimedOut, 0)
      case Broken => (SendFailed, 0)
      case Retry => Sending(sends[1..], left)
      case Accept(m) =>
        if left <= m then (Sent, left)
        else
          var (o, n) := Sending(sends[1..], left - m);
          (o, m + n)
  }

  /** A bound on the waits a script can still satisfy. */
  function Weight(script: seq<Event>): nat {
    if script == [] then 0
    else (if script[0].Data? then |script[0].bytes| else 1) + Weight(script[1..])
  }

  class Connection {
    const sock: Socket
    const buffer: array<char>
    var buflen: int
    var bufstart: int
    var doneProcessing: bool
    var listOks: int
    var doneListOk: bool
    var commandList: int
    var returnElement: Option<Pair>
    var error: int

    /** The window is inside the buffer, NUL-terminated and NUL-free. */
    ghost predicate BufferOk()
      reads this, buffer
    {
      && buffer.Length == BUFFER_MAX + 1
      && 0 <= bufstart <= buflen <= BUFFER_MAX
      && buffer[buflen] == NUL
      && NUL !in buffer[bufstart..buflen]
    }

    ghost function Pending(): string
      requires BufferOk()
      reads this, buffer
    {
      buffer[bufstart..buflen]
    }

    ghost function ViewOf(): View
      requires BufferOk()
      reads this, buffer, sock
    {
      View(Pending() + Flow(sock.script), Stop(sock.script), doneProcessing, listOks,
           doneListOk, commandList, returnElement, error)
    }

    ghost predicate Valid()
      reads this, buffer, sock
    {
      BufferOk() && Coherent(ViewOf())
    }

    /** A connection whose welcome line has been read, and with it the bytes `behind` (mpd_newConnection). */
    constructor (sock: Socket, behind: string)
      requires |behind| < BUFFER_MAX && NUL !in behind
      ensures Valid() && fresh(buffer) && this.sock == sock
      ensures ViewOf() == View(behind + Flow(sock.script), Stop(sock.script), true, 0, false, 0, None, 0)
    {
      this.sock := sock;
      var space := new char[BUFFER_MAX + 1];
      forall i | 0 <= i < |behind| {
        space[i] := behind[i];
      }
      space[|behind|] := NUL;
      buffer := space;
      buflen, bufstart := |behind|, 0;
      doneProcessing, listOks, doneListOk, commandList := true, 0, false, 0;
      returnElement, error := None, 0;
      new;
      assert buffer[0..buflen] == behind;
    }

    /** `strchr(buffer + from, c)`, -1 for NULL. */
    method Strchr(from: nat, c: char) returns (at: int)
      requires BufferOk() && bufstart <= from <= buflen && c != NUL
      ensures at == -1 ==> c !in buffer[from..buflen]
      ensures at != -1 ==> from <= at < buflen && buffer[at] == c && c !in buffer[from..at]
    {
      at := from;
      while buffer[at] != c && buffer[at] != NUL
        invariant from <= at <= buflen
        invariant c !in buffer[from..at]
        decreases buflen - at
      {
        assert buffer[from..at + 1] == buffer[from..at] + [buffer[at]];
        at := at + 1;
      }
      if buffer[at] != c {
        assert forall i | bufstart <= i < buflen :: buffer[i] in buffer[bufstart..buflen];
        assert at == buflen;
        at := -1;
      }
    }

    /** Moves the window to the front of a full buffer. */
    method Compact()
      requires BufferOk()
      modifies this`buflen, this`bufstart, buffer
      ensures BufferOk() && Pending() == old(Pending()) && bufstart == 0
    {
      ghost var window := Pending();
      var n := buflen - bufstart + 1;
      var src := bufstart;
      forall i | 0 <= i < n {
        buffer[i] := buffer[src + i];
      }
      buflen := buflen - bufstart;
      bufstart := 0;
      assert buffer[0..buflen] == window;
    }

    /** The `select` of the waiting loop; when it is not 1, the wait is over. */
    method WaitReadable() returns (ready: bool)
      requires BufferOk() && buflen < BUFFER_MAX && '\n' !in Pending()
      modifies sock`script
      ensures BufferOk()
      ensures ready ==> sock.script == old(sock.script) != [] && !sock.script[0].NotReady?
      ensures !ready ==> (TimedOut, ViewOf()) == AwaitLine(old(ViewOf()))
    {
      NewlineAtUnique(Pending(), |Pending()|);
      assert Flow(sock.script) == "" ==> ViewOf().stream == Pending();
      ready := sock.SelectRead();
    }

    /** One `recv` behind the window: -1 for EAGAIN, 0 for a closed connection. */
    method Receive() returns (readed: int)
      requires BufferOk() && buflen < BUFFER_MAX
      requires sock.script != [] && !sock.script[0].NotReady?
      modifies this`buflen, buffer, sock`script
      ensures BufferOk() && old(buflen) <= buflen
      ensures buffer[bufstart..old(buflen)] == old(Pending())
      ensures readed <= 0 ==> buflen == old(buflen)
      ensures readed != 0 ==> ViewOf() == old(ViewOf())
      ensures readed == 0 && '\n' !in old(Pending()) ==> (ConnClosed, ViewOf()) == AwaitLine(old(ViewOf()))
      ensures Weight(sock.script) < old(Weight(sock.script))
    {
      ghost var window := Pending();
      ghost var flow := Flow(sock.script);
      readed := sock.Recv(buffer, buflen, BUFFER_MAX - buflen);
      assert buffer[bufstart..buflen] == window;
      if readed > 0 {
        ghost var got := buffer[buflen..buflen + readed];
        assert got + Flow(sock.script) == flow;
        ghost var end := buflen;
        buflen := buflen + readed;
        buffer[buflen] := NUL;
        assert buffer[bufstart..end] == window && buffer[end..buflen] == got;
        assert buffer[bufstart..buflen] == buffer[bufstart..end] + buffer[end..buflen];
        assert window + (got + Flow(sock.script)) == window + got + Flow(sock.script);
      } else if readed == 0 && '\n' !in window {
        assert window + "" == window;
        NewlineAtUnique(window, |window|);
      }
    }

    /**
     The waiting loop of mpd_getNextReturnElement, up to the line cut off the
     window: receives until the window holds a newline.  Which line it finds, and
     whether it fails, depends on the bytes alone, never on how they were cut.
     */
    method ReadLine() returns (r: LineResult)
      requires BufferOk()
      modifies this`buflen, this`bufstart, buffer, sock`script
      ensures BufferOk()
      ensures (r, ViewOf()) == AwaitLine(old(ViewOf()))
    {
      ghost var v := ViewOf();
      var check: nat := bufstart;
      var rt := -1;
      if bufstart < buflen {
        rt := Strchr(check, '\n');
      }
      while rt < 0
        invariant BufferOk() && ViewOf() == v
        invariant bufstart <= check <= buflen
        invariant rt < 0 ==> '\n' !in Pending()
        invariant rt >= 0 ==> bufstart <= rt < buflen && buffer[rt] == '\n' && '\n' !in buffer[bufstart..rt]
        decreases rt < 0, Weight(sock.script)
      {
        if buflen >= BUFFER_MAX {
          Compact();
        }
        if buflen >= BUFFER_MAX {
          NoNewlineBefore(v.stream, Pending());
          return Overrun;
        }
        check := buflen;
        var ready := WaitReadable();
        if !ready {
          return TimedOut;
        }
        var readed := Receive();
        if readed < 0 {
          continue;
        }
        if readed == 0 {
          return ConnClosed;
        }
        rt := Scan(check);
      }
      var output := TakeLine(rt);
      r := Line(output);
    }

    /** The search goes on at `check`: nothing was found before it. */
    method Scan(check: nat) returns (rt: int)
      requires BufferOk() && bufstart <= check <= buflen && '\n' !in buffer[bufstart..check]
      ensures rt < 0 ==> '\n' !in Pending()
      ensures rt >= 0 ==> bufstart <= rt < buflen && buffer[rt] == '\n' && '\n' !in buffer[bufstart..rt]
    {
      rt := Strchr(check, '\n');
      NoNewlineIn(check, if rt < 0 then buflen else rt);
    }

    lemma NoNewlineIn(check: nat, end: nat)
      requires BufferOk() && bufstart <= check <= end <= buflen
      requires '\n' !in buffer[bufstart..check] && '\n' !in buffer[check..end]
      ensures '\n' !in buffer[bufstart..end]
    {
      assert buffer[bufstart..end] == buffer[bufstart..check] + buffer[check..end];
    }

    /** Cuts the line that ends at `rt` off the window and copies it out. */
    method TakeLine(rt: nat) returns (output: string)
      requires BufferOk() && bufstart <= rt < buflen
      requires buffer[rt] == '\n' && '\n' !in buffer[bufstart..rt]
      modifies this`bufstart, buffer
      ensures BufferOk()
      ensures (Line(output), ViewOf()) == AwaitLine(old(ViewOf()))
    {
      ghost var s := ViewOf().stream;
      ghost var k := rt - bufstart;
      assert Pending()[..k] == buffer[bufstart..rt] && Pending()[k] == '\n';
      assert s[..k] == buffer[bufstart..rt] && s[k] == '\n';
      NewlineAtUnique(s, k);
      output := buffer[bufstart..rt];
      buffer[rt] := NUL;
      bufstart := rt + 1;
      assert Pending() == old(Pending())[k + 1..];
      assert ViewOf().stream == s[k + 1..];
    }

    /** mpd_getNextReturnElement */
    method GetNextReturnElement()
      requires Valid()
      modifies this, buffer, sock`script
      ensures Valid() && ViewOf() == Step(old(ViewOf()))
    {
      StepKeepsCoherent(ViewOf());
      returnElement := None;
      if doneProcessing || (listOks != 0 && doneListOk) {
        error := 1;
        return;
      }
      var r := ReadLine();
      match r
      case Overrun =>
        error, doneProcessing, doneListOk := ERROR_BUFFEROVERRUN, true, false;
      case ConnClosed =>
        error, doneProcessing, doneListOk := ERROR_CONNCLOSED, true, false;
      case TimedOut =>
        error, doneProcessing, doneListOk := ERROR_TIMEOUT, true, false;
      case Line(output) =>
        HandleLine(output);
    }

    /** The classification of a complete line. */
    method HandleLine(output: string)
      requires Valid() && !doneProcessing && returnElement == None
      modifies this`error, this`listOks, this`doneProcessing, this`doneListOk, this`returnElement
      ensures Valid() && ViewOf() == Classify(output, old(ViewOf()))
    {
      if output == "OK" {
        if listOks > 0 {
          error := 1;
        }
        listOks, doneProcessing, doneListOk := 0, true, false;
        return;
      }
      if output == "list_OK" {
        if listOks == 0 {
          error := 1;
        } else {
          doneListOk := true;
          listOks := listOks - 1;
        }
        return;
      }
      if "ACK" <= output {
        error, doneProcessing, doneListOk := ERROR_ACK, true, false;
        return;
      }
      var tok := ColonAt(output);
      if tok == |output| {
        return;
      }
      var name, value := output[..tok], output[tok + 1..];
      if value != "" && value[0] == ' ' {
        returnElement := Some(Pair(name, value[1..]));
      } else {
        error := 1;
      }
    }

    // ---------- operations built from the reader ----------

    /** mpd_finishCommand */
    method FinishCommand()
      requires Valid()
      modifies this, buffer, sock`script
      ensures Valid() && ViewOf() == Finish(old(ViewOf()))
    {
      while !doneProcessing
        invariant Valid() && Finish(ViewOf()) == Finish(old(ViewOf()))
        decreases !doneProcessing, |ViewOf().stream|
      {
        ghost var u := ViewOf().(doneListOk := false);
        StepShrinks(u);
        if doneListOk {
          doneListOk := false;
        }
        assert ViewOf() == u;
        GetNextReturnElement();
      }
    }

    /** mpd_finishListOkCommand */
    method FinishListOkCommand()
      requires Valid()
      modifies this, buffer, sock`script
      ensures Valid() && ViewOf() == FinishListOk(old(ViewOf()))
    {
      while !doneProcessing && listOks != 0 && !doneListOk
        invariant Valid() && FinishListOk(ViewOf()) == FinishListOk(old(ViewOf()))
        decreases !doneProcessing, |ViewOf().stream|
      {
        StepShrinks(ViewOf());
        GetNextReturnElement();
      }
    }

    /** mpd_nextListOkCommand */
    method NextListOkCommand() returns (r: int)
      requires Valid()
      modifies this, buffer, sock`script
      ensures Valid() && (r, ViewOf()) == NextListOk(old(ViewOf()))
    {
      FinishListOkCommand();
      if !doneProcessing {
        doneListOk := false;
      }
      if listOks == 0 || doneProcessing {
        return -1;
      }
      return 0;
    }

    /** mpd_getNextInfoEntity */
    method GetNextInfoEntity() returns (r: Option<Entity>)
      requires Valid()
      modifies this, buffer, sock`script
      ensures Valid() && (r, ViewOf()) == InfoEntity(old(ViewOf()))
    {
      if doneProcessing || (listOks != 0 && doneListOk) {
        return None;
      }
      if returnElement.None? {
        GetNextReturnElement();
      }
      if returnElement.None? {
        return None;
      }
      if !IsHeader(returnElement.value.name) {
        error := 1;
        return None;
      }
      var entity := Open(returnElement.value);
      GetNextReturnElement();
      entity := GetBody(entity);
      r := Some(entity);
    }

    /** The loop of mpd_getNextInfoEntity over the pairs of one entity. */
    method GetBody(start: Entity) returns (entity: Entity)
      requires Valid()
      modifies this, buffer, sock`script
      ensures Valid() && (Some(entity), ViewOf()) == ReadBody(old(ViewOf()), start)
    {
      entity := start;
      while returnElement.Some?
        invariant Valid() && ReadBody(ViewOf(), entity) == ReadBody(old(ViewOf()), start)
        decreases returnElement.Some?, |ViewOf().stream|
      {
        var re := returnElement.value;
        if IsHeader(re.name) {
          return;
        }
        StepShrinks(ViewOf());
        entity := Absorb(entity, re);
        GetNextReturnElement();
      }
    }

    /** mpd_getNextOutput */
    method GetNextOutput() returns (r: Option<Output>)
      requires Valid()
      modifies this, buffer, sock`script
      ensures Valid() && (r, ViewOf()) == NextOutput(old(ViewOf()))
    {
      if doneProcessing || (listOks != 0 && doneListOk) {
        return None;
      }
      if error != 0 {
        return None;
      }
      var output := BLANK;
      if returnElement.None? {
        GetNextReturnElement();
      }
      while returnElement.Some?
        invariant Valid() && ReadOutput(ViewOf(), output) == NextOutput(old(ViewOf()))
        decreases returnElement.Some?, |ViewOf().stream|
      {
        var re := returnElement.value;
        if re.name == "outputid" && output.id >= 0 {
          return Some(output);
        }
        StepShrinks(ViewOf());
        output := Update(output, re);
        GetNextReturnElement();
        if error != 0 {
          return None;
        }
      }
      r := Some(output);
    }

    // ---------- sending ----------

    /** The send loop of mpd_executeCommand: all of `command` goes out, or a part of it. */
    method SendAll(command: string) returns (o: SendOutcome)
      requires command != ""
      modifies sock`sends, sock`wire
      ensures var (outcome, n) := Sending(old(sock.sends), |command|);
              o == outcome && sock.wire == old(sock.wire) + command[..n]
    {
      var at := 0;
      var ready := sock.SelectWrite();
      assert old(sock.wire) + command[..0] == old(sock.wire);
      while ready
        invariant 0 <= at < |command| && sock.wire == old(sock.wire) + command[..at]
        invariant ready ==> sock.sends != [] && !sock.sends[0].Stuck?
        invariant var all, more := Sending(old(sock.sends), |command|), Sending(sock.sends, |command| - at);
                  if ready then all == (more.0, at + more.1) else all == (SendTimedOut, at)
        decreases |sock.sends|, ready
      {
        var n := sock.Send(command[at..]);
        if n == 0 {
          return SendFailed;
        }
        if n > 0 {
          assert command[..at] + command[at..][..n] == command[..at + n];
          at := at + n;
          if at == |command| {
            return Sent;
          }
        }
        ready := sock.SelectWrite();
      }
      return SendTimedOut;
    }

    /** `command` has been handed to the socket, which took as much of it as it would. */
    twostate predicate Delivered(command: string, o: SendOutcome)
      requires command != ""
      reads this, sock
    {
      var (outcome, n) := Sending(old(sock.sends), |command|);
      o == outcome && sock.wire == old(sock.wire) + command[..n]
    }

    /** Nothing has been sent. */
    twostate predicate Refused(o: SendOutcome)
      reads this, sock
    {
      sock.wire == old(sock.wire) && o.SendFailed?
    }

    /** mpd_executeCommand */
    method ExecuteCommand(command: string) returns (ghost o: SendOutcome)
      requires Valid() && command != ""
      modifies this`error, this`doneProcessing, this`listOks, sock`sends, sock`wire
      ensures Valid() && ViewOf() == Execute(old(ViewOf()), o)
      ensures if !old(doneProcessing) && old(commandList) == 0 then Refused(o) else Delivered(command, o)
    {
      if !doneProcessing && commandList == 0 {
        error := 1;
        o := SendFailed;
        return;
      }
      error := 0;
      var sent := SendAll(command);
      o := sent;
      if sent.SendFailed? {
        error := ERROR_SENDING;
      } else if sent.SendTimedOut? {
        error := ERROR_TIMEOUT;
      } else if commandList == 0 {
        doneProcessing := false;
      } else if commandList == COMMAND_LIST_OK {
        listOks := listOks + 1;
      }
    }

    /** mpd_sendCommandListBegin */
    method SendCommandListBegin() returns (ghost o: SendOutcome)
      requires Valid()
      modifies this`error, this`doneProcessing, this`listOks, this`commandList, sock`sends, sock`wire
      ensures Valid() && ViewOf() == ListBegin(old(ViewOf()), o)
      ensures if old(commandList) == 0 then Delivered("command_list_begin\n", o) else Refused(o)
    {
      if commandList != 0 {
        error := 1;
        return SendFailed;
      }
      commandList := COMMAND_LIST;
      o := ExecuteCommand("command_list_begin\n");
    }

    /** mpd_sendCommandListOkBegin */
    method SendCommandListOkBegin() returns (ghost o: SendOutcome)
      requires Valid()
      modifies this`error, this`doneProcessing, this`listOks, this`commandList, sock`sends, sock`wire
      ensures Valid() && ViewOf() == ListOkBegin(old(ViewOf()), o)
      ensures if old(commandList) == 0 then Delivered("command_list_ok_begin\n", o) else Refused(o)
    {
      if commandList != 0 {
        error := 1;
        return SendFailed;
      }
      commandList := COMMAND_LIST_OK;
      o := ExecuteCommand("command_list_ok_begin\n");
      listOks := 0;
    }

    /** mpd_sendCommandListEnd */
    method SendCommandListEnd() returns (ghost o: SendOutcome)
      requires Valid()
      modifies this`error, this`doneProcessing, this`listOks, this`commandList, sock`sends, sock`wire
      ensures Valid() && ViewOf() == ListEnd(old(ViewOf()), o)
      ensures if old(commandList) != 0 && old(doneProcessing) then Delivered("command_list_end\n", o) else Refused(o)
    {
      if commandList == 0 {
        error := 1;
        return SendFailed;
      }
      commandList := 0;
      o := ExecuteCommand("command_list_end\n");
    }
  }
}
