/**
 The byte stream an MPD client reads (libmpdclient.c) and the meaning of one
 call of its reader on that stream, free of buffers and of `recv` chunking.

 The network is a script of events.  `recv` delivers `Data`; `Again` is a recv
 that fails with EAGAIN or EINTR; `Closed` is a recv that returns 0 or fails in
 another way; `NotReady` is a `select` that does not return 1.  An exhausted
 script is a `select` that times out.
 */
module MpdWire {
  import opened Common

  const BUFFER_MAX: nat := 50000

  const ERROR_TIMEOUT := 10
  const ERROR_SENDING := 16
  const ERROR_CONNCLOSED := 17
  const ERROR_ACK := 18
  const ERROR_BUFFEROVERRUN := 19

  /** What one `recv` can return: some bytes, none of them NUL. */
  type Chunk = s: string | s != "" && NUL !in s witness "a"

  datatype Event = Data(bytes: Chunk) | Again | Closed | NotReady

  /** The bytes delivered before the first event that ends the wait for a line. */
  function Flow(script: seq<Event>): string {
    if script == [] then ""
    else match script[0]
      case Data(bytes) => bytes + Flow(script[1..])
      case Again => Flow(script[1..])
      case Closed => ""
      case NotReady => ""
  }

  /** The rest of the script, from the event that ends the wait on. */
  function Stop(script: seq<Event>): seq<Event> {
    if script == [] then []
    else if script[0].Data? || script[0].Again? then Stop(script[1..])
    else script
  }

  /** The index of the first newline of `s`, or `|s|`. */
  function NewlineAt(s: string): (k: nat)
    ensures k <= |s| && '\n' !in s[..k]
    ensures k < |s| ==> s[k] == '\n'
  {
    First(s, '\n')
  }

  lemma NewlineAtUnique(s: string, k: nat)
    requires k <= |s| && '\n' !in s[..k]
    requires k < |s| ==> s[k] == '\n'
    ensures NewlineAt(s) == k
  {
    var j := NewlineAt(s);
    assert forall i | 0 <= i < k :: s[i] in s[..k];
    assert forall i | 0 <= i < j :: s[i] in s[..j];
  }

  lemma NoNewlineBefore(s: string, prefix: string)
    requires prefix <= s && '\n' !in prefix
    ensures |prefix| <= NewlineAt(s)
  {
    assert forall i | 0 <= i < |prefix| :: s[i] in prefix;
  }

  datatype Pair = Pair(name: string, value: string)

  /**
   What the rest of the program can observe of a connection: the bytes still to
   be read (received or not), what the network does after them, and the flags.
   `commandList` is 0, COMMAND_LIST or COMMAND_LIST_OK.
   */
  datatype View = View(stream: string, tail: seq<Event>, done: bool, listOks: int,
                       doneListOk: bool, commandList: int, elem: Option<Pair>, error: int)

  const COMMAND_LIST := 1
  const COMMAND_LIST_OK := 2

  /** The flags agree with each other. */
  predicate Coherent(v: View) {
    && 0 <= v.listOks
    && (v.doneListOk ==> !v.done)
    && (v.elem.Some? ==> !v.done)
  }

  function ColonAt(s: string): (k: nat)
    ensures k <= |s| && ':' !in s[..k]
    ensures k < |s| ==> s[k] == ':'
  {
    First(s, ':')
  }

  /** `strncmp(output, "ACK", 3) == 0` */
  predicate IsAck(line: string) {
    "ACK" <= line
  }

  predicate Terminates(line: string) {
    line == "OK" || IsAck(line)
  }

  /** The effect of one complete line on the flags. */
  function Classify(line: string, v: View): View {
    if line == "OK" then
      v.(listOks := 0, done := true, doneListOk := false,
         error := if v.listOks > 0 then 1 else v.error)
    else if line == "list_OK" then
      if v.listOks == 0 then v.(error := 1)
      else v.(doneListOk := true, listOks := v.listOks - 1)
    else if IsAck(line) then
      v.(done := true, doneListOk := false, error := ERROR_ACK)
    else
      var c := ColonAt(line);
      if c == |line| then v
      else if c + 1 < |line| && line[c + 1] == ' ' then v.(elem := Some(Pair(line[..c], line[c + 2..])))
      else v.(error := 1)
  }

  function TransportError(v: View, error: int): View {
    v.(done := true, doneListOk := false, error := error)
  }

  /** Nothing is read while the command, or the current part of a list, is finished. */
  predicate Blocked(v: View) {
    v.done || (v.listOks != 0 && v.doneListOk)
  }

  datatype LineResult = Line(text: string) | Overrun | ConnClosed | TimedOut

  /** The event that ended the wait is consumed; later bytes belong to later waits. */
  function DropEvent(v: View): View {
    var after := if v.tail == [] then [] else v.tail[1..];
    v.(stream := v.stream + Flow(after), tail := Stop(after))
  }

  /** What waiting for a line finds, and what it leaves: a function of the bytes alone. */
  function AwaitLine(v: View): (LineResult, View) {
    var k := NewlineAt(v.stream);
    if BUFFER_MAX <= k then (Overrun, v)
    else if k < |v.stream| then (Line(v.stream[..k]), v.(stream := v.stream[k + 1..]))
    else if v.tail != [] && v.tail[0].Closed? then (ConnClosed, DropEvent(v))
    else (TimedOut, DropEvent(v))
  }

  /** The meaning of one call of mpd_getNextReturnElement. */
  function Step(v: View): View {
    var w := v.(elem := None);
    if Blocked(v) then w.(error := 1)
    else
      var (r, u) := AwaitLine(w);
      match r
      case Line(text) => Classify(text, u)
      case Overrun => TransportError(u, ERROR_BUFFEROVERRUN)
      case ConnClosed => TransportError(u, ERROR_CONNCLOSED)
      case TimedOut => TransportError(u, ERROR_TIMEOUT)
  }

}
