/**
 Command line of foreach.c: the arguments are compacted towards the front of the
 very array they are read from, as a command template and a list of values.
 */
module ForeachArgs {

  /** A cell of argv: NULL, a string, or the MARKER constant itself. */
  datatype Cell = Null | Str(s: string) | Marker

  const MARKER := "{+}"
  const DASHES := "--"

  /** `strcmp(cell, text) == 0`; false for NULL. */
  predicate Reads(c: Cell, text: string) {
    (c.Str? && c.s == text) || (c.Marker? && text == MARKER)
  }

  predicate Ends(c: Cell, wait: bool) {
    c.Null? || (wait && Reads(c, DASHES))
  }

  /** `to` is the first cell from `from` on that ends a list. */
  predicate StopsAt(s: seq<Cell>, from: nat, to: nat, wait: bool) {
    from <= to < |s| && Ends(s[to], wait) && forall i | from <= i < to :: !Ends(s[i], wait)
  }

  /** A leading `--` is skipped. */
  function StartAt(s: seq<Cell>, i: nat): nat
    requires i < |s|
  {
    if Reads(s[i], DASHES) then i + 1 else i
  }

  function Copied(c: Cell, marker: bool): Cell {
    if marker && Reads(c, MARKER) then Marker else c
  }

  predicate HasMarker(s: seq<Cell>, from: nat, to: nat)
    requires from <= to <= |s|
  {
    exists i | from <= i < to :: Reads(s[i], MARKER)
  }

  function ListLength(from: nat, to: nat, added: bool): nat
    requires from <= to
  {
    to - from + if added then 1 else 0
  }

  /**
   `t` is `s` after the cells from `from` to `to` have been stored at `out0` as a
   NULL-terminated list, with a marker added or not.  Nothing before the list and
   nothing unread is touched.
   */
  ghost predicate Laid(t: seq<Cell>, s: seq<Cell>, from: nat, to: nat, out0: nat, marker: bool, added: bool)
    requires from <= to < |s|
  {
    var n := ListLength(from, to, added);
    && |t| == |s| && out0 + n <= to
    && (forall i | 0 <= i < out0 || to < i < |s| :: t[i] == s[i])
    && (forall i | out0 <= i < out0 + (to - from) :: t[i] == Copied(s[i + (from - out0)], marker))
    && (added ==> t[out0 + n - 1] == Marker)
    && t[out0 + n] == Null
  }

  lemma MarkerAdded(t: seq<Cell>, s: seq<Cell>, from: nat, to: nat, out0: nat)
    requires from <= to < |s| && out0 < from && Laid(t, s, from, to, out0, true, false)
    ensures var n := to - from;
            Laid(t[out0 + n := Marker][out0 + n + 1 := Null], s, from, to, out0, true, true)
  {
  }

  /** One cell in the loop: NULL at the end of the list, the MARKER constant for its text. */
  method CopyCell(cell: Cell, marker: bool, wait: bool) returns (arg: Cell, isMarker: bool)
    ensures arg == if Ends(cell, wait) then Null else Copied(cell, marker)
    ensures isMarker == (marker && !Ends(cell, wait) && Reads(cell, MARKER))
  {
    arg, isMarker := cell, false;
    if arg != Null {
      if wait && Reads(arg, DASHES) {
        arg := Null;
      } else if marker && Reads(arg, MARKER) {
        arg := Marker;
        isMarker := true;
      }
    }
  }

  /** The cells from `from` to `argv` have been copied to `out0`. */
  ghost predicate CopiedSoFar(t: seq<Cell>, s: seq<Cell>, from: nat, argv: nat, out0: nat, marker: bool)
    requires out0 <= from <= argv <= |s|
  {
    && |t| == |s|
    && (forall i | 0 <= i < out0 || argv <= i < |s| :: t[i] == s[i])
    && (forall i | out0 <= i < out0 + (argv - from) :: t[i] == Copied(s[i + (from - out0)], marker))
  }

  lemma CopyStep(t: seq<Cell>, s: seq<Cell>, from: nat, argv: nat, out0: nat, marker: bool)
    requires out0 <= from <= argv < |s| && CopiedSoFar(t, s, from, argv, out0, marker)
    ensures var out := out0 + (argv - from);
            CopiedSoFar(t[out := Copied(s[argv], marker)], s, from, argv + 1, out0, marker)
  {
  }

  lemma CopyEnd(t: seq<Cell>, s: seq<Cell>, from: nat, to: nat, out0: nat, marker: bool)
    requires out0 <= from <= to < |s| && CopiedSoFar(t, s, from, to, out0, marker)
    ensures Laid(t[out0 + (to - from) := Null], s, from, to, out0, marker, false)
  {
  }

  /** The loop before cell `argv`, or behind the list when there is no more. */
  ghost predicate Copying(t: seq<Cell>, s: seq<Cell>, from: nat, to: nat, argv: nat, out0: nat, marker: bool,
                          more: bool, found: bool)
    requires out0 <= from <= to < |s|
  {
    && from <= argv && (if more then argv <= to else argv == to + 1)
    && (if more then CopiedSoFar(t, s, from, argv, out0, marker) else Laid(t, s, from, to, out0, marker, false))
    && found == (marker && HasMarker(s, from, if more then argv else to))
  }

  /** One turn: the cell is copied, or a NULL in its place ends the list. */
  lemma CopyTurn(t: seq<Cell>, s: seq<Cell>, from: nat, to: nat, argv: nat, out0: nat, marker: bool, wait: bool,
                 found: bool, arg: Cell, isMarker: bool)
    requires out0 <= from && StopsAt(s, from, to, wait) && Copying(t, s, from, to, argv, out0, marker, true, found)
    requires arg == if Ends(s[argv], wait) then Null else Copied(s[argv], marker)
    requires isMarker == (marker && !Ends(s[argv], wait) && Reads(s[argv], MARKER))
    ensures var out := out0 + (argv - from);
            out < |t| && (arg != Null <==> argv < to)
            && Copying(t[out := arg], s, from, to, argv + 1, out0, marker, arg != Null, found || isMarker)
  {
    if argv < to {
      CopyStep(t, s, from, argv, out0, marker);
    } else {
      CopyEnd(t, s, from, to, out0, marker);
    }
  }

  /** The copying loop, from the cell behind a skipped `--` on. */
  method CopyArguments(a: array<Cell>, from: nat, out0: nat, marker: bool, wait: bool, ghost to: nat)
    returns (argv: nat, out: nat, found: bool)
    requires out0 <= from && StopsAt(a[..], from, to, wait)
    modifies a
    ensures argv == to + 1 && out == out0 + (to - from) + 1
    ensures Laid(a[..], old(a[..]), from, to, out0, marker, false)
    ensures found == (marker && HasMarker(old(a[..]), from, to))
  {
    ghost var s := a[..];
    argv, out, found := from, out0, false;
    var more := true;
    while more
      invariant Copying(a[..], s, from, to, argv, out0, marker, more, found)
      invariant out - out0 == argv - from
      decreases more, to - argv
    {
      ghost var t := a[..];
      assert a[argv] == s[argv];
      var arg, isMarker := CopyCell(a[argv], marker, wait);
      CopyTurn(t, s, from, to, argv, out0, marker, wait, found, arg, isMarker);
      found := found || isMarker;
      more := arg != Null;
      a[out] := arg;
      assert a[..] == t[out := arg];
      out := out + 1;
      argv := argv + 1;
    }
  }

  /** The end of takeArguments: a marker takes the place of the final NULL. */
  method AddMarker(a: array<Cell>, last: nat, ghost s: seq<Cell>, ghost from: nat, ghost to: nat, ghost out0: nat)
    requires from <= to < |s| && out0 < from && last == out0 + (to - from)
    requires Laid(a[..], s, from, to, out0, true, false)
    modifies a
    ensures Laid(a[..], s, from, to, out0, true, true)
  {
    ghost var t := a[..];
    MarkerAdded(t, s, from, to, out0);
    a[last] := Marker;
    a[last + 1] := Null;
    assert a[..] == t[last := Marker][last + 1 := Null];
  }

  /**
   takeArguments: the list is written from `out0` on into the cells already read, so
   the write index never passes the read index.
   */
  method TakeArguments(a: array<Cell>, argv0: nat, out0: nat, marker: bool, wait: bool, ghost to: nat)
    returns (argv: nat, out: nat, ghost added: bool)
    requires argv0 < a.Length && out0 <= argv0 && (marker ==> out0 < argv0)
    requires StopsAt(a[..], StartAt(a[..], argv0), to, wait)
    modifies a
    ensures var s := old(a[..]); var from := StartAt(s, argv0);
            && added == (marker && !HasMarker(s, from, to))
            && Laid(a[..], s, from, to, out0, marker, added)
            && argv == to + 1 && out == out0 + ListLength(from, to, added) + 1
  {
    var from := argv0;
    if a[argv0] != Null && Reads(a[argv0], DASHES) {
      from := from + 1;
    }
    argv, out, added := TakeFrom(a, from, out0, marker, wait, to);
  }

  /** Behind a skipped `--`. */
  method TakeFrom(a: array<Cell>, from: nat, out0: nat, marker: bool, wait: bool, ghost to: nat)
    returns (argv: nat, out: nat, ghost added: bool)
    requires out0 <= from && (marker ==> out0 < from) && StopsAt(a[..], from, to, wait)
    modifies a
    ensures added == (marker && !HasMarker(old(a[..]), from, to))
    ensures Laid(a[..], old(a[..]), from, to, out0, marker, added)
    ensures argv == to + 1 && out == out0 + ListLength(from, to, added) + 1
  {
    ghost var s := a[..];
    var found;
    argv, out, found := CopyArguments(a, from, out0, marker, wait, to);
    added := marker && !found;
    if marker && !found {
      AddMarker(a, out - 1, s, from, to, out0);
      out := out + 1;
    }
  }

  // ---------- the whole command line ----------

  /** From `at` on, the cells are `args` and a NULL. */
  predicate Holds(s: seq<Cell>, at: nat, args: seq<string>) {
    && at + |args| < |s| && s[at + |args|] == Null
    && forall i | at <= i < at + |args| :: s[i] == Str(args[i - at])
  }

  function SkipDashes(args: seq<string>): seq<string> {
    if args != [] && args[0] == DASHES then args[1..] else args
  }

  function DashesAt(args: seq<string>): (k: nat)
    ensures k <= |args| && (k < |args| ==> args[k] == DASHES)
    ensures forall i | 0 <= i < k :: args[i] != DASHES
  {
    if args == [] || args[0] == DASHES then 0 else 1 + DashesAt(args[1..])
  }

  /** What the user means: `[--] command... -- [--] value...` */
  function CommandOf(args: seq<string>): seq<string> {
    var body := SkipDashes(args);
    body[..DashesAt(body)]
  }

  predicate HasSeparator(args: seq<string>) {
    var body := SkipDashes(args);
    DashesAt(body) < |body|
  }

  function ValuesOf(args: seq<string>): seq<string>
    requires HasSeparator(args)
  {
    var body := SkipDashes(args);
    SkipDashes(body[DashesAt(body) + 1..])
  }

  lemma {:induction false} DashesBehind(command: seq<string>, rest: seq<string>)
    requires "--" !in command
    ensures DashesAt(command + (["--"] + rest)) == |command| && DashesAt(command) == |command|
    decreases |command|
  {
    if command == [] {
      assert [] + (["--"] + rest) == ["--"] + rest;
    } else {
      assert command[0] in command && forall arg | arg in command[1..] :: arg in command;
      assert (command + (["--"] + rest))[1..] == command[1..] + (["--"] + rest);
      DashesBehind(command[1..], rest);
    }
  }

  /**
   A command and values behind `--` are told apart; one more `--` in front of either is
   skipped, and the one in front of the command may be left out unless that is empty.
   */
  lemma ArgumentsSplit(command: seq<string>, vals: seq<string>, args: seq<string>)
    requires "--" !in command
    requires var rest := command + (["--"] + vals); args == ["--"] + rest || (command != [] && args == rest)
    ensures HasSeparator(args) && CommandOf(args) == command
    ensures ValuesOf(args) == if vals != [] && vals[0] == "--" then vals[1..] else vals
  {
    var rest := command + (["--"] + vals);
    DashesBehind(command, vals);
    assert command != [] ==> rest[0] == command[0] && command[0] in command;
    assert (["--"] + rest)[1..] == rest;
    assert SkipDashes(args) == rest;
    assert rest[..|command|] == command && rest[|command| + 1..] == vals;
  }

  /** Without `--` behind the command there are no values. */
  lemma NoSeparator(command: seq<string>)
    requires "--" !in command
    ensures !HasSeparator(command) && !HasSeparator(["--"] + command)
  {
    DashesBehind(command, []);
    assert command != [] ==> command[0] in command;
    assert (["--"] + command)[1..] == command;
  }

  function TemplateLength(command: seq<string>): nat {
    |command| + if MARKER in command then 0 else 1
  }

  /** The first cells are the command with its marker arguments replaced, and a marker added if it has none. */
  predicate IsTemplate(s: seq<Cell>, command: seq<string>) {
    && TemplateLength(command) < |s| && s[TemplateLength(command)] == Null
    && forall i | 0 <= i < TemplateLength(command) ::
         s[i] == if i < |command| && command[i] != MARKER then Str(command[i]) else Marker
  }

  lemma HoldsBody(s: seq<Cell>, at: nat, args: seq<string>)
    requires Holds(s, at, args)
    ensures Holds(s, StartAt(s, at), SkipDashes(args)) && at <= StartAt(s, at)
  {
    assert args != [] ==> s[at] == Str(args[0]);
  }

  /** In a tail of argv, the list that waits for `--` ends at cell `k` of `body`. */
  lemma CommandRange(s: seq<Cell>, from: nat, body: seq<string>, k: nat)
    requires Holds(s, from, body) && k < |body| && body[k] == DASHES && forall i | 0 <= i < k :: body[i] != DASHES
    ensures StopsAt(s, from, from + k, true) && Holds(s, from + k + 1, body[k + 1..])
    ensures forall i | from <= i < from + k :: s[i] == Str(body[..k][i - from])
    ensures HasMarker(s, from, from + k) <==> MARKER in body[..k]
  {
    assert forall i | from <= i <= from + k :: s[i] == Str(body[i - from]);
    MarkerRange(s, from, body[..k]);
  }

  lemma MarkerRange(s: seq<Cell>, from: nat, command: seq<string>)
    requires from + |command| <= |s| && forall i | from <= i < from + |command| :: s[i] == Str(command[i - from])
    ensures HasMarker(s, from, from + |command|) <==> MARKER in command
  {
    if MARKER in command {
      var i :| 0 <= i < |command| && command[i] == MARKER;
      assert Reads(s[from + i], MARKER);
    }
  }

  lemma CommandLaid(t: seq<Cell>, s: seq<Cell>, from: nat, to: nat, command: seq<string>)
    requires from <= to < |s| && |command| == to - from
    requires forall i | from <= i < to :: s[i] == Str(command[i - from])
    requires Laid(t, s, from, to, 0, true, MARKER !in command)
    ensures IsTemplate(t, command) && ListLength(from, to, MARKER !in command) == TemplateLength(command)
  {
    forall i | 0 <= i < |command|
      ensures t[i] == if command[i] != MARKER then Str(command[i]) else Marker
    {
      assert s[i + from] == Str(command[i]);
    }
  }

  lemma ValuesLaid(u: seq<Cell>, t: seq<Cell>, from: nat, to: nat, values: nat, vals: seq<string>, command: seq<string>)
    requires from <= to < |t| && |vals| == to - from && values <= from
    requires Holds(t, from, vals) && Laid(u, t, from, to, values, false, false)
    requires IsTemplate(t, command) && TemplateLength(command) < values
    ensures IsTemplate(u, command) && Holds(u, values, vals)
  {
    forall i | values <= i < values + |vals|
      ensures u[i] == Str(vals[i - values])
    {
      assert t[i + (from - values)] == Str(vals[i - values]);
    }
  }

  lemma UnreadHolds(t: seq<Cell>, s: seq<Cell>, from: nat, to: nat, marker: bool, added: bool, rest: seq<string>)
    requires from <= to < |s| && Laid(t, s, from, to, 0, marker, added) && Holds(s, to + 1, rest)
    ensures Holds(t, to + 1, rest)
  {
  }

  lemma CommandStored(t: seq<Cell>, s: seq<Cell>, from: nat, body: seq<string>, k: nat, added: bool)
    requires Holds(s, from, body) && k < |body| && body[k] == DASHES && forall i | 0 <= i < k :: body[i] != DASHES
    requires added == !HasMarker(s, from, from + k) && Laid(t, s, from, from + k, 0, true, added)
    ensures IsTemplate(t, body[..k]) && ListLength(from, from + k, added) == TemplateLength(body[..k])
    ensures Holds(t, from + k + 1, body[k + 1..])
  {
    var command := body[..k];
    assert IsTemplate(t, command) && ListLength(from, from + k, added) == TemplateLength(command) by {
      CommandRange(s, from, body, k);
      CommandLaid(t, s, from, from + k, command);
    }
    assert Holds(s, from + k + 1, body[k + 1..]) by {
      CommandRange(s, from, body, k);
    }
    UnreadHolds(t, s, from, from + k, true, added, body[k + 1..]);
  }

  /**
   The tail of parseArgs: `optind` arguments, the program name first, have been
   consumed.  The result is 1 exactly when there are no values; the complaint about
   a missing command can never be made, because a marker has been added.
   */
  method ParseTail(a: array<Cell>, optind: nat, ghost args: seq<string>) returns (rc: int, command: nat, values: nat)
    requires 1 <= optind && Holds(a[..], optind, args) && HasSeparator(args)
    modifies a
    ensures command == 0 && rc == if ValuesOf(args) == [] then 1 else 0
    ensures IsTemplate(a[..], CommandOf(args)) && Holds(a[..], values, ValuesOf(args))
    ensures values == TemplateLength(CommandOf(args)) + 1
  {
    ghost var s, body := a[..], SkipDashes(args);
    ghost var k, from := DashesAt(body), StartAt(s, optind);
    HoldsBody(s, optind, args);
    command := 0;
    var argv, out := SplitCommand(a, optind, body, k);
    if a[command] == Null {
      assert false;
    }
    values := out;
    argv, out := SplitValues(a, argv, values, body[..k], body[k + 1..]);
    rc := if a[values] == Null then 1 else 0;
  }

  /** The first use of takeArguments in parseArgs. */
  method SplitCommand(a: array<Cell>, optind: nat, ghost body: seq<string>, ghost k: nat) returns (argv: nat, out: nat)
    requires 1 <= optind < a.Length && Holds(a[..], StartAt(a[..], optind), body)
    requires k == DashesAt(body) < |body|
    modifies a
    ensures IsTemplate(a[..], body[..k]) && out == TemplateLength(body[..k]) + 1 <= argv
    ensures Holds(a[..], argv, body[k + 1..])
  {
    ghost var s := a[..];
    ghost var from := StartAt(s, optind);
    CommandStops(s, from, body, k);
    ghost var added;
    argv, out, added := TakeArguments(a, optind, 0, true, true, from + k);
    CommandStored(a[..], s, from, body, k, added);
  }

  lemma CommandStops(s: seq<Cell>, from: nat, body: seq<string>, k: nat)
    requires Holds(s, from, body) && k == DashesAt(body) < |body|
    ensures StopsAt(s, from, from + k, true)
  {
    CommandRange(s, from, body, k);
  }

  /** Where the first list ends: at the separator, or at the NULL that ends the array. */
  lemma FirstListEnds(s: seq<Cell>, optind: nat, args: seq<string>) returns (to: nat)
    requires Holds(s, optind, args) && |s| == optind + |args| + 1
    ensures StopsAt(s, StartAt(s, optind), to, true) && (to + 1 < |s| <==> HasSeparator(args))
  {
    var body, from := SkipDashes(args), StartAt(s, optind);
    HoldsBody(s, optind, args);
    assert from + |body| + 1 == |s| by {
      assert args != [] ==> s[optind] == Str(args[0]);
    }
    to := from + DashesAt(body);
    assert forall i | from <= i < from + |body| :: s[i] == Str(body[i - from]);
  }

  /** The first use again: it leaves a cell to read if and only if there is a separator. */
  method TakeFirst(a: array<Cell>, optind: nat, ghost args: seq<string>) returns (argv: nat)
    requires 1 <= optind && Holds(a[..], optind, args) && a.Length == optind + |args| + 1
    modifies a
    ensures argv <= a.Length && (argv < a.Length <==> HasSeparator(args))
  {
    ghost var to := FirstListEnds(a[..], optind, args);
    ghost var added;
    var out;
    argv, out, added := TakeArguments(a, optind, 0, true, true, to);
  }

  /** The second use of takeArguments in parseArgs. */
  method SplitValues(a: array<Cell>, argv0: nat, values: nat, ghost command: seq<string>, ghost rest: seq<string>)
    returns (argv: nat, out: nat)
    requires Holds(a[..], argv0, rest) && IsTemplate(a[..], command) && TemplateLength(command) < values <= argv0
    modifies a
    ensures IsTemplate(a[..], command) && Holds(a[..], values, SkipDashes(rest))
  {
    ghost var t := a[..];
    ghost var vals, from := SkipDashes(rest), StartAt(t, argv0);
    HoldsBody(t, argv0, rest);
    ghost var added;
    argv, out, added := TakeArguments(a, argv0, values, false, false, from + |vals|);
    ValuesLaid(a[..], t, from, from + |vals|, values, vals, command);
  }

  // ---------- the child ----------

  /** The first cells are the command to execute for `value`: every marker is the value, and there is one at least. */
  predicate IsChildCommand(s: seq<Cell>, command: seq<string>, value: string) {
    && TemplateLength(command) < |s| && s[TemplateLength(command)] == Null
    && forall i | 0 <= i < TemplateLength(command) ::
         s[i] == Str(if i < |command| && command[i] != MARKER then command[i] else value)
  }

  /** The substitution loop of run, on the child's copy of the array. */
  method Substitute(a: array<Cell>, value: string, ghost command: seq<string>)
    requires IsTemplate(a[..], command)
    modifies a
    ensures IsChildCommand(a[..], command, value)
    ensures forall i | TemplateLength(command) <= i < a.Length :: a[i] == old(a[i])
  {
    var cmd := 0;
    ghost var s := a[..];
    ghost var n := TemplateLength(command);
    while a[cmd] != Null
      invariant cmd <= n
      invariant forall i | cmd <= i < a.Length :: a[i] == s[i]
      invariant forall i | 0 <= i < cmd ::
                  a[i] == Str(if i < |command| && command[i] != MARKER then command[i] else value)
      decreases n - cmd
    {
      assert s[n] == Null;
      if a[cmd] == Marker {
        a[cmd] := Str(value);
      }
      cmd := cmd + 1;
    }
  }

  /** The child runs the command with its value for each `{+}`, or behind it if there is none. */
  lemma ChildRuns(s: seq<Cell>, command: seq<string>, value: string)
    ensures IsChildCommand(s, command, value) <==>
            && |s| > |command| && (forall i | 0 <= i < |command| ::
                 s[i] == Str(if command[i] == "{+}" then value else command[i]))
            && (if "{+}" in command then s[|command|] == Null
                else |s| > |command| + 1 && s[|command|] == Str(value) && s[|command| + 1] == Null)
  {
    if IsChildCommand(s, command, value) {
      assert "{+}" !in command ==> s[|command|] == Str(value);
    }
  }
}
