/**
 Command lines of libmpdclient.c: quoting of arguments, the search builder, and
 the lengths computed for the buffers that snprintf fills.
 */
module MpdCommands {
  import opened Common
  import opened MpdWire
  import opened MpdProtocol
  import opened MpdConnection

  // ---------- quoting ----------

  predicate NeedsEscape(c: char) {
    c == '"' || c == '\\'
  }

  function EscapeChar(c: char): string {
    if NeedsEscape(c) then ['\\', c] else [c]
  }

  function Escape(s: string): (r: string)
    ensures |s| <= |r| <= 2 * |s|
  {
    if s == "" then "" else EscapeChar(s[0]) + Escape(s[1..])
  }

  /** What a reader of quoted text makes of it: a backslash protects the next character. */
  function Unescape(s: string): string {
    if s == "" then ""
    else if s[0] == '\\' && |s| > 1 then [s[1]] + Unescape(s[2..])
    else [s[0]] + Unescape(s[1..])
  }

  lemma {:induction false} UnescapeEscape(s: string)
    ensures Unescape(Escape(s)) == s
  {
    if s != "" {
      UnescapeEscape(s[1..]);
      var e := Escape(s);
      if NeedsEscape(s[0]) {
        assert e[2..] == Escape(s[1..]);
      } else {
        assert e[1..] == Escape(s[1..]);
      }
    }
  }

  lemma {:induction false} EscapeJoins(s: string, t: string)
    ensures Escape(s + t) == Escape(s) + Escape(t)
  {
    if s == "" {
      assert s + t == t;
    } else {
      assert (s + t)[1..] == s[1..] + t;
      EscapeJoins(s[1..], t);
      Associative(EscapeChar(s[0]), Escape(s[1..]), Escape(t));
    }
  }

  lemma {:induction false} EscapePlain(s: string)
    requires '"' !in s && '\\' !in s
    ensures Escape(s) == s
  {
    if s != "" {
      assert s[0] in s && forall c | c in s[1..] :: c in s;
      EscapePlain(s[1..]);
    }
  }

  /** Nothing but quotes and backslashes is changed, and these get one backslash. */
  lemma EscapeMarks(s: string, c: char, t: string)
    requires '"' !in s && '\\' !in s && (c == '"' || c == '\\')
    ensures Escape(s + ([c] + t)) == s + (['\\', c] + Escape(t))
  {
    EscapePlain(s);
    EscapeJoins(s, [c] + t);
    assert ([c] + t)[1..] == t;
  }

  /** One turn of the loop: `ch` and, if it needs one, a backslash. */
  method PutEscaped(ret: array<char>, rc0: nat, ch: char) returns (rc: nat)
    requires rc0 + 1 < ret.Length || (rc0 + 1 == ret.Length && !NeedsEscape(ch))
    modifies ret
    ensures rc == rc0 + |EscapeChar(ch)| && ret[..rc] == old(ret[..rc0]) + EscapeChar(ch)
  {
    rc := rc0;
    if NeedsEscape(ch) {
      ret[rc] := '\\';
      rc := rc + 1;
    }
    ret[rc] := ch;
    rc := rc + 1;
  }

  /** What stands in the copy after `c` turns, the last of which is for the NUL. */
  function Sanitized(arg: string, c: nat): string
    requires c <= |arg| + 1
  {
    if c <= |arg| then Escape(arg[..c]) else Escape(arg) + [NUL]
  }

  lemma SanitizedStep(arg: string, c: nat, ch: char)
    requires c <= |arg| && ch == if c < |arg| then arg[c] else NUL
    ensures Sanitized(arg, c + 1) == Sanitized(arg, c) + EscapeChar(ch)
    ensures |Sanitized(arg, c)| <= 2 * c && |EscapeChar(ch)| <= if c < |arg| then 2 else 1
  {
    if c < |arg| {
      EscapeJoins(arg[..c], [ch]);
      assert arg[..c + 1] == arg[..c] + [ch] && Escape([ch]) == EscapeChar(ch);
    } else {
      assert arg[..c] == arg;
    }
  }

  /** mpd_sanitizeArg: every write, the final NUL included, stays inside the allocation. */
  method SanitizeArg(arg: string) returns (ret: array<char>, len: nat)
    requires NUL !in arg
    ensures fresh(ret) && ret.Length == 2 * |arg| + 1
    ensures len < ret.Length && ret[..len] == Escape(arg) && ret[len] == NUL
  {
    ret := new char[2 * |arg| + 1];
    var c: nat, rc: nat := 0, 0;
    for i := |arg| + 1 downto 0
      invariant c == |arg| + 1 - i
      invariant rc <= ret.Length && ret[..rc] == Sanitized(arg, c)
    {
      var ch := if c < |arg| then arg[c] else NUL;
      SanitizedStep(arg, c, ch);
      rc := PutEscaped(ret, rc, ch);
      c := c + 1;
    }
    len := rc - 1;
    assert ret[..rc][..len] == Escape(arg) && ret[..rc][len] == NUL;
  }

  // ---------- the search builder ----------

  const TAG_ITEM_KEYS := ["Artist", "Album", "Title", "Track", "Name", "Genre", "Date",
                          "Composer", "Performer", "Comment", "Disc", "Filename", "Any"]

  function Lower(c: char): char {
    if 'A' <= c <= 'Z' then c + 'a' - 'A' else c
  }

  predicate IsType(t: int) {
    0 <= t < |TAG_ITEM_KEYS|
  }

  /** `mpdTagItemKeys[t]` */
  function Key(t: int): (key: string)
    requires IsType(t)
    ensures key != "" && forall c | c in key :: 'A' <= c <= 'z'
  {
    TAG_ITEM_KEYS[t]
  }

  /** `%c%s` of tolower(key[0]) and key + 1 */
  function Uncapitalized(key: string): string
    requires key != ""
  {
    [Lower(key[0])] + key[1..]
  }

  function TypeName(t: int): string
    requires IsType(t)
  {
    Uncapitalized(Key(t))
  }

  /** The names of the types on the wire. */
  lemma TypeNames()
    ensures |TAG_ITEM_KEYS| == 13
    ensures TypeName(0) == "artist" && TypeName(1) == "album" && TypeName(2) == "title" && TypeName(3) == "track"
    ensures TypeName(4) == "name" && TypeName(5) == "genre" && TypeName(6) == "date"
  {
  }

  lemma MoreTypeNames()
    ensures TypeName(7) == "composer" && TypeName(8) == "performer" && TypeName(9) == "comment"
    ensures TypeName(10) == "disc" && TypeName(11) == "filename" && TypeName(12) == "any"
  {
  }

  /** What snprintf leaves in a buffer of `len` bytes, without the NUL. */
  function Snprintf(len: nat, text: string): string
    requires 0 < len
  {
    if |text| < len then text else text[..len - 1]
  }

  datatype Constraint = Constraint(key: int, name: string)

  function Clause(c: Constraint): string
    requires IsType(c.key)
  {
    " " + TypeName(c.key) + " \"" + Escape(c.name) + "\""
  }

  function Clauses(cs: seq<Constraint>): string
    requires forall c | c in cs :: IsType(c.key)
  {
    if cs == [] then "" else Clause(cs[0]) + Clauses(cs[1..])
  }

  lemma {:induction false} ClausesAppend(cs: seq<Constraint>, c: Constraint)
    requires forall d | d in cs + [c] :: IsType(d.key)
    ensures Clauses(cs + [c]) == Clauses(cs) + Clause(c)
  {
    if cs == [] {
      assert cs + [c] == [c];
    } else {
      assert cs[0] in cs + [c];
      assert (cs + [c])[1..] == cs[1..] + [c];
      ClausesAppend(cs[1..], c);
    }
  }

  lemma RequestAppend(words: seq<string>, cs: seq<Constraint>, c: Constraint)
    requires forall d | d in cs + [c] :: IsType(d.key)
    ensures Start(words) + Clauses(cs) + Clause(c) == Start(words) + Clauses(cs + [c])
  {
    ClausesAppend(cs, c);
  }

  /** The words a search can start with, as one text. */
  function Start(words: seq<string>): string {
    if words == [] then "" else if |words| == 1 then words[0] else words[0] + " " + Start(words[1..])
  }

  lemma FieldStart(name: string)
    ensures Start(["list", name]) + Clauses([]) == "list " + name
  {
    assert ["list", name][1..] == [name];
    assert "list" + " " == "list ";
  }

  /** The parts of a request as they go out, for a name without quotes and backslashes. */
  lemma PlainRequest(name: string)
    requires '"' !in name && '\\' !in name
    ensures Start(["search"]) == "search" && Start(["list", "album"]) == "list album"
    ensures Clause(Constraint(0, name)) == " artist \"" + name + "\""
  {
    EscapePlain(name);
    assert TypeName(0) == "artist";
    assert " " + "artist" + " \"" == " artist \"";
    assert ["list", "album"][1..] == ["album"] && "list" + " " + "album" == "list album";
  }

  /** The `request` field of a connection and the functions that fill it. */
  class Search {
    const conn: Connection
    var request: Option<string>
    ghost var words: seq<string>
    ghost var constraints: seq<Constraint>

    ghost predicate Valid()
      reads this
    {
      && (forall c | c in constraints :: IsType(c.key))
      && (request.Some? ==> request.value == Start(words) + Clauses(constraints) && IsStart(words))
    }

    constructor (conn: Connection)
      ensures Valid() && this.conn == conn && request == None
    {
      this.conn, request := conn, None;
      words, constraints := [], [];
    }

    /** The three functions that start a search with a fixed verb. */
    method StartWith(verb: string)
      requires Valid() && Bare(verb)
      modifies this, conn`error
      ensures Valid()
      ensures old(request).Some? ==>
                conn.error == 1 && request == old(request) && words == old(words) && constraints == old(constraints)
      ensures old(request).None? ==>
                conn.error == old(conn.error) && request == Some(verb) && words == [verb] && constraints == []
    {
      if request.Some? {
        conn.error := 1;
        return;
      }
      request := Some(verb);
      words, constraints := [verb], [];
      assert verb + "" == verb;
    }

    /** mpd_startSearch */
    method StartSearch(exact: bool)
      requires Valid()
      modifies this, conn`error
      ensures Valid()
      ensures old(request).Some? ==>
                conn.error == 1 && request == old(request) && words == old(words) && constraints == old(constraints)
      ensures old(request).None? ==>
                request == Some(if exact then "find" else "search") && words == [request.value] && constraints == []
    {
      StartWith(if exact then "find" else "search");
    }

    /** mpd_startFieldSearch */
    method StartFieldSearch(key: int)
      requires Valid()
      modifies this, conn`error
      ensures Valid()
      ensures old(request).Some? || !IsType(key) ==>
                conn.error == 1 && request == old(request) && words == old(words) && constraints == old(constraints)
      ensures old(request).None? && IsType(key) ==>
                request.Some? && words == ["list", TypeName(key)] && constraints == []
    {
      if request.Some? || !(0 <= key < |TAG_ITEM_KEYS|) {
        conn.error := 1;
        return;
      }
      var strtype := Key(key);
      TypeNameIsBare(key);
      var len := 5 + |strtype| + 1;
      request := Some(Snprintf(len, "list " + Uncapitalized(strtype)));
      words, constraints := ["list", TypeName(key)], [];
      FieldStart(TypeName(key));
    }

    /** mpd_addConstraintSearch */
    method AddConstraintSearch(key: int, name: Option<string>)
      requires Valid() && (name.Some? ==> NUL !in name.value)
      modifies this, conn`error
      ensures Valid() && words == old(words)
      ensures old(request).None? || !IsType(key) || name.None? ==>
                conn.error == 1 && request == old(request) && constraints == old(constraints)
      ensures old(request).Some? && IsType(key) && name.Some? ==>
                conn.error == old(conn.error) && request.Some? &&
                constraints == old(constraints) + [Constraint(key, name.value)]
    {
      if request.None? || !(0 <= key < |TAG_ITEM_KEYS|) || name.None? {
        conn.error := 1;
        return;
      }
      var text := request.value;
      var strtype := Key(key);
      var arg, alen := SanitizeArg(name.value);
      var len := |text| + 1 + |strtype| + 2 + alen + 2;
      request := Some(Snprintf(len, text + (" " + Uncapitalized(strtype) + " \"" + arg[..alen] + "\"")));
      ghost var c := Constraint(key, name.value);
      RequestAppend(words, constraints, c);
      assert request.value == text + Clause(c);
      constraints := constraints + [c];
    }

    /** mpd_commitSearch: the request goes out as one command and is forgotten. */
    method CommitSearch() returns (ghost o: SendOutcome)
      requires Valid() && conn.Valid()
      modifies this`request, conn`error, conn`doneProcessing, conn`listOks, conn.sock`sends, conn.sock`wire
      ensures Valid() && conn.Valid() && request == None
      ensures old(request).None? ==> conn.error == 1 && conn.sock.wire == old(conn.sock.wire)
      ensures old(request).Some? ==> conn.ViewOf() == Execute(old(conn.ViewOf()), o)
      ensures old(request).Some? && !old(conn.doneProcessing) && old(conn.commandList) == 0 ==>
                conn.sock.wire == old(conn.sock.wire)
      ensures old(request).Some? && (old(conn.doneProcessing) || old(conn.commandList) != 0) ==>
                var command := Start(words) + Clauses(constraints) + "\n";
                var (outcome, n) := Sending(old(conn.sock.sends), |command|);
                o == outcome && conn.sock.wire == old(conn.sock.wire) + command[..n]
    {
      if request.None? {
        conn.error := 1;
        return SendFailed;
      }
      o := conn.ExecuteCommand(request.value + "\n");
      request := None;
    }
  }

  // ---------- what the server reads ----------

  /** Non-empty, without spaces, quotes or newlines. */
  predicate Bare(word: string) {
    word != "" && forall c | c in word :: c != ' ' && c != '"' && c != '\n'
  }

  predicate IsStart(words: seq<string>) {
    words != [] && forall w | w in words :: Bare(w)
  }

  lemma TypeNameIsBare(key: int)
    requires IsType(key)
    ensures Bare(TypeName(key)) && |TypeName(key)| == |Key(key)|
  {
    var k := Key(key);
    assert k[0] in k && forall c | c in k[1..] :: c in k;
    assert forall c | c in TypeName(key) :: 'A' <= c <= 'z';
  }

  /** The text of a quoted word and what follows its closing quote. */
  function Quoted(s: string): Option<(string, string)> {
    if s == "" then None
    else if s[0] == '"' then Some(("", s[1..]))
    else
      var n := if s[0] == '\\' && |s| > 1 then 1 else 0;
      match Quoted(s[n + 1..])
      case None => None
      case Some((word, rest)) => Some(([s[n]] + word, rest))
  }

  lemma {:induction false} QuotedRestIsShorter(s: string)
    requires Quoted(s).Some?
    ensures |Quoted(s).value.1| < |s|
  {
    if s[0] != '"' {
      QuotedRestIsShorter(s[(if s[0] == '\\' && |s| > 1 then 1 else 0) + 1..]);
    }
  }

  /** Words separated by spaces, each bare or quoted; None for an unclosed quote. */
  function Tokens(s: string): Option<seq<string>>
    decreases |s|
  {
    if s == "" then Some([])
    else if s[0] == ' ' then Tokens(s[1..])
    else if s[0] == '"' then
      var q := Quoted(s[1..]);
      if q.None? then None
      else
        QuotedRestIsShorter(s[1..]);
        Then(q.value.0, Tokens(q.value.1))
    else
      var k := First(s, ' ');
      Then(s[..k], Tokens(s[k..]))
  }

  function Then(word: string, rest: Option<seq<string>>): Option<seq<string>> {
    if rest.None? then None else Some([word] + rest.value)
  }

  lemma {:induction false} QuotedEscape(s: string, rest: string)
    ensures Quoted(Escape(s) + ("\"" + rest)) == Some((s, rest))
  {
    var close := "\"" + rest;
    if s == "" {
      assert Escape(s) + close == close;
      assert close[1..] == rest;
    } else {
      Associative(EscapeChar(s[0]), Escape(s[1..]), close);
      QuotedChar(s[0], Escape(s[1..]) + close);
      QuotedEscape(s[1..], rest);
      assert [s[0]] + s[1..] == s;
    }
  }

  lemma QuotedChar(c: char, more: string)
    ensures Quoted(EscapeChar(c) + more) ==
            match Quoted(more) case None => None case Some((word, rest)) => Some(([c] + word, rest))
  {
    var t := EscapeChar(c) + more;
    assert t[|EscapeChar(c)|..] == more;
  }

  lemma SpaceAfterBare(word: string, rest: string)
    requires ' ' !in word && (rest == "" || rest[0] == ' ')
    ensures First(word + rest, ' ') == |word|
  {
    assert forall i | 0 <= i < |word| :: (word + rest)[i] == word[i] && word[i] in word;
    assert rest != "" ==> (word + rest)[|word|] == ' ';
  }

  lemma BareToken(word: string, rest: string)
    requires Bare(word) && (rest == "" || rest[0] == ' ')
    ensures Tokens(word + rest) == Then(word, Tokens(rest))
  {
    SpaceAfterBare(word, rest);
    assert word[0] in word;
    assert (word + rest)[..|word|] == word && (word + rest)[|word|..] == rest;
  }

  lemma ClauseTokens(c: Constraint, rest: string)
    requires IsType(c.key)
    ensures Tokens(Clause(c) + rest) == Then(TypeName(c.key), Then(c.name, Tokens(rest)))
  {
    TypeNameIsBare(c.key);
    var quoted := Escape(c.name) + ("\"" + rest);
    var tail := " \"" + quoted;
    assert Clause(c) + rest == " " + (TypeName(c.key) + tail);
    assert (" " + (TypeName(c.key) + tail))[1..] == TypeName(c.key) + tail;
    BareToken(TypeName(c.key), tail);
    assert tail[1..] == "\"" + quoted && ("\"" + quoted)[1..] == quoted;
    QuotedEscape(c.name, rest);
  }

  function Fields(cs: seq<Constraint>): seq<string>
    requires forall c | c in cs :: IsType(c.key)
  {
    if cs == [] then [] else [TypeName(cs[0].key), cs[0].name] + Fields(cs[1..])
  }

  lemma {:induction false} ClausesTokens(cs: seq<Constraint>)
    requires forall c | c in cs :: IsType(c.key)
    ensures Tokens(Clauses(cs)) == Some(Fields(cs))
  {
    if cs != [] {
      ClauseTokens(cs[0], Clauses(cs[1..]));
      ClausesTokens(cs[1..]);
      var t, n, f := TypeName(cs[0].key), cs[0].name, Fields(cs[1..]);
      assert [t] + ([n] + f) == [t, n] + f;
    }
  }

  /** The server recovers the verb and every (type, name) pair, in order, whatever the names hold. */
  lemma {:induction false} RequestTokens(words: seq<string>, cs: seq<Constraint>)
    requires IsStart(words) && forall c | c in cs :: IsType(c.key)
    ensures Tokens(Start(words) + Clauses(cs)) == Some(words + Fields(cs))
    decreases |words|
  {
    assert words[0] in words && forall w | w in words[1..] :: w in words;
    if |words| == 1 {
      ClausesTokens(cs);
      assert cs != [] ==> Clauses(cs)[0] == Clause(cs[0])[0] == ' ';
      BareToken(words[0], Clauses(cs));
      assert words == [words[0]];
    } else {
      RequestTokens(words[1..], cs);
      var rest := Start(words[1..]) + Clauses(cs);
      NextWord(words[0], rest, words[1..] + Fields(cs));
      Associative(words[0], " ", Start(words[1..]));
      Associative(words[0], " " + Start(words[1..]), Clauses(cs));
      Associative(" ", Start(words[1..]), Clauses(cs));
      Associative([words[0]], words[1..], Fields(cs));
      assert [words[0]] + words[1..] == words;
    }
  }

  lemma NextWord(word: string, rest: string, tokens: seq<string>)
    requires Bare(word) && Tokens(rest) == Some(tokens)
    ensures Tokens(word + (" " + rest)) == Some([word] + tokens)
  {
    BareToken(word, " " + rest);
    assert (" " + rest)[1..] == rest;
  }

  lemma {:induction false} EscapeKeepsNewlines(s: string)
    ensures '\n' in Escape(s) <==> '\n' in s
  {
    if s != "" {
      EscapeKeepsNewlines(s[1..]);
      assert s == [s[0]] + s[1..];
    }
  }

  lemma ClauseNewline(c: Constraint)
    requires IsType(c.key)
    ensures '\n' in Clause(c) <==> '\n' in c.name
  {
    TypeNameIsBare(c.key);
    EscapeKeepsNewlines(c.name);
  }

  lemma {:induction false} ClausesNewlines(cs: seq<Constraint>)
    requires forall c | c in cs :: IsType(c.key)
    ensures '\n' !in Clauses(cs) <==> forall i | 0 <= i < |cs| :: '\n' !in cs[i].name
  {
    if cs != [] {
      ClauseNewline(cs[0]);
      ClausesNewlines(cs[1..]);
      assert forall i | 1 <= i < |cs| :: cs[i] == cs[1..][i - 1];
    }
  }

  lemma {:induction false} StartHasNoNewline(words: seq<string>)
    requires IsStart(words)
    ensures '\n' !in Start(words)
  {
    assert words[0] in words;
    if |words| > 1 {
      StartHasNoNewline(words[1..]);
    }
  }

  /** The request is a single protocol line exactly when no name holds a newline. */
  lemma RequestIsOneLine(words: seq<string>, cs: seq<Constraint>)
    requires IsStart(words) && forall c | c in cs :: IsType(c.key)
    ensures NewlineAt(Start(words) + Clauses(cs) + "\n") == |Start(words) + Clauses(cs)|
            <==> forall c | c in cs :: '\n' !in c.name
  {
    var text := Start(words) + Clauses(cs);
    var line := text + "\n";
    StartHasNoNewline(words);
    ClausesNewlines(cs);
    assert line[..|text|] == text;
    assert forall i | 0 <= i < |cs| :: cs[i] in cs;
    if '\n' !in text {
      NewlineAtUnique(line, |text|);
    }
  }

  // ---------- lengths of numbers ----------

  /** 2^(b-1) has at most (b+1)/3 digits. */
  lemma {:induction false} BitsToDigits(b: nat)
    requires 2 <= b
    ensures 0 < (b + 1) / 3 && Pow(2, b - 1) < Pow(10, (b + 1) / 3)
  {
    if b < 5 {
      assert Pow(2, 1) == 2 && Pow(2, 2) == 4 && Pow(2, 3) == 2 * Pow(2, 2) == 8;
      assert Pow(10, 1) == 10;
    } else {
      BitsToDigits(b - 3);
      assert Pow(2, b - 1) == 2 * Pow(2, b - 2) == 4 * Pow(2, b - 3) == 8 * Pow(2, b - 4);
      assert (b + 1) / 3 == (b - 3 + 1) / 3 + 1;
    }
  }

  /** INTLEN and LONGLONGLEN for an integer of `bits` bits. */
  function IntLen(bits: nat): nat {
    (bits + 1) / 3 + 1
  }

  lemma PrintFits(bits: nat, i: int)
    requires 2 <= bits && -Pow(2, bits - 1) <= i < Pow(2, bits - 1)
    ensures |Print(i)| <= IntLen(bits)
  {
    BitsToDigits(bits);
    DigitsLength(if i < 0 then -i else i, (bits + 1) / 3);
  }

  /** The buffers of the one-number and two-number commands are never too short. */
  lemma NumberCommandsFit(verb: string, bits: nat, i: int, j: int)
    requires 2 <= bits && -Pow(2, bits - 1) <= i < Pow(2, bits - 1) && -Pow(2, bits - 1) <= j < Pow(2, bits - 1)
    ensures var text := verb + " \"" + Print(i) + "\"\n";
            Snprintf(|verb| + 2 + IntLen(bits) + 3, text) == text
    ensures var text := verb + " \"" + Print(i) + "\" \"" + Print(j) + "\"\n";
            Snprintf(|verb| + 2 + IntLen(bits) + 3 + IntLen(bits) + 3, text) == text
  {
    PrintFits(bits, i);
    PrintFits(bits, j);
  }

  /** Nor are those of the commands with one or two quoted strings. */
  lemma StringCommandsFit(verb: string, s: string, t: string)
    ensures var text := verb + " \"" + Escape(s) + "\"\n";
            Snprintf(|verb| + 2 + |Escape(s)| + 3, text) == text
    ensures var text := verb + " \"" + Escape(s) + "\" \"" + Escape(t) + "\"\n";
            Snprintf(|verb| + 2 + |Escape(s)| + 3 + |Escape(t)| + 3, text) == text
    ensures var text := "list " + verb + " \"" + Escape(s) + "\"\n";
            Snprintf(|"list"| + 1 + |Escape(s)| + 2 + |verb| + 3, text) == text
  {
  }
}
