/**
 The line formatter of mpd-show.c: a recursive interpreter for `[ ] | & # %tag%`
 that writes into a growing buffer and takes text back by moving its offset.
 Song values are taken as decoded text.
 */
module ShowFormat {
  import opened Common

  /** Not one of the characters `#%|&[]` that end a run of copied text. */
  predicate Plain(c: char) {
    c != '#' && c != '%' && c != '|' && c != '&' && c != '[' && c != ']'
  }

  // ---------- tags ----------

  /** An absent key is a NULL field; `time` is -1 when the song has none. */
  datatype Song = Song(file: Option<string>, tags: map<string, string>, time: int)

  const SIMPLE_TAGS := {"artist", "title", "album", "track", "name", "date", "genre", "composer", "disc", "comment"}

  /** The index of the last `c`, or -1. */
  function Last(s: string, c: char): (k: int)
    ensures -1 <= k < |s|
    ensures k >= 0 ==> s[k] == c
    ensures forall i | k < i < |s| :: s[i] != c
  {
    if s == "" then -1
    else if s[|s| - 1] == c then |s| - 1
    else Last(s[..|s| - 1], c)
  }

  function Padded(i: int, fill: string): string {
    if |Print(i)| < 2 then fill + Print(i) else Print(i)
  }

  /** Division and remainder of C, which truncate toward zero. */
  function Quotient(a: int, b: int): int
    requires 0 < b
  {
    if a < 0 then -(-a / b) else a / b
  }

  /** `%2d:%02d` in a buffer of 16 */
  function Clock(time: int): string {
    var minutes := Quotient(time, 60);
    var text := Padded(minutes, " ") + ":" + Padded(time - 60 * minutes, "0");
    if |text| < 16 then text else text[..15]
  }

  function AfterFirstSlash(file: string): (r: nat)
    ensures r <= |file|
    ensures if '/' in file then 0 < r && file[r - 1] == '/' && '/' !in file[..r - 1] else r == 0
  {
    var slash := First(file, '/');
    if slash < |file| then slash + 1 else 0
  }

  /** The text of a tag other than `%Y%`; empty when the song does not have it. */
  function TagText(song: Song, name: string): string {
    if name in SIMPLE_TAGS then (if name in song.tags then song.tags[name] else "")
    else if name == "path" then (if song.file.Some? then song.file.value else "")
    else if name == "time" then (if song.time != -1 then Clock(song.time) else "")
    else if song.file.None? then ""
    else
      var file := song.file.value;
      if name == "file" then file[Last(file, '/') + 1..]
      else if name == "filenoext" || name == "pathnoext" then
        var base := AfterFirstSlash(file);
        var dot := base + First(file[base..], '.');
        file[if name == "pathnoext" then 0 else base..dot]
      else if name == "dir" then (if Last(file, '/') < 0 then "" else file[..Last(file, '/')])
      else ""
  }

  /** Directory and file make up the path. */
  lemma DirAndFile(song: Song, path: string)
    requires song.file == Some(path)
    ensures var dir, file := TagText(song, "dir"), TagText(song, "file");
            if '/' in path then dir + "/" + file == path && '/' !in file else dir == "" && file == path
  {
    var slash := Last(path, '/');
    var dir, file := TagText(song, "dir"), TagText(song, "file");
    assert file == path[slash + 1..] && dir == if slash < 0 then "" else path[..slash];
    SplitAtLast(path, slash);
  }

  lemma SplitAtLast(path: string, slash: int)
    requires -1 <= slash < |path| && (slash >= 0 ==> path[slash] == '/')
    requires forall i | slash < i < |path| :: path[i] != '/'
    ensures if '/' in path then 0 <= slash && path[..slash] + "/" + path[slash + 1..] == path
            else slash < 0 && path[slash + 1..] == path
    ensures '/' !in path[slash + 1..]
  {
  }

  /** The forms without extension end at the first dot of the part behind the first slash. */
  lemma WithoutExtension(song: Song, path: string)
    requires song.file == Some(path)
    ensures var shortPath, shortFile := TagText(song, "pathnoext"), TagText(song, "filenoext");
            var base := AfterFirstSlash(path);
            && base <= |shortPath| && shortPath <= path && shortFile == shortPath[base..] && '.' !in shortFile
            && (shortPath == path || path[|shortPath|] == '.')
  {
    var base := AfterFirstSlash(path);
    var dot := base + First(path[base..], '.');
    assert TagText(song, "pathnoext") == path[0..dot] && TagText(song, "filenoext") == path[base..dot];
    assert path[base..dot] == path[base..][..dot - base];
    assert dot < |path| ==> path[dot] == path[base..][dot - base];
  }

  /** What a tag contributes; None is `%Y%`, which prints nothing but counts as found. */
  type Tags = string -> Option<string>

  function TagsOf(song: Song): Tags {
    (name: string) => if name == "Y" then None else Some(TagText(song, name))
  }

  function TagOutput(tags: Tags, name: string): string {
    if tags(name).None? then "" else tags(name).value
  }

  predicate TagFound(tags: Tags, name: string) {
    tags(name) != Some("")
  }

  // ---------- scanning ----------

  function PlainEnd(fmt: string, p: nat): (q: nat)
    requires p <= |fmt|
    ensures p <= q <= |fmt| && (q < |fmt| ==> !Plain(fmt[q]))
    ensures forall i | p <= i < q :: Plain(fmt[i])
    decreases |fmt| - p
  {
    if p == |fmt| || !Plain(fmt[p]) then p else PlainEnd(fmt, p + 1)
  }

  /** Where a skipped alternative ends: at `&` or `|`, behind `]`, or at the end. */
  function SkipTo(fmt: string, p: nat): (q: nat)
    requires p <= |fmt|
    ensures p <= q <= |fmt|
    decreases |fmt| - p
  {
    if p == |fmt| then p
    else match fmt[p]
      case '[' => var q := FirstFrom(fmt, p, ']'); if q == |fmt| then q else SkipTo(fmt, q + 1)
      case '#' => if p + 1 < |fmt| then SkipTo(fmt, p + 2) else |fmt|
      case ']' => p + 1
      case '&' => p
      case '|' => p
      case _ => SkipTo(fmt, p + 1)
  }

  /** Read from `p` on, every `#` has a character to escape. */
  predicate Safe(fmt: string, p: nat)
    requires p <= |fmt|
    decreases |fmt| - p
  {
    if p == |fmt| then true
    else if fmt[p] == '#' then p + 1 < |fmt| && Safe(fmt, p + 2)
    else Safe(fmt, p + 1)
  }

  /** Reading stays safe from any later place that no `#` precedes. */
  lemma {:induction false} SafeLater(fmt: string, p: nat, q: nat)
    requires p < q <= |fmt| && Safe(fmt, p) && (fmt[q - 1] != '#' || q == |fmt|)
    ensures Safe(fmt, q)
    decreases |fmt| - p
  {
    if fmt[p] == '#' {
      if p + 2 < q {
        SafeLater(fmt, p + 2, q);
      }
    } else if p + 1 < q {
      SafeLater(fmt, p + 1, q);
    }
  }

  lemma {:induction false} SafeAfterSkip(fmt: string, p: nat)
    requires p <= |fmt| && Safe(fmt, p)
    ensures Safe(fmt, SkipTo(fmt, p))
    decreases |fmt| - p
  {
    if p < |fmt| {
      if fmt[p] == '[' {
        var q := FirstFrom(fmt, p, ']');
        if q < |fmt| {
          SafeLater(fmt, p, q + 1);
          SafeAfterSkip(fmt, q + 1);
        }
      } else if fmt[p] == '#' {
        SafeAfterSkip(fmt, p + 2);
      } else if fmt[p] != ']' && fmt[p] != '&' && fmt[p] != '|' {
        SafeAfterSkip(fmt, p + 1);
      }
    }
  }

  /**
   A skip that counts brackets: over whole groups, to `&`, `|` or the bracket that
   closes the group around it.  `open` brackets have been passed and not closed.
   */
  function DepthSkip(fmt: string, p: nat, open: nat): (q: nat)
    requires p <= |fmt|
    ensures p <= q <= |fmt|
    decreases |fmt| - p
  {
    if p == |fmt| then p
    else match fmt[p]
      case '[' => DepthSkip(fmt, p + 1, open + 1)
      case '#' => if p + 1 < |fmt| then DepthSkip(fmt, p + 2, open) else |fmt|
      case ']' => if open == 0 then p else DepthSkip(fmt, p + 1, open - 1)
      case c => if open == 0 && (c == '&' || c == '|') then p else DepthSkip(fmt, p + 1, open)
  }

  lemma {:induction false} SafeAfterDepthSkip(fmt: string, p: nat, open: nat)
    requires p <= |fmt| && Safe(fmt, p)
    ensures Safe(fmt, DepthSkip(fmt, p, open))
    decreases |fmt| - p
  {
    if p < |fmt| {
      match fmt[p]
      case '[' => SafeAfterDepthSkip(fmt, p + 1, open + 1);
      case '#' => SafeAfterDepthSkip(fmt, p + 2, open);
      case ']' => if open > 0 {
        SafeAfterDepthSkip(fmt, p + 1, open - 1);
      }
      case _ => SafeAfterDepthSkip(fmt, p + 1, open);
    }
  }

  /** How alternatives are skipped: the way the program does it, or counting brackets. */
  datatype Skip = AsCoded | ByDepth

  function SkipBy(skip: Skip, fmt: string, p: nat): (q: nat)
    requires p <= |fmt| && Safe(fmt, p)
    ensures p <= q <= |fmt| && Safe(fmt, q)
  {
    if skip.AsCoded? then SafeAfterSkip(fmt, p); SkipTo(fmt, p)
    else SafeAfterDepthSkip(fmt, p, 0); DepthSkip(fmt, p, 0)
  }

  function TrailingHashes(s: string): (n: nat)
    ensures n <= |s|
  {
    if s == "" || s[|s| - 1] != '#' then 0 else 1 + TrailingHashes(s[..|s| - 1])
  }

  lemma {:induction false} TrailingHashesOfTail(s: string)
    requires s != ""
    ensures TrailingHashes(s) ==
            TrailingHashes(s[1..]) + if TrailingHashes(s[1..]) == |s| - 1 && s[0] == '#' then 1 else 0
    decreases |s|
  {
    if |s| > 1 {
      TrailingHashesOfTail(s[..|s| - 1]);
      assert s[1..][..|s| - 2] == s[..|s| - 1][1..];
    }
  }

  /** A format is safe exactly when it does not end in a lone `#`. */
  lemma {:induction false} SafeIffNoLoneHash(fmt: string, p: nat)
    requires p <= |fmt|
    ensures Safe(fmt, p) <==> TrailingHashes(fmt[p..]) % 2 == 0
    decreases |fmt| - p
  {
    var s := fmt[p..];
    if s != "" {
      TrailingHashesOfTail(s);
      assert s[1..] == fmt[p + 1..];
      if s[0] != '#' {
        SafeIffNoLoneHash(fmt, p + 1);
      } else if |s| == 1 {
        assert s[1..] == "";
      } else {
        TrailingHashesOfTail(s[1..]);
        assert s[1..][1..] == fmt[p + 2..];
        SafeIffNoLoneHash(fmt, p + 2);
      }
    }
  }

  // ---------- the interpreter without a buffer ----------

  /** One construct either ends the group or moves on with new text and `found`. */
  datatype Move = End(text: string, next: nat) | Go(p: nat, acc: string, found: bool)

  /** The construct at `p`, when the group has produced `acc` so far. */
  function Construct(skip: Skip, fmt: string, tags: Tags, p: nat, acc: string, found: bool): (m: Move)
    requires p <= |fmt| && Safe(fmt, p)
    ensures m.End? ==> p <= m.next <= |fmt| && Safe(fmt, m.next)
    ensures m.Go? ==> p < m.p <= |fmt| && Safe(fmt, m.p)
    decreases |fmt| - p, 0
  {
    if p == |fmt| then End(acc, p)
    else match fmt[p]
      case '#' => Go(p + 2, acc + [fmt[p + 1]], found)
      case '|' =>
        if !found then Go(p + 1, "", false)
        else Go(SkipBy(skip, fmt, p + 1), acc, found)
      case '&' =>
        if !found then Go(SkipBy(skip, fmt, p + 1), acc, found)
        else Go(p + 1, acc, false)
      case '[' =>
        var (text, next) := Eval(skip, fmt, tags, p + 1, "", false);
        Go(next, acc + text, found || text != "")
      case ']' => End(if found then acc else "", p + 1)
      case '%' =>
        var q := FirstFrom(fmt, p + 1, '%');
        var next := if q < |fmt| then q + 1 else q;
        SafeLater(fmt, p, next);
        var name := fmt[p + 1..q];
        Go(next, acc + TagOutput(tags, name), found || TagFound(tags, name))
      case _ =>
        var q := PlainEnd(fmt, p + 1);
        SafeLater(fmt, p, q);
        Go(q, acc + fmt[p..q], found)
  }

  /** The text a group produces from `p` on, given what it has produced, and where it ends. */
  function Eval(skip: Skip, fmt: string, tags: Tags, p: nat, acc: string, found: bool): (r: (string, nat))
    requires p <= |fmt| && Safe(fmt, p)
    ensures p <= r.1 <= |fmt| && Safe(fmt, r.1)
    decreases |fmt| - p, 1
  {
    match Construct(skip, fmt, tags, p, acc, found)
    case End(text, next) => (text, next)
    case Go(q, more, f) => Eval(skip, fmt, tags, q, more, f)
  }

  /** What the whole format prints. */
  function Format(skip: Skip, fmt: string, tags: Tags): string
    requires Safe(fmt, 0)
  {
    Eval(skip, fmt, tags, 0, "", false).0
  }

  // ---------- the program ----------

  function CharAt(fmt: string, p: nat): char
    requires p <= |fmt|
  {
    if p < |fmt| then fmt[p] else NUL
  }

  /** skipBraces, called at a `[`: `!stack == 0` is `(!stack) == 0`. */
  method SkipBraces(fmt: string, start: nat) returns (p: nat)
    requires start < |fmt| && fmt[start] == '[' && NUL !in fmt
    ensures p == FirstFrom(fmt, start, ']')
  {
    var stack: int := 1;
    p := start;
    while true
      invariant start <= p <= |fmt| && FirstFrom(fmt, p, ']') == FirstFrom(fmt, start, ']')
      invariant if p == start then stack == 1 else stack >= 2
      decreases |fmt| - p
    {
      assert p < |fmt| ==> fmt[p] in fmt;
      var c := CharAt(fmt, p);
      if c == '[' {
        stack := stack + 1;
      } else if c == ']' {
        stack := stack - 1;
        var not := if stack == 0 then 1 else 0;
        if not == 0 {
          return;
        }
      } else if c == NUL {
        return;
      }
      p := p + 1;
    }
  }

  /** skipFormatting */
  method SkipFormatting(fmt: string, start: nat) returns (p: nat)
    requires start <= |fmt| && NUL !in fmt
    ensures p == SkipTo(fmt, start)
  {
    p := start;
    while true
      invariant start <= p <= |fmt| && SkipTo(fmt, p) == SkipTo(fmt, start)
      decreases |fmt| - p
    {
      assert p < |fmt| ==> fmt[p] in fmt;
      match CharAt(fmt, p) {
        case '[' =>
          p := SkipBraces(fmt, p);
          if p == |fmt| {
            return;
          }
        case '#' =>
          if p + 1 < |fmt| {
            p := p + 1;
          }
        case ']' =>
          p := p + 1;
          return;
        case '&' => return;
        case '|' => return;
        case c =>
          if c == NUL {
            return;
          }
      }
      p := p + 1;
    }
  }

  class Display {
    var line: array<char>

    constructor ()
      ensures fresh(line) && line.Length == 0
    {
      line := new char[0];
    }

    /** ensureCapacity: the capacity doubles from 32; the contents survive. */
    method EnsureCapacity(capacity: nat)
      modifies this`line
      ensures line == old(line) || fresh(line)
      ensures old(line).Length <= line.Length && capacity <= line.Length
      ensures line.Length == old(line.Length) || line.Length < 2 * capacity || line.Length == 32
      ensures line[..old(line).Length] == old(line[..])
    {
      var c := line.Length;
      if c >= capacity {
        return;
      }
      if c == 0 {
        c := 32;
      }
      while c < capacity
        invariant 0 < c && line.Length <= c
        invariant c <= line.Length || c < 2 * capacity || c == 32
      {
        c := c * 2;
      }
      var bigger := new char[c];
      forall i | 0 <= i < line.Length {
        bigger[i] := line[i];
      }
      assert bigger[..line.Length] == line[..];
      line := bigger;
    }

    /** appendW, which also stands for appendUTF on decoded text. */
    method AppendW(offset: nat, str: string) returns (end: nat)
      requires offset <= line.Length
      modifies this`line, line
      ensures line == old(line) || fresh(line)
      ensures end == offset + |str| <= line.Length
      ensures line[..end] == old(line[..offset]) + str
    {
      ghost var kept := line[..offset];
      EnsureCapacity(offset + |str|);
      assert line[..offset] == kept;
      forall i | 0 <= i < |str| {
        line[offset + i] := str[i];
      }
      end := offset + |str|;
      assert line[..offset] == kept && line[offset..end] == str;
      assert line[..end] == line[..offset] + line[offset..end];
    }

    /** The buffer holds `kept + acc` up to `off`. */
    ghost predicate Holds(off: nat, kept: string, acc: string)
      reads this, line
    {
      off == |kept| + |acc| <= line.Length && line[..off] == kept + acc
    }

    lemma TakeBack(off: nat, kept: string, acc: string)
      requires Holds(off, kept, acc)
      ensures Holds(|kept|, kept, "")
    {
      assert line[..|kept|] == line[..off][..|kept|];
    }

    method Emit(off: nat, str: string, ghost kept: string, ghost acc: string) returns (end: nat)
      requires Holds(off, kept, acc)
      modifies this`line, line
      ensures line == old(line) || fresh(line)
      ensures Holds(end, kept, acc + str)
    {
      end := AppendW(off, str);
      assert kept + acc + str == kept + (acc + str);
    }

    /** doFormatTag: `off - 1` is the mark of `%Y%`; at offset 0 it stands for the wrapped value. */
    method DoFormatTag(fmt: string, tags: Tags, start: nat, off: nat, ghost kept: string, ghost acc: string)
      returns (o: int, last: nat)
      requires start <= |fmt| && Holds(off, kept, acc)
      modifies this`line, line
      ensures line == old(line) || fresh(line)
      ensures var q := FirstFrom(fmt, start, '%'); var name := fmt[start..q];
              && last == (if q < |fmt| then q + 1 else q)
              && (o == off <==> !TagFound(tags, name))
              && (o + 1 == off <==> tags(name).None?) && off - 1 <= o
              && Holds(if o + 1 == off then off else o, kept, acc + TagOutput(tags, name))
    {
      var p := start;
      while p < |fmt| && fmt[p] != '%'
        invariant start <= p <= |fmt| && FirstFrom(fmt, p, '%') == FirstFrom(fmt, start, '%')
      {
        p := p + 1;
      }
      var name := fmt[start..p];
      last := if p < |fmt| then p + 1 else p;
      var value := tags(name);
      if value.None? {
        assert acc + "" == acc;
        return off - 1, last;
      }
      o := Emit(off, value.value, kept, acc);
    }

    /** The run of plain characters at `start`. */
    method CopyPlain(fmt: string, start: nat, off: nat, ghost kept: string, ghost acc: string)
      returns (end: nat, p: nat)
      requires start < |fmt| && Holds(off, kept, acc)
      modifies this`line, line
      ensures line == old(line) || fresh(line)
      ensures p == PlainEnd(fmt, start + 1) && Holds(end, kept, acc + fmt[start..p])
    {
      p := start + 1;
      while p < |fmt| && Plain(fmt[p])
        invariant start < p <= |fmt| && PlainEnd(fmt, p) == PlainEnd(fmt, start + 1)
      {
        p := p + 1;
      }
      end := Emit(off, fmt[start..p], kept, acc);
    }

    /** doFormat: whatever it writes and takes back, the text before `offset` is kept. */
    method DoFormat(fmt: string, tags: Tags, start: nat, offset: nat, ghost kept: string)
      returns (off: nat, last: nat)
      requires start <= |fmt| && Safe(fmt, start) && NUL !in fmt && Holds(offset, kept, "")
      modifies this`line, line
      ensures line == old(line) || fresh(line)
      ensures var (text, next) := Eval(AsCoded, fmt, tags, start, "", false);
              Holds(off, kept, text) && last == next
      decreases |fmt| - start, 1
    {
      var p, found, done := start, false, false;
      off, last := offset, start;
      ghost var acc := "";
      while !done
        invariant start <= p <= |fmt| && Safe(fmt, p)
        invariant line == old(line) || fresh(line)
        invariant Holds(off, kept, acc)
        invariant !done ==> Eval(AsCoded, fmt, tags, p, acc, found) == Eval(AsCoded, fmt, tags, start, "", false)
        invariant done ==> (acc, last) == Eval(AsCoded, fmt, tags, start, "", false)
        decreases !done, |fmt| - p
      {
        ghost var m := Construct(AsCoded, fmt, tags, p, acc, found);
        done, p, off, found := DoConstruct(fmt, tags, p, off, found, offset, kept, acc);
        if done {
          last := p;
        }
        acc := if m.End? then m.text else m.acc;
      }
    }

    /** The switch in the loop of doFormat. */
    method DoConstruct(fmt: string, tags: Tags, start: nat, pos: nat, found0: bool, offset: nat,
                       ghost kept: string, ghost acc: string)
      returns (done: bool, p: nat, off: nat, found: bool)
      requires start <= |fmt| && Safe(fmt, start) && NUL !in fmt && Holds(pos, kept, acc) && offset == |kept|
      modifies this`line, line
      ensures line == old(line) || fresh(line)
      ensures match Construct(AsCoded, fmt, tags, start, acc, found0)
              case End(text, next) => done && p == next && Holds(off, kept, text)
              case Go(q, more, f) => !done && p == q && found == f && Holds(off, kept, more)
      decreases |fmt| - start, 0
    {
      p, off, found, done := start, pos, found0, false;
      if p == |fmt| {
        done := true;
        return;
      }
      match fmt[p] {
        case '#' =>
          off := Emit(off, [fmt[p + 1]], kept, acc);
          p := p + 2;
        case '|' =>
          if !found {
            TakeBack(off, kept, acc);
            p, off := p + 1, offset;
          } else {
            p := SkipFormatting(fmt, p + 1);
          }
        case '&' =>
          if !found {
            p := SkipFormatting(fmt, p + 1);
          } else {
            p, found := p + 1, false;
          }
        case '[' =>
          var o, next := FormatGroup(fmt, tags, p + 1, off, kept, acc);
          found, off, p := found || o != off, o, next;
        case ']' =>
          if !found {
            TakeBack(off, kept, acc);
            off := offset;
          }
          p, done := p + 1, true;
        case '%' =>
          var o, next := DoFormatTag(fmt, tags, p + 1, off, kept, acc);
          found := found || o != off;
          off := if o + 1 == off then off else o;
          p := next;
        case _ =>
          off, p := CopyPlain(fmt, p, off, kept, acc);
      }
    }

    /** The recursive call of doFormat behind a `[`. */
    method FormatGroup(fmt: string, tags: Tags, start: nat, off: nat, ghost kept: string, ghost acc: string)
      returns (o: nat, last: nat)
      requires start <= |fmt| && Safe(fmt, start) && NUL !in fmt && Holds(off, kept, acc)
      modifies this`line, line
      ensures line == old(line) || fresh(line)
      ensures var (text, next) := Eval(AsCoded, fmt, tags, start, "", false);
              Holds(o, kept, acc + text) && last == next && (o != off <==> text != "")
      decreases |fmt| - start, 2
    {
      assert kept + acc + "" == kept + acc;
      o, last := DoFormat(fmt, tags, start, off, kept + acc);
      ghost var text := Eval(AsCoded, fmt, tags, start, "", false).0;
      assert kept + acc + text == kept + (acc + text);
    }

    /** formatLine: an error, the lack of a song, or the song in the user's format. */
    method FormatLine(fmt: string, error: Option<string>, song: Option<Song>) returns (len: nat)
      requires Safe(fmt, 0) && NUL !in fmt
      modifies this`line, line
      ensures line == old(line) || fresh(line)
      ensures len <= line.Length
      ensures error.Some? ==> line[..len] == "[" + error.value + "]"
      ensures error.None? && song.None? ==> line[..len] == "[no song]"
      ensures error.None? && song.Some? ==> line[..len] == Format(AsCoded, fmt, TagsOf(song.value))
    {
      if error.Some? {
        len := AppendW(0, "[");
        len := AppendW(1, error.value);
        len := AppendW(len, "]");
      } else if song.None? {
        len := AppendW(0, "[no song]");
      } else {
        var last;
        len, last := DoFormat(fmt, TagsOf(song.value), 0, 0, "");
      }
    }
  }

  // ---------- what formats print ----------

  lemma PlainStep(skip: Skip, fmt: string, tags: Tags, p: nat, acc: string, found: bool)
    requires p < |fmt| && Safe(fmt, p) && Plain(fmt[p])
    ensures Safe(fmt, p + 1)
    ensures Eval(skip, fmt, tags, p, acc, found) == Eval(skip, fmt, tags, p + 1, acc + [fmt[p]], found)
  {
    var q := PlainEnd(fmt, p + 1);
    var c := fmt[p];
    SafeLater(fmt, p, q);
    assert acc + fmt[p..q] == acc + [c] + fmt[p + 1..q];
    assert Construct(skip, fmt, tags, p, acc, found) == Go(q, acc + fmt[p..q], found);
    if q == p + 1 {
      assert fmt[p..q] == [c];
    } else {
      assert Construct(skip, fmt, tags, p + 1, acc + [c], found) == Go(q, acc + [c] + fmt[p + 1..q], found);
    }
  }

  lemma EvalAtEnd(skip: Skip, fmt: string, tags: Tags, acc: string, found: bool)
    ensures Eval(skip, fmt, tags, |fmt|, acc, found) == (acc, |fmt|)
  {
  }

  function QuoteChar(c: char): string {
    if Plain(c) then [c] else ['#', c]
  }

  function Quote(s: string): string {
    if s == "" then "" else QuoteChar(s[0]) + Quote(s[1..])
  }

  /** From `p` on, `fmt` holds `c` quoted. */
  predicate QuotedCharAt(fmt: string, p: nat, c: char) {
    if Plain(c) then p < |fmt| && fmt[p] == c else p + 1 < |fmt| && fmt[p] == '#' && fmt[p + 1] == c
  }

  lemma QuoteStep(skip: Skip, fmt: string, tags: Tags, p: nat, c: char, acc: string, found: bool)
    requires QuotedCharAt(fmt, p, c) && Safe(fmt, p)
    ensures var q := p + |QuoteChar(c)|;
            q <= |fmt| && Safe(fmt, q) &&
            Eval(skip, fmt, tags, p, acc, found) == Eval(skip, fmt, tags, q, acc + [c], found)
  {
    if Plain(c) {
      PlainStep(skip, fmt, tags, p, acc, found);
    } else {
      assert Construct(skip, fmt, tags, p, acc, found) == Go(p + 2, acc + [c], found);
    }
  }

  /** From `p` on, `fmt` holds `s` quoted. */
  ghost predicate QuotedAt(fmt: string, p: nat, s: string)
    decreases |s|
  {
    s != "" ==> QuotedCharAt(fmt, p, s[0]) && QuotedAt(fmt, p + |QuoteChar(s[0])|, s[1..])
  }

  lemma {:induction false} QuoteIsQuoted(pre: string, s: string, post: string)
    ensures QuotedAt(pre + Quote(s) + post, |pre|, s)
    decreases |s|
  {
    if s != "" {
      var c := QuoteChar(s[0]);
      var fmt := pre + c + Quote(s[1..]) + post;
      assert pre + Quote(s) + post == fmt;
      assert fmt[|pre|] == c[0] && fmt[|pre| + |c| - 1] == c[|c| - 1];
      QuoteIsQuoted(pre + c, s[1..], post);
    }
  }

  /** Quoted text, up to `q`, is copied from any place of any format: `all` is `acc` and the text. */
  lemma {:induction false} QuoteEval(skip: Skip, fmt: string, tags: Tags, p: nat, q: nat, s: string,
                                     acc: string, all: string, found: bool)
    requires p <= |fmt| && QuotedAt(fmt, p, s) && Safe(fmt, p)
    requires all == acc + s && q == p + |Quote(s)|
    ensures q <= |fmt| && Safe(fmt, q) && Eval(skip, fmt, tags, p, acc, found) == Eval(skip, fmt, tags, q, all, found)
    decreases |s|
  {
    if s == "" {
      assert all == acc && q == p;
    } else {
      assert acc + [s[0]] + s[1..] == all;
      QuoteStep(skip, fmt, tags, p, s[0], acc, found);
      QuoteEval(skip, fmt, tags, p + |QuoteChar(s[0])|, q, s[1..], acc + [s[0]], all, found);
    }
  }

  lemma {:induction false} QuoteIsSafe(pre: string, s: string, post: string)
    requires Safe(pre + Quote(s) + post, |pre| + |Quote(s)|)
    ensures Safe(pre + Quote(s) + post, |pre|)
    decreases |s|
  {
    if s != "" {
      var head := QuoteChar(s[0]);
      assert Quote(s) == head + Quote(s[1..]);
      assert pre + head + Quote(s[1..]) + post == pre + Quote(s) + post;
      QuoteIsSafe(pre + head, s[1..], post);
    }
  }

  /** Escaping round trip: a quoted text prints itself, whatever characters it holds. */
  lemma LiteralsPrint(skip: Skip, s: string, tags: Tags)
    ensures Safe(Quote(s), 0) && Format(skip, Quote(s), tags) == s
  {
    assert "" + Quote(s) + "" == Quote(s);
    QuoteIsSafe("", s, "");
    QuoteIsQuoted("", s, "");
    QuoteEval(skip, Quote(s), tags, 0, |Quote(s)|, s, "", s, false);
  }

  /** A group without a tag prints nothing. */
  lemma GroupNeedsATag(skip: Skip, s: string, tags: Tags)
    ensures var fmt := "[" + Quote(s) + "]"; Safe(fmt, 0) && Format(skip, fmt, tags) == ""
  {
    var fmt := "[" + Quote(s) + "]";
    QuoteIsSafe("[", s, "]");
    QuoteIsQuoted("[", s, "]");
    QuoteEval(skip, fmt, tags, 1, 1 + |Quote(s)|, s, "", s, false);
    assert Construct(skip, fmt, tags, |fmt| - 1, s, false) == End("", |fmt|);
    assert "" + s == s;
    EvalAtEnd(skip, fmt, tags, "", false);
    assert Construct(skip, fmt, tags, 0, "", false) == Go(|fmt|, "", false);
  }
}
