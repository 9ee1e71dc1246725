/**
 tpwd.c: a leading directory of the working directory is replaced in place by `~`
 or by the name of a variable that holds it, and the result is truncated.
 */
module Tpwd {
  import opened Common

  /** A buffer that holds `text` and its NUL. */
  ghost predicate HoldsText(a: array<char>, text: string)
    reads a
  {
    a.Length == |text| + 1 && a[..|text|] == text && a[|text|] == NUL && NUL !in text
  }

  type Environment = map<string, string>

  const DIRS := "TPWD_DIRS"

  /** The names between the colons; empty ones do not count. */
  function Entries(list: string): seq<string>
    decreases |list|
  {
    if list == "" then []
    else if list[0] == ':' then Entries(list[1..])
    else
      var k := First(list, ':');
      [list[..k]] + Entries(list[k..])
  }

  function LeadingColons(list: string): (k: nat)
    ensures k <= |list| && (k < |list| ==> list[k] != ':') && forall i | 0 <= i < k :: list[i] == ':'
  {
    if list == "" || list[0] != ':' then 0 else 1 + LeadingColons(list[1..])
  }

  /** What is left of the list once it has been cut behind its first name. */
  function FirstPart(list: string): string {
    var m := LeadingColons(list);
    list[..m + First(list[m..], ':')]
  }

  /** getenv while the list is being taken apart: the list itself has already been cut. */
  function Lookup(env: Environment, dirs: Option<string>, name: string): Option<string> {
    if name == DIRS then (if dirs.Some? then Some(FirstPart(dirs.value)) else None)
    else if name in env then Some(env[name])
    else None
  }

  function Stripped(dir: string): (r: string)
    ensures |r| <= |dir| && dir[..|r|] == r && (r != "" ==> r[|r| - 1] != '/')
    ensures forall i | |r| <= i < |dir| :: dir[i] == '/'
  {
    if dir == "" || dir[|dir| - 1] != '/' then dir else Stripped(dir[..|dir| - 1])
  }

  /** The variable behind an entry and what the user will see for it. */
  function Variable(entry: string): string {
    if entry == "~" then "HOME" else entry
  }

  function Replacement(entry: string): string {
    if entry == "~" then "~" else "$" + entry
  }

  /** How much of `pwd` an entry with value `value` replaces; None if it does not apply. */
  function Covers(entry: string, value: Option<string>, pwd: string): Option<nat> {
    if value.None? || value.value == "" || value.value[0] != '/' then None
    else
      var dir := Stripped(value.value);
      if dir == "" || !(dir <= pwd) || |dir| < |Replacement(entry)| || (|dir| < |pwd| && pwd[|dir|] != '/') then None
      else Some(|dir|)
  }

  /** The first entry that applies, and how much it replaces. */
  function FirstApplicable(env: Environment, dirs: Option<string>, entries: seq<string>, pwd: string):
    Option<(string, nat)>
  {
    if entries == [] then None
    else
      var covered := Covers(entries[0], Lookup(env, dirs, Variable(entries[0])), pwd);
      if covered.Some? then Some((entries[0], covered.value))
      else FirstApplicable(env, dirs, entries[1..], pwd)
  }

  /** The list that is used: `~` alone for pwd, or without the variable. */
  function ListOf(dirs: Option<string>, homeOnly: bool): string {
    if homeOnly || dirs.None? then "~" else dirs.value
  }

  function Shortened(env: Environment, dirs: Option<string>, homeOnly: bool, pwd: string): string {
    var hit := FirstApplicable(env, dirs, Entries(ListOf(dirs, homeOnly)), pwd);
    if hit.None? then pwd else Replacement(hit.value.0) + pwd[CoveredWithin(env, dirs, homeOnly, pwd)..]
  }

  function CoveredWithin(env: Environment, dirs: Option<string>, homeOnly: bool, pwd: string): (n: nat)
    requires FirstApplicable(env, dirs, Entries(ListOf(dirs, homeOnly)), pwd).Some?
    ensures n <= |pwd|
  {
    ApplicableIsEntry(env, dirs, Entries(ListOf(dirs, homeOnly)), pwd);
    FirstApplicable(env, dirs, Entries(ListOf(dirs, homeOnly)), pwd).value.1
  }

  // ---------- what shortening means ----------

  /** The chosen entry applies, and none before it does. */
  lemma {:induction false} ApplicableIsEntry(env: Environment, dirs: Option<string>, entries: seq<string>, pwd: string)
    ensures var hit := FirstApplicable(env, dirs, entries, pwd);
            if hit.Some? then
              exists i | 0 <= i < |entries| ::
                && entries[i] == hit.value.0
                && Covers(entries[i], Lookup(env, dirs, Variable(entries[i])), pwd) == Some(hit.value.1)
                && forall j | 0 <= j < i :: Covers(entries[j], Lookup(env, dirs, Variable(entries[j])), pwd) == None
            else
              forall j | 0 <= j < |entries| :: Covers(entries[j], Lookup(env, dirs, Variable(entries[j])), pwd) == None
    ensures var hit := FirstApplicable(env, dirs, entries, pwd); hit.Some? ==> hit.value.1 <= |pwd|
    decreases |entries|
  {
    if entries != [] && Covers(entries[0], Lookup(env, dirs, Variable(entries[0])), pwd).None? {
      ApplicableIsEntry(env, dirs, entries[1..], pwd);
      var hit := FirstApplicable(env, dirs, entries[1..], pwd);
      if hit.Some? {
        var i :| 0 <= i < |entries[1..]| && entries[1..][i] == hit.value.0
                 && Covers(entries[1..][i], Lookup(env, dirs, Variable(entries[1..][i])), pwd) == Some(hit.value.1)
                 && forall j | 0 <= j < i ::
                      Covers(entries[1..][j], Lookup(env, dirs, Variable(entries[1..][j])), pwd) == None;
        assert entries[i + 1] == entries[1..][i];
        forall j | 0 <= j < i + 1
          ensures Covers(entries[j], Lookup(env, dirs, Variable(entries[j])), pwd) == None
        {
          assert j > 0 ==> entries[j] == entries[1..][j - 1];
        }
      } else {
        forall j | 0 <= j < |entries|
          ensures Covers(entries[j], Lookup(env, dirs, Variable(entries[j])), pwd) == None
        {
          assert j > 0 ==> entries[j] == entries[1..][j - 1];
        }
      }
    }
  }

  /**
   Expanding the replacement again, with the value of its variable stripped of
   trailing slashes, gives back the path; and the result is never longer.
   */
  lemma ExpandingGivesBack(env: Environment, dirs: Option<string>, homeOnly: bool, pwd: string)
    ensures var short := Shortened(env, dirs, homeOnly, pwd);
            var hit := FirstApplicable(env, dirs, Entries(ListOf(dirs, homeOnly)), pwd);
            && |short| <= |pwd|
            && (hit.None? ==> short == pwd)
            && (hit.Some? ==>
                 var (entry, n) := hit.value;
                 var value := Lookup(env, dirs, Variable(entry));
                 && value.Some? && Replacement(entry) <= short
                 && Stripped(value.value) + short[|Replacement(entry)|..] == pwd
                 && (short == Replacement(entry) || short[|Replacement(entry)|] == '/'))
  {
    var entries := Entries(ListOf(dirs, homeOnly));
    ApplicableIsEntry(env, dirs, entries, pwd);
    var hit := FirstApplicable(env, dirs, entries, pwd);
    if hit.Some? {
      var (entry, n) := hit.value;
      var short := Shortened(env, dirs, homeOnly, pwd);
      assert short[|Replacement(entry)|..] == pwd[n..];
      assert pwd[..n] + pwd[n..] == pwd;
    }
  }

  // ---------- expanding with the variable the user has ----------

  /** The value of a variable outside the program, where the list has not been cut. */
  function Whole(env: Environment, dirs: Option<string>, name: string): Option<string> {
    if name == DIRS then dirs else if name in env then Some(env[name]) else None
  }

  /** The letters of a name stand in the list it comes from. */
  lemma {:induction false} EntryInList(list: string, entry: string, c: char)
    requires entry in Entries(list) && c in entry
    ensures c in list
    decreases |list|
  {
    if list[0] == ':' {
      EntryInList(list[1..], entry, c);
    } else {
      var k := First(list, ':');
      if entry in Entries(list[k..]) {
        EntryInList(list[k..], entry, c);
      }
    }
  }

  /** Behind the first part of the list, unless it is the whole, stand all names but the first. */
  lemma LaterEntry(list: string, entry: string)
    requires entry in Entries(list) && entry != FirstPart(list) && list != "" && list[0] != ':'
    ensures entry in Entries(list[|FirstPart(list)|..])
  {
    var k := First(list, ':');
    assert list[0..] == list && FirstPart(list) == list[..k];
  }

  lemma {:induction false} StrippedIsLonger(dir: string, k: nat, i: nat)
    requires k <= i < |dir| && dir[i] != '/'
    ensures k < |Stripped(dir)|
    decreases |dir|
  {
    if dir[|dir| - 1] == '/' {
      StrippedIsLonger(dir[..|dir| - 1], k, i);
    }
  }

  /** A text with a letter of a name behind its first `k` characters keeps more than these. */
  lemma LetterBehind(list: string, k: nat, c: char)
    requires k <= |list| && c in list[k..] && c != '/'
    ensures k < |Stripped(list)|
  {
    var i :| 0 <= i < |list[k..]| && list[k..][i] == c;
    StrippedIsLonger(list, k, k + i);
  }

  /** A list that names itself is longer than the part of it that the program sees. */
  lemma ListOutgrowsItsPart(list: string)
    requires DIRS in Entries(list) && FirstPart(list) != "" && FirstPart(list)[0] == '/'
    ensures |Stripped(FirstPart(list))| < |Stripped(list)|
  {
    var k := |FirstPart(list)|;
    assert DIRS[0] == 'T' && FirstPart(list) != DIRS;
    LaterEntry(list, DIRS);
    EntryInList(list[k..], DIRS, 'T');
    LetterBehind(list, k, 'T');
  }

  /** The first entry that applies comes from the list and has a value the program can see. */
  lemma HitApplies(env: Environment, dirs: Option<string>, homeOnly: bool, pwd: string)
    requires var list := Entries(ListOf(dirs, homeOnly)); FirstApplicable(env, dirs, list, pwd).Some?
    ensures var list := Entries(ListOf(dirs, homeOnly)); var (entry, n) := FirstApplicable(env, dirs, list, pwd).value;
            entry in list && Covers(entry, Lookup(env, dirs, Variable(entry)), pwd) == Some(n)
  {
    ApplicableIsEntry(env, dirs, Entries(ListOf(dirs, homeOnly)), pwd);
  }

  /**
   With the value the variable has outside the program, expanding gives back the path
   if and only if the entry that was used is not the list of directories itself.
   */
  lemma ExpandingOutside(env: Environment, dirs: Option<string>, homeOnly: bool, pwd: string)
    requires FirstApplicable(env, dirs, Entries(ListOf(dirs, homeOnly)), pwd).Some?
    ensures var short := Shortened(env, dirs, homeOnly, pwd);
            var entry := FirstApplicable(env, dirs, Entries(ListOf(dirs, homeOnly)), pwd).value.0;
            var value := Whole(env, dirs, Variable(entry));
            && value.Some? && |Replacement(entry)| <= |short|
            && (Stripped(value.value) + short[|Replacement(entry)|..] == pwd <==> entry != DIRS)
  {
    var short := Shortened(env, dirs, homeOnly, pwd);
    var (entry, n) := FirstApplicable(env, dirs, Entries(ListOf(dirs, homeOnly)), pwd).value;
    HitApplies(env, dirs, homeOnly, pwd);
    ExpandingGivesBack(env, dirs, homeOnly, pwd);
    if entry == DIRS {
      OnlyTildeAtHome(DIRS);
      ListOutgrowsItsPart(dirs.value);
      var rest := short[|Replacement(entry)|..];
      assert |Stripped(FirstPart(dirs.value)) + rest| == |pwd|;
      assert |Stripped(dirs.value) + rest| > |pwd|;
    } else {
      assert Variable(entry) != DIRS;
    }
  }

  lemma OnlyTildeAtHome(entry: string)
    ensures entry in Entries("~") ==> entry == "~"
  {
    assert First("~", ':') == 1;
    assert "~"[1..] == "" && "~"[..1] == "~";
  }

  lemma OneName(name: string)
    requires name != "" && ':' !in name
    ensures Entries(name) == [name]
  {
    assert name[0] in name;
    FirstIs(name, ':', |name|);
    assert name[..|name|] == name && name[|name|..] == "";
  }

  lemma NameAndMore(name: string, more: string)
    requires name != "" && ':' !in name
    ensures Entries(name + ":" + more) == [name] + Entries(more)
  {
    var list := name + ":" + more;
    assert name[0] in name && list[0] == name[0] != ':';
    FirstIs(list, ':', |name|);
    assert list[..|name|] == name && list[|name|..][1..] == more;
  }

  // ---------- what is printed for which directory ----------

  /** An absolute path without a slash at its end, and what can follow it in a longer one. */
  predicate IsDir(dir: string, rest: string) {
    dir != "" && dir[0] == '/' && dir[|dir| - 1] != '/' && (rest == "" || rest[0] == '/')
  }

  /** The first name of the list applies to its directory and everything below. */
  lemma FirstNameApplies(env: Environment, dirs: Option<string>, homeOnly: bool, name: string,
                         dir: string, rest: string)
    requires var list := Entries(ListOf(dirs, homeOnly)); list != [] && list[0] == name
    requires Lookup(env, dirs, Variable(name)) == Some(dir)
    requires IsDir(dir, rest) && |Replacement(name)| <= |dir|
    ensures Shortened(env, dirs, homeOnly, dir + rest) == Replacement(name) + rest
  {
    assert Covers(name, Some(dir), dir + rest) == Some(|dir|);
    assert (dir + rest)[|dir|..] == rest;
  }

  /** The home directory is shown as a tilde, for pwd whatever directories are listed. */
  lemma HomeIsTilde(env: Environment, dirs: Option<string>, homeOnly: bool, home: string, rest: string)
    requires "HOME" in env && env["HOME"] == home && IsDir(home, rest) && (homeOnly || dirs == None)
    ensures Shortened(env, dirs, homeOnly, home + rest) == "~" + rest
  {
    OneName("~");
    FirstNameApplies(env, dirs, homeOnly, "~", home, rest);
  }

  /** Otherwise a listed variable shows as a dollar sign and its name, unless that is longer than the directory. */
  lemma VariableIsNamed(env: Environment, name: string, more: string, dir: string, rest: string)
    requires name != "" && ':' !in name && name != "~" && name != "TPWD_DIRS"
    requires name in env && env[name] == dir && IsDir(dir, rest) && |name| < |dir|
    ensures Shortened(env, Some(name), false, dir + rest) == "$" + name + rest
    ensures Shortened(env, Some(name + ":" + more), false, dir + rest) == "$" + name + rest
  {
    OneName(name);
    FirstNameApplies(env, Some(name), false, name, dir, rest);
    NameAndMore(name, more);
    FirstNameApplies(env, Some(name + ":" + more), false, name, dir, rest);
  }

  /** For pwd nothing but the home directory is replaced. */
  lemma OnlyHomeForPwd(env: Environment, dirs: Option<string>, pwd: string)
    ensures Shortened(env, dirs, true, pwd) == Shortened(env, None, false, pwd)
    ensures "HOME" !in env ==> Shortened(env, dirs, true, pwd) == pwd
    ensures "HOME" in env && !(Stripped(env["HOME"]) <= pwd) ==> Shortened(env, dirs, true, pwd) == pwd
  {
    TildeCovers(env, dirs, pwd);
    TildeCovers(env, None, pwd);
    OneName("~");
    assert ListOf(dirs, true) == ListOf(None, false) == "~";
  }

  lemma TildeCovers(env: Environment, dirs: Option<string>, pwd: string)
    ensures var covered := Covers("~", if "HOME" in env then Some(env["HOME"]) else None, pwd);
            FirstApplicable(env, dirs, ["~"], pwd) == if covered.None? then None else Some(("~", covered.value))
  {
    assert "HOME" != DIRS && ["~"][1..] == [];
  }

  /** Such inputs: every list that names a directory, which is no variable, and then itself. */
  lemma ListNamesItself(env: Environment, dir: string, rest: string)
    requires |dir| > |DIRS| && ':' !in dir && dir[0] == '/' && dir[|dir| - 1] != '/' && dir !in env
    requires rest == "" || rest[0] == '/'
    ensures var list := dir + ":" + DIRS;
            && Shortened(env, Some(list), false, dir + rest) == "$" + DIRS + rest
            && Stripped(list) + rest != dir + rest
  {
    var list, pwd := dir + ":" + DIRS, dir + rest;
    NameAndMore(dir, DIRS);
    OneName(DIRS);
    FirstPartIs(dir, DIRS);
    SecondApplies(env, list, dir, rest);
    assert pwd[|dir|..] == rest;
    assert list[|list| - 1] == DIRS[8];
    assert |Stripped(list) + rest| != |pwd|;
  }

  lemma FirstPartIs(name: string, more: string)
    requires name != "" && ':' !in name
    ensures FirstPart(name + ":" + more) == name
  {
    var list := name + ":" + more;
    assert name[0] in name && list[0] == name[0] != ':';
    assert LeadingColons(list) == 0 && list[0..] == list;
    FirstIs(list, ':', |name|);
  }

  lemma SecondApplies(env: Environment, list: string, dir: string, rest: string)
    requires |dir| > |DIRS| && dir[0] == '/' && dir[|dir| - 1] != '/' && dir !in env && FirstPart(list) == dir
    requires rest == "" || rest[0] == '/'
    ensures FirstApplicable(env, Some(list), [dir, DIRS], dir + rest) == Some((DIRS, |dir|))
  {
    assert Covers(dir, Lookup(env, Some(list), dir), dir + rest) == None;
    assert Covers(DIRS, Some(dir), dir + rest) == Some(|dir|);
    assert [dir, DIRS][1..] == [DIRS];
    assert FirstApplicable(env, Some(list), [DIRS], dir + rest) == Some((DIRS, |dir|));
  }

  lemma ListNamesItselfAt()
    ensures var dir, list := "/a/b/c/d/e/f", "/a/b/c/d/e/f" + ":" + DIRS;
            && Shortened(map[], Some(list), false, dir + "/x") == "$" + DIRS + "/x"
            && Stripped(list) + "/x" != dir + "/x"
  {
    ListNamesItself(map[], "/a/b/c/d/e/f", "/x");
  }

  // ---------- the program ----------

  /** The list of names after the loop has cut it up to some place: from `v` on it is untouched. */
  ghost predicate CutList(list: array<char>, d: string, v: nat)
    reads list
  {
    && NUL !in d && list.Length == |d| + 1 && v <= |d|
    && (forall i | v <= i < |d| :: list[i] == d[i]) && list[|d|] == NUL
  }

  /** Once anything has been cut, the buffer reads as the first part of the list. */
  ghost predicate FirstPartCut(list: array<char>, d: string)
    requires list.Length == |d| + 1
    reads list
  {
    var k := |FirstPart(d)|;
    list[k] == NUL && forall i | 0 <= i < k :: list[i] == d[i]
  }

  lemma SkipColons(d: string, v: nat, name: nat)
    requires v <= name <= |d| && forall i | v <= i < name :: d[i] == ':'
    ensures Entries(d[v..]) == Entries(d[name..])
    decreases name - v
  {
    if v < name {
      assert d[v..][1..] == d[v + 1..];
      SkipColons(d, v + 1, name);
    }
  }

  lemma {:induction false} FirstIs(s: string, c: char, k: nat)
    requires k <= |s| && (k < |s| ==> s[k] == c) && forall i | 0 <= i < k :: s[i] != c
    ensures First(s, c) == k
  {
    if k > 0 {
      FirstIs(s[1..], c, k - 1);
    }
  }

  lemma {:induction false} LeadingIs(s: string, k: nat)
    requires k <= |s| && (k < |s| ==> s[k] != ':') && forall i | 0 <= i < k :: s[i] == ':'
    ensures LeadingColons(s) == k
  {
    if k > 0 {
      LeadingIs(s[1..], k - 1);
    }
  }

  /** The next name of the list is d[name..end]. */
  lemma EntryAt(d: string, v: nat, name: nat, end: nat)
    requires v <= name < end <= |d| && (forall i | v <= i < name :: d[i] == ':')
    requires (forall i | name <= i < end :: d[i] != ':') && (end < |d| ==> d[end] == ':')
    ensures var next := if end < |d| then end + 1 else end;
            Entries(d[v..]) == [d[name..end]] + Entries(d[next..])
    ensures v == 0 ==> |FirstPart(d)| == end
    ensures |FirstPart(d)| <= end
  {
    SkipColons(d, v, name);
    var t := d[name..];
    FirstIs(t, ':', end - name);
    assert t[..end - name] == d[name..end] && t[end - name..] == d[end..];
    if end < |d| {
      assert d[end..][1..] == d[end + 1..];
    }
    if v == 0 {
      LeadingIs(d, name);
    } else {
      FirstPartEndsBefore(d, name, end);
    }
  }

  lemma FirstPartEndsBefore(d: string, name: nat, end: nat)
    requires name < end <= |d| && (forall i | name <= i < end :: d[i] != ':') && (end < |d| ==> d[end] == ':')
    ensures |FirstPart(d)| <= end
  {
    var m := LeadingColons(d);
    var k := First(d[m..], ':');
    assert d[name] != ':';
    assert m <= name;
    assert forall j | m <= j < m + k :: d[j] == d[m..][j - m];
  }

  /** The two scans: over colons, then over a name. */
  method FindEntry(list: array<char>, v: nat, ghost d: string) returns (name: nat, end: nat)
    requires CutList(list, d, v)
    ensures v <= name <= end <= |d|
    ensures forall i | v <= i < name :: d[i] == ':'
    ensures forall i | name <= i < end :: d[i] != ':'
    ensures if name == |d| then end == name else d[name] != ':' && (end < |d| ==> d[end] == ':')
  {
    assert forall i | 0 <= i < |d| :: d[i] in d;
    name := v;
    while list[name] == ':'
      invariant v <= name <= |d| && forall i | v <= i < name :: d[i] == ':'
      decreases |d| - name
    {
      name := name + 1;
    }
    end := name;
    while list[end] != ':' && list[end] != NUL
      invariant name <= end <= |d| && forall i | name <= i < end :: d[i] != ':'
      decreases |d| - end
    {
      end := end + 1;
    }
  }

  /** The next name of the list, cut off with a NUL; `next` is where to go on. */
  method NextEntry(list: array<char>, v: nat, ghost d: string) returns (found: bool, name: nat, end: nat, next: nat)
    requires CutList(list, d, v) && (v > 0 ==> FirstPartCut(list, d))
    modifies list
    ensures CutList(list, d, next)
    ensures !found ==> Entries(d[v..]) == []
    ensures found ==> v < next && FirstPartCut(list, d)
    ensures found ==> name < end <= |d| && list[name..end] == d[name..end]
    ensures found ==> Entries(d[v..]) == [d[name..end]] + Entries(d[next..])
  {
    next := v;
    name, end := FindEntry(list, v, d);
    found := list[name] != NUL;
    FoundIff(d, name);
    if !found {
      SkipColons(d, v, name);
      return;
    }
    EntryAt(d, v, name, end);
    next := CutAt(list, v, end, d);
    assert list[name..end] == d[name..end];
  }

  /** Inside the list there is no NUL. */
  lemma FoundIff(d: string, name: nat)
    requires NUL !in d && name <= |d|
    ensures name < |d| ==> d[name] != NUL
  {
  }

  /** Ends the name at `end` with a NUL. */
  method CutAt(list: array<char>, v: nat, end: nat, ghost d: string) returns (next: nat)
    requires CutList(list, d, v) && v < end <= |d|
    requires if v == 0 then |FirstPart(d)| == end else FirstPartCut(list, d) && |FirstPart(d)| <= end
    modifies list
    ensures v < next && CutList(list, d, next) && FirstPartCut(list, d)
    ensures next == if end < |d| then end + 1 else end
    ensures forall i | v <= i < end :: list[i] == d[i]
  {
    assert forall i | 0 <= i < |d| :: d[i] in d;
    next := end;
    if list[end] != NUL {
      list[end] := NUL;
      next := end + 1;
    }
  }

  /** getenv; the list of directories is read as it stands in its buffer. */
  method GetEnv(env: Environment, dirs: array?<char>, name: string, ghost dirsText: Option<string>)
    returns (value: Option<string>)
    requires dirs == null <==> dirsText.None?
    requires dirs != null ==> dirs.Length == |dirsText.value| + 1 && NUL !in dirsText.value
    requires dirs != null && name == DIRS ==> FirstPartCut(dirs, dirsText.value)
    ensures value == Lookup(env, dirsText, name)
  {
    if name != DIRS {
      return if name in env then Some(env[name]) else None;
    }
    if dirs == null {
      return None;
    }
    ghost var first := FirstPart(dirsText.value);
    assert forall i | 0 <= i < |first| :: dirsText.value[i] in dirsText.value;
    var end := 0;
    while dirs[end] != NUL
      invariant end <= |first|
      decreases |first| - end
    {
      end := end + 1;
    }
    assert dirs[..end] == first;
    value := Some(dirs[..end]);
  }

  /** The loop over trailing slashes. */
  method StripSlashes(dir: string) returns (len: nat)
    ensures len <= |dir| && dir[..len] == Stripped(dir)
  {
    len := |dir|;
    assert dir[..len] == dir;
    while len != 0 && dir[len - 1] == '/'
      invariant len <= |dir| && Stripped(dir[..len]) == Stripped(dir)
    {
      assert dir[..len][..len - 1] == dir[..len - 1];
      len := len - 1;
    }
  }

  /** Whether an entry applies, and how much of the path it covers. */
  method Match(pwd: array<char>, pwdLen: nat, entry: string, value: Option<string>, ghost path: string)
    returns (covered: Option<nat>)
    requires HoldsText(pwd, path) && pwdLen == |path| && entry != ""
    ensures covered == Covers(entry, value, path)
  {
    var varLen := if entry == "~" then 0 else |entry|;
    if value.None? || value.value == "" || value.value[0] != '/' {
      return None;
    }
    var dir := value.value;
    var len := StripSlashes(dir);
    if len == 0 || len > pwdLen || len < 1 + varLen {
      return None;
    }
    assert pwd[..len] == path[..len];
    assert len < |path| ==> pwd[len] == path[len] && path[len] in path;
    if pwd[..len] != dir[..len] || (pwd[len] != '/' && pwd[len] != NUL) {
      return None;
    }
    covered := Some(len);
  }

  /** The two writes of a replacement. */
  method Overwrite(pwd: array<char>, entry: string, len: nat, ghost path: string) returns (off: nat)
    requires HoldsText(pwd, path) && entry != "" && |Replacement(entry)| <= len <= |path|
    modifies pwd
    ensures off + |Replacement(entry)| == len
    ensures forall i | off <= i < |path| :: pwd[i] == if i < len then Replacement(entry)[i - off] else path[i]
    ensures pwd[|path|] == NUL
  {
    var varLen := if entry == "~" then 0 else |entry|;
    off := len - 1 - varLen;
    forall i | 0 <= i < |path|
      ensures pwd[i] == path[i]
    {
      assert pwd[..|path|][i] == path[i];
    }
    forall i | 0 <= i < varLen {
      pwd[off + 1 + i] := entry[i];
    }
    pwd[off] := if varLen != 0 then '$' else '~';
  }

  /** Writes the replacement over the end of the covered part. */
  method Replace(pwd: array<char>, entry: string, len: nat, ghost path: string) returns (off: nat)
    requires HoldsText(pwd, path) && entry != "" && |Replacement(entry)| <= len <= |path|
    modifies pwd
    ensures off + |Replacement(entry)| == len
    ensures pwd[off..|path|] == Replacement(entry) + path[len..] && pwd[|path|] == NUL
  {
    off := Overwrite(pwd, entry, len, path);
    Composed(pwd[..|path|], off, Replacement(entry), path[len..]);
    assert pwd[..|path|][off..] == pwd[off..|path|];
  }

  lemma Composed(s: string, off: nat, head: string, tail: string)
    requires off + |head| + |tail| == |s|
    requires forall i | off <= i < off + |head| :: s[i] == head[i - off]
    requires forall i | off + |head| <= i < |s| :: s[i] == tail[i - off - |head|]
    ensures s[off..] == head + tail
  {
  }

  /** What the loop over the list has still to find out. */
  ghost predicate Searching(env: Environment, dirs: Option<string>, d: string, v: nat, path: string) {
    && v <= |d|
    && FirstApplicable(env, dirs, Entries(d), path) == FirstApplicable(env, dirs, Entries(d[v..]), path)
  }

  /** The loop of shorten_pwd over one list of names. */
  method SearchList(pwd: array<char>, list: array<char>, env: Environment, dirs: array?<char>,
                    ghost path: string, ghost d: string, ghost dirsText: Option<string>)
    returns (hit: Option<(string, nat)>)
    requires HoldsText(pwd, path) && HoldsText(list, d) && pwd != list
    requires dirs == null <==> dirsText.None?
    requires if dirs == list then dirsText == Some(d)
             else d == "~" && (dirs != null ==> HoldsText(dirs, dirsText.value))
    modifies list
    ensures hit == FirstApplicable(env, dirsText, Entries(d), path)
    ensures hit.Some? ==> hit.value.0 != ""
    ensures HoldsText(pwd, path)
  {
    var v := 0;
    assert d[0..] == d;
    assert forall i | 0 <= i < |d| :: list[i] == list[..|d|][i];
    while true
      invariant CutList(list, d, v) && (v > 0 ==> FirstPartCut(list, d))
      invariant Searching(env, dirsText, d, v, path) && HoldsText(pwd, path)
      decreases |d| - v
    {
      var found, name, end, next := NextEntry(list, v, d);
      if !found {
        return None;
      }
      var entry := list[name..end];
      EntryOfTilde(d, v, name, end, next);
      var value := GetEnv(env, dirs, if entry == "~" then "HOME" else entry, dirsText);
      var covered := Match(pwd, pwd.Length - 1, entry, value, path);
      assert Entries(d[v..])[1..] == Entries(d[next..]);
      if covered.Some? {
        return Some((entry, covered.value));
      }
      v := next;
    }
  }

  /** In the list `~` the only name is `~`. */
  lemma EntryOfTilde(d: string, v: nat, name: nat, end: nat, next: nat)
    requires v <= |d| && name < end <= |d|
    ensures d == "~" ==> d[name..end] == "~"
  {
  }

  /** shorten_pwd: the offset of the result in the buffer of the path. */
  method ShortenPwd(pwd: array<char>, homeOnly: bool, env: Environment, dirs: array?<char>,
                    ghost path: string, ghost dirsText: Option<string>)
    returns (off: nat)
    requires HoldsText(pwd, path) && pwd != dirs
    requires dirs == null <==> dirsText.None?
    requires dirs != null ==> HoldsText(dirs, dirsText.value)
    modifies pwd, dirs
    ensures off <= |path| && pwd[off..|path|] == Shortened(env, dirsText, homeOnly, path) && pwd[|path|] == NUL
    ensures FirstApplicable(env, dirsText, Entries(ListOf(dirsText, homeOnly)), path).None? ==>
              off == 0 && pwd[..] == old(pwd[..])
  {
    var tilde := new char[2] ['~', NUL];
    assert HoldsText(tilde, "~");
    var vars := if homeOnly || dirs == null then tilde else dirs;
    var hit := SearchList(pwd, vars, env, dirs, path, ListOf(dirsText, homeOnly), dirsText);
    ApplicableIsEntry(env, dirsText, Entries(ListOf(dirsText, homeOnly)), path);
    if hit.None? {
      return 0;
    }
    off := Replace(pwd, hit.value.0, hit.value.1, path);
  }

  // ---------- printing ----------

  /** output: what goes to stdout. */
  method Output(pwd: string, maxLen: nat, truncStr: string, truncLen: nat, noNewline: bool) returns (out: string)
    ensures maxLen == 0 || |pwd| <= maxLen ==> out == pwd + if noNewline then "" else "\n"
    ensures 0 < maxLen < |pwd| ==> truncStr <= out
    ensures 0 < maxLen < |pwd| && truncLen < maxLen ==>
              out == truncStr + pwd[|pwd| - (maxLen - truncLen)..] + if noNewline then "" else "\n"
    ensures 0 < maxLen < |pwd| && truncLen == |truncStr| < maxLen ==> |out| == maxLen + if noNewline then 0 else 1
  {
    var len := |pwd|;
    if maxLen == 0 || len <= maxLen {
      out := pwd;
    } else {
      out := truncStr;
      if truncLen < maxLen {
        out := out + pwd[len - maxLen + truncLen..];
      }
    }
    if !noNewline {
      out := out + "\n";
    }
  }
}
